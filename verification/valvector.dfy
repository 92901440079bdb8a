/**
 The plain value vector, which initialises its elements lazily: the slots from numInit on are raw memory
 until somebody looks at them. Its user cannot tell it from a vector whose elements all start out as
 the default value, which is what `Seen` shows.
 */
module ValVectors {
  import opened Vectors

  /** s with n elements: cut off, or filled up with d. */
  function Resized<T>(s: seq<T>, n: nat, d: T): (r: seq<T>)
    ensures |r| == n
    ensures forall i :: 0 <= i < n ==> r[i] == if i < |s| then s[i] else d
  {
    if n <= |s| then s[..n] else s + seq(n - |s|, _ => d)
  }

  /** The user's view of slots of which the first n are made. */
  ghost function SeenIn<T>(slots: seq<Slot<T>>, n: nat, d: T): (s: seq<T>)
    requires n <= |slots| && forall i :: 0 <= i < n ==> slots[i].Made?
    ensures |s| == |slots|
    ensures forall i :: 0 <= i < |s| ==> s[i] == if i < n then slots[i].value else d
  {
    Values(slots[..n]) + seq(|slots| - n, _ => d)
  }

  class ValVector<T> {
    const default: T
    var vector: array<Slot<T>>
    var numInit: nat

    constructor (default: T, length: nat)
      ensures Valid() && fresh(vector) && this.default == default
      ensures Seen() == Resized([], length, default)
    {
      this.default := default;
      vector := new Slot<T>[length](_ => Raw);
      numInit := 0;
    }

    ghost predicate Valid()
      reads this, vector
    {
      && numInit <= vector.Length
      && (forall i :: 0 <= i < numInit ==> vector[i].Made?)
      && (forall i :: numInit <= i < vector.Length ==> vector[i].Raw?)
    }

    /** The vector as its user sees it. */
    ghost function Seen(): seq<T>
      requires Valid()
      reads this, vector
    {
      SeenIn(vector[..], numInit, default)
    }

    /** The constructor that copies one value into every element. */
    constructor Filled(default: T, length: nat, value: T)
      ensures Valid() && fresh(vector) && this.default == default
      ensures Seen() == Resized([], length, value)
    {
      this.default := default;
      var a := new Slot<T>[length](_ => Raw);
      var i := 0;
      while i < length
        invariant 0 <= i <= length
        invariant forall j :: 0 <= j < i ==> a[j] == Made(value)
      {
        a[i] := Made(value);
        i := i + 1;
      }
      vector, numInit := a, length;
    }

    /** The copy constructor: base_construct. Only what has been made is copied. */
    constructor Copy(orig: ValVector<T>)
      requires orig.Valid()
      ensures Valid() && fresh(vector) && default == orig.default
      ensures Seen() == orig.Seen()
    {
      default := orig.default;
      var a := new Slot<T>[orig.vector.Length](_ => Raw);
      var i := 0;
      while i < orig.numInit
        invariant 0 <= i <= orig.numInit
        invariant forall j :: 0 <= j < i ==> a[j] == orig.vector[j]
        invariant forall j :: i <= j < a.Length ==> a[j].Raw?
      {
        a[i] := orig.vector[i];
        i := i + 1;
      }
      vector, numInit := a, orig.numInit;
    }

    /** resize: what is seen is cut off or filled up with default values. */
    method Resize(newLength: nat)
      requires Valid()
      modifies this
      ensures Valid() && fresh(vector)
      ensures Seen() == Resized(old(Seen()), newLength, default)
      ensures numInit == if old(numInit) < newLength then old(numInit) else newLength
    {
      var maxIndex := if numInit < newLength then numInit else newLength;
      var newVector := new Slot<T>[newLength](_ => Raw);
      var i := 0;
      while i < maxIndex
        modifies newVector
        invariant 0 <= i <= maxIndex
        invariant forall j :: 0 <= j < i ==> newVector[j] == vector[j]
        invariant forall j :: i <= j < newLength ==> newVector[j].Raw?
      {
        newVector[i] := vector[i];
        i := i + 1;
      }
      numInit := maxIndex;
      vector := newVector;
    }

    /** base_init_upto: makes every element up to and including index; nobody can tell. */
    method InitUpto(index: nat)
      requires Valid() && index < vector.Length
      modifies this`numInit, vector
      ensures Valid() && index < numInit
      ensures Seen() == old(Seen())
    {
      if index >= numInit {
        var i := numInit;
        while i <= index
          modifies vector
          invariant numInit <= i <= index + 1
          invariant forall j :: 0 <= j < numInit ==> vector[j] == old(vector[j])
          invariant forall j :: numInit <= j < i ==> vector[j] == Made(default)
          invariant forall j :: i <= j < vector.Length ==> vector[j].Raw?
        {
          vector[i] := Made(default);
          i := i + 1;
        }
        numInit := index + 1;
      }
    }

    /** The indexing of a vector that may be changed: which element is meant, made ready for use. An
        index past the end makes the vector longer; a negative one means the first element. */
    method Locate(index: int) returns (k: nat)
      requires Valid()
      modifies this, vector
      ensures Valid() && (vector == old(vector) || fresh(vector))
      ensures k == (if index < 0 then 0 else index) && k < numInit
      ensures Seen() == if k < old(|Seen()|) then old(Seen()) else Resized(old(Seen()), k + 1, default)
    {
      k := if index < 0 then 0 else index;
      if k >= numInit {
        if k >= vector.Length {
          Resize(k + 1);
        }
        InitUpto(k);
      }
    }

    /** v[index], read. */
    method Get(index: int) returns (x: T)
      requires Valid()
      modifies this, vector
      ensures Valid() && (vector == old(vector) || fresh(vector))
      ensures var k: nat := if index < 0 then 0 else index;
        && Seen() == (if k < old(|Seen()|) then old(Seen()) else Resized(old(Seen()), k + 1, default))
        && x == Seen()[k]
    {
      var k := Locate(index);
      x := vector[k].value;
    }

    /** v[index] = x. */
    method Set(index: int, x: T)
      requires Valid()
      modifies this, vector
      ensures Valid() && (vector == old(vector) || fresh(vector))
      ensures var k: nat := if index < 0 then 0 else index;
        Seen() == (if k < old(|Seen()|) then old(Seen()) else Resized(old(Seen()), k + 1, default))[k := x]
    {
      var k := Locate(index);
      vector[k] := Made(x);
    }

    /** The assignment operator: base_assign drops what is there and copies. */
    method Assign(orig: ValVector<T>)
      requires Valid() && orig.Valid() && orig.default == default
      modifies this
      ensures Valid() && Seen() == old(orig.Seen())
    {
      if this != orig {
        Resize(0);
        var copy := new ValVector<T>.Copy(orig);
        vector, numInit := copy.vector, copy.numInit;
      }
    }
  }

  /** Filling up and cutting off again is cutting off; cutting off and filling up again forgets only what
      was cut off. */
  lemma ResizedTwice<T>(s: seq<T>, m: nat, n: nat, d: T)
    requires m <= n
    ensures Resized(Resized(s, n, d), m, d) == Resized(s, m, d)
    ensures m < |s| ==> Resized(Resized(s, m, d), n, d) == Resized(s[..m], n, d)
    ensures |s| <= m ==> Resized(Resized(s, m, d), n, d) == Resized(s, n, d)
  {}
}
