/**
 The ordered and sorted vectors: an array with room to grow, whose first numEntries slots hold the
 entries. The other slots are raw memory, which may be made but never read.

 Whether base_find is the linear scan of an ordered vector or the binary search of a sorted one is
 decided by `sorted`, which stands for the virtual function.
 */
module Vectors {

  datatype Slot<T> = Raw | Made(value: T)

  datatype FindType = FindAny | FindFirst | NextMultFind | FindForInsert

  // ----- order and equivalence -----

  /** lt is a strict weak order and eq its equivalence. */
  ghost predicate Ordering<T(!new)>(eq: (T, T) -> bool, lt: (T, T) -> bool) {
    && (forall a, b :: eq(a, b) <==> !lt(a, b) && !lt(b, a))
    && (forall a :: !lt(a, a))
    && (forall a, b, c :: lt(a, b) && lt(b, c) ==> lt(a, c))
    && (forall a, b, c :: eq(a, b) && eq(b, c) ==> eq(a, c))
  }

  ghost predicate IsSorted<T>(lt: (T, T) -> bool, s: seq<T>) {
    forall i, j :: 0 <= i < j < |s| ==> !lt(s[j], s[i])
  }

  /** The entries that are not equivalent to x, in order. */
  function Keep<T>(eq: (T, T) -> bool, s: seq<T>, x: T): (r: seq<T>)
    ensures |r| <= |s|
  {
    if s == [] then []
    else Keep(eq, s[..|s| - 1], x) + (if eq(s[|s| - 1], x) then [] else [s[|s| - 1]])
  }

  /** How many entries are equivalent to x. */
  function Occurrences<T>(eq: (T, T) -> bool, s: seq<T>, x: T): nat {
    if s == [] then 0
    else Occurrences(eq, s[..|s| - 1], x) + (if eq(s[|s| - 1], x) then 1 else 0)
  }

  lemma {:induction false} KeepCounts<T>(eq: (T, T) -> bool, s: seq<T>, x: T)
    ensures |Keep(eq, s, x)| + Occurrences(eq, s, x) == |s|
  {
    if s != [] {
      KeepCounts(eq, s[..|s| - 1], x);
    }
  }

  lemma KeepStep<T>(eq: (T, T) -> bool, s: seq<T>, x: T, n: nat)
    requires n < |s|
    ensures Keep(eq, s[..n + 1], x) == Keep(eq, s[..n], x) + (if eq(s[n], x) then [] else [s[n]])
    ensures Occurrences(eq, s[..n + 1], x) == Occurrences(eq, s[..n], x) + (if eq(s[n], x) then 1 else 0)
  {
    assert s[..n + 1][..n] == s[..n];
  }

  /** A stretch without matches is kept whole. */
  lemma {:induction false} KeepStretch<T>(eq: (T, T) -> bool, s: seq<T>, x: T, m: nat, n: nat)
    requires m <= n <= |s| && forall j :: m <= j < n ==> !eq(s[j], x)
    ensures Keep(eq, s[..n], x) == Keep(eq, s[..m], x) + s[m..n]
    ensures Occurrences(eq, s[..n], x) == Occurrences(eq, s[..m], x)
  {
    if m < n {
      KeepStretch(eq, s, x, m, n - 1);
      KeepStep(eq, s, x, n - 1);
      assert s[m..n] == s[m..n - 1] + [s[n - 1]];
    }
  }

  /** Nothing equivalent to x is kept, and everything else is, in order. */
  lemma {:induction false} KeepIsFilter<T>(eq: (T, T) -> bool, s: seq<T>, x: T)
    ensures forall y :: y in Keep(eq, s, x) <==> y in s && !eq(y, x)
    ensures Keep(eq, s, x) == s <==> Occurrences(eq, s, x) == 0
  {
    KeepCounts(eq, s, x);
    if s != [] {
      var t := s[..|s| - 1];
      KeepIsFilter(eq, t, x);
      KeepCounts(eq, t, x);
      assert s == t + [s[|s| - 1]];
    }
  }

  /** An entry is kept or not by itself, and the order stays: what is kept of two vectors in a row is what is
      kept of the first and then of the second. */
  lemma {:induction false} KeepJoins<T>(eq: (T, T) -> bool, s: seq<T>, t: seq<T>, x: T, y: T)
    ensures Keep(eq, [y], x) == if eq(y, x) then [] else [y]
    ensures Occurrences(eq, [y], x) == if eq(y, x) then 1 else 0
    ensures Keep(eq, s + t, x) == Keep(eq, s, x) + Keep(eq, t, x)
    ensures Occurrences(eq, s + t, x) == Occurrences(eq, s, x) + Occurrences(eq, t, x)
    decreases |t|
  {
    assert [y][..0] == [];
    if t == [] {
      assert s + t == s;
    } else {
      var u := t[..|t| - 1];
      assert (s + t)[..|s + t| - 1] == s + u;
      KeepJoins(eq, s, u, x, y);
    }
  }

  function Clamp(index: int, n: nat): (k: nat)
    ensures k <= n
  {
    if index < 0 then 0 else if index > n then n else index
  }

  /** The values in slots that have all been made. */
  function Values<T>(slots: seq<Slot<T>>): (s: seq<T>)
    requires forall i :: 0 <= i < |slots| ==> slots[i].Made?
    ensures |s| == |slots| && forall i :: 0 <= i < |s| ==> s[i] == slots[i].value
  {
    seq(|slots|, i requires 0 <= i < |slots| => slots[i].value)
  }

  /** The elements start+count..end+count of s copied down to start..end. */
  function MovedDown<T>(s: seq<T>, start: nat, end: nat, count: nat): (r: seq<T>)
    requires start <= end && end + count <= |s|
    ensures |r| == |s|
    ensures forall j :: 0 <= j < start || end <= j < |s| ==> r[j] == s[j]
    ensures forall j :: start <= j < end ==> r[j] == s[j + count]
  {
    s[..start] + s[start + count..end + count] + s[end..]
  }

  lemma MoveStep<T>(s: seq<T>, start: nat, i: nat, count: nat)
    requires start <= i && i + count <= |s|
    ensures MovedDown(s, start, start, count) == s
    ensures i + count < |s| ==>
      && MovedDown(s, start, i, count)[i + count] == s[i + count]
      && MovedDown(s, start, i + 1, count) == MovedDown(s, start, i, count)[i := s[i + count]]
  {}

  /** The elements k..n of s copied up by one, over element n. */
  function MovedUp<T>(s: seq<T>, k: nat, n: nat): (r: seq<T>)
    requires k < n < |s|
    ensures |r| == |s|
    ensures forall j :: 0 <= j <= k || n < j < |s| ==> r[j] == s[j]
    ensures forall j :: k < j <= n ==> r[j] == s[j - 1]
  {
    s[..k + 1] + s[k..n] + s[n + 1..]
  }

  lemma MoveUpStep<T>(s: seq<T>, i: nat, n: nat)
    requires 0 < n < |s|
    ensures MovedUp(s, n - 1, n) == s[n := s[n - 1]]
    ensures i + 1 < n ==>
      MovedUp(s, i + 1, n)[i] == s[i] && MovedUp(s, i, n) == MovedUp(s, i + 1, n)[i + 1 := s[i]]
  {}

  /** Slots s with n entries, and t after x has been put in front of entry k. */
  lemma Inserted<T>(s: seq<Slot<T>>, t: seq<Slot<T>>, n: nat, k: nat, x: T)
    requires k <= n < |s|
    requires t == (if k < n then MovedUp(s, k, n) else s)[k := Made(x)]
    requires forall j :: 0 <= j < n ==> s[j].Made?
    requires forall j :: n <= j < |s| ==> s[j].Raw?
    ensures |t| == |s| && (forall j :: 0 <= j < n + 1 ==> t[j].Made?) && (forall j :: n + 1 <= j < |t| ==> t[j].Raw?)
    ensures Values(t[..n + 1]) == Values(s[..n])[..k] + [x] + Values(s[..n])[k..]
  {
    forall j | 0 <= j < n + 1
      ensures t[j].Made?
      ensures t[j].value == (Values(s[..n])[..k] + [x] + Values(s[..n])[k..])[j]
    {
      if j > k { assert t[j] == s[j - 1]; }
    }
  }

  /** Slots s with n entries, and t after entry k has been taken out. */
  lemma Removed<T>(s: seq<Slot<T>>, t: seq<Slot<T>>, n: nat, k: nat)
    requires k < n <= |s|
    requires t == MovedDown(s, k, n - 1, 1)[n - 1 := Raw]
    requires forall j :: 0 <= j < n ==> s[j].Made?
    requires forall j :: n <= j < |s| ==> s[j].Raw?
    ensures |t| == |s| && (forall j :: 0 <= j < n - 1 ==> t[j].Made?) && (forall j :: n - 1 <= j < |t| ==> t[j].Raw?)
    ensures Values(t[..n - 1]) == Values(s[..n])[..k] + Values(s[..n])[k + 1..]
  {
    forall j | 0 <= j < n - 1
      ensures t[j].Made?
      ensures t[j].value == (Values(s[..n])[..k] + Values(s[..n])[k + 1..])[j]
    {
      if j >= k { assert t[j] == s[j + 1]; }
    }
  }

  /** After the move the kept entries and the stretch behind them stand side by side. */
  lemma MovedIsKept<T>(slots: seq<Slot<T>>, moved: seq<Slot<T>>, kept: seq<T>, s: seq<T>, curr: nat, count: nat,
                       end: nat)
    requires |kept| == curr && curr + count <= end <= |s| <= |slots|
    requires moved == MovedDown(slots, curr, end - count, count)
    requires forall j :: 0 <= j < curr ==> slots[j] == Made(kept[j])
    requires forall j :: curr + count <= j < |s| ==> slots[j] == Made(s[j])
    ensures forall j :: 0 <= j < end - count ==> moved[j] == Made((kept + s[curr + count..end])[j])
    ensures forall j :: end <= j < |s| ==> moved[j] == Made(s[j])
    ensures forall j :: |s| <= j < |slots| ==> moved[j] == slots[j]
  {
    forall j | 0 <= j < end - count
      ensures moved[j] == Made((kept + s[curr + count..end])[j])
    {
      if j >= curr {
        assert moved[j] == slots[j + count];
      }
    }
  }

  class Vector<T(!new)> {
    const sorted: bool
    const equivalent: (T, T) -> bool
    const lessThan: (T, T) -> bool
    const resizeGrow: nat
    var vector: array<Slot<T>>
    var numInit: nat
    var numEntries: nat

    constructor (sorted: bool, equivalent: (T, T) -> bool, lessThan: (T, T) -> bool, length: nat, grow: nat)
      requires sorted ==> Ordering(equivalent, lessThan)
      ensures Valid() && fresh(vector) && Contents() == [] && vector.Length == length
      ensures this.sorted == sorted && this.equivalent == equivalent && this.lessThan == lessThan
      ensures resizeGrow == grow
    {
      this.sorted, this.equivalent, this.lessThan, resizeGrow := sorted, equivalent, lessThan, grow;
      vector := new Slot<T>[length](_ => Raw);
      numInit, numEntries := 0, 0;
    }

    /** The entries are made and everything behind them is raw. */
    ghost predicate Shaped()
      reads this, vector
    {
      && numInit == numEntries <= vector.Length
      && (forall i :: 0 <= i < numEntries ==> vector[i].Made?)
      && (forall i :: numEntries <= i < vector.Length ==> vector[i].Raw?)
    }

    ghost function Contents(): (s: seq<T>)
      requires Shaped()
      reads this, vector
      ensures |s| == numEntries
    {
      Values(vector[..numEntries])
    }

    /** A sorted vector is sorted. */
    ghost predicate Valid()
      reads this, vector
    {
      Shaped() && (sorted ==> Ordering(equivalent, lessThan) && IsSorted(lessThan, Contents()))
    }

    // ----- resizing, inserting, removing -----

    /** resize: entries that no longer fit are dropped. */
    method Resize(newLength: nat)
      requires Shaped()
      modifies this
      ensures Shaped() && fresh(vector) && vector.Length == newLength
      ensures Contents() == if newLength < old(numEntries) then old(Contents())[..newLength] else old(Contents())
    {
      var maxIndex := if numInit < newLength then numInit else newLength;
      var newVector := new Slot<T>[newLength](_ => Raw);
      var i := 0;
      while i < maxIndex
        modifies newVector
        invariant 0 <= i <= maxIndex
        invariant forall j :: 0 <= j < i ==> newVector[j] == vector[j]
        invariant forall j :: i <= j < newLength ==> newVector[j].Raw?
      {
        newVector[i] := vector[i];
        i := i + 1;
      }
      numInit := maxIndex;
      vector := newVector;
      if numEntries > newLength {
        numEntries := newLength;
      }
    }

    /** Moves the entries from k on one slot up, the last one into raw memory. */
    method ShiftUp(k: nat)
      requires Shaped() && k < numEntries < vector.Length
      modifies vector
      ensures vector[..] == MovedUp(old(vector[..]), k, numEntries)
    {
      hide MovedUp;
      ghost var s := vector[..];
      vector[numEntries] := vector[numEntries - 1];
      var i := numEntries - 2;
      MoveUpStep(s, 0, numEntries);
      while i >= k
        invariant k - 1 <= i <= numEntries - 2
        invariant vector[..] == MovedUp(s, i + 1, numEntries)
      {
        MoveUpStep(s, i, numEntries);
        assert vector[i] == vector[..][i];
        vector[i + 1] := vector[i];
        i := i - 1;
      }
    }

    /** Puts a new entry into slot k of a vector with room. */
    method PutAt(k: nat, x: T)
      requires Shaped() && k <= numEntries < vector.Length
      modifies this`numEntries, this`numInit, vector
      ensures Shaped() && Contents() == old(Contents())[..k] + [x] + old(Contents())[k..]
    {
      hide MovedUp, Values;
      ghost var s := vector[..];
      if k < numEntries {
        ShiftUp(k);
      }
      vector[k] := Made(x);
      numEntries := numEntries + 1;
      numInit := numInit + 1;
      Inserted(s, vector[..], numEntries - 1, k, x);
      assert forall i :: 0 <= i < vector.Length ==> vector[..][i] == vector[i];
    }

    /** base_insert_at. An index out of range is taken to the nearest end; a full vector grows, unless it
        must not, in which case nothing happens. */
    method InsertAt(index: int, x: T) returns (ok: bool)
      requires Shaped()
      modifies this, vector
      ensures Shaped() && (vector == old(vector) || fresh(vector))
      ensures ok <==> !(old(numEntries) == old(vector.Length) && resizeGrow == 0)
      ensures vector.Length ==
        if ok && old(numEntries) == old(vector.Length) then old(vector.Length) + resizeGrow else old(vector.Length)
      ensures var n := old(numEntries);
        var k: nat := if index < 0 then 0 else if index > n then n else index;
        Contents() == if ok then old(Contents())[..k] + [x] + old(Contents())[k..] else old(Contents())
    {
      var k: nat := Clamp(index, numEntries);
      if numEntries == vector.Length {
        if resizeGrow == 0 {
          return false;
        }
        Resize(vector.Length + resizeGrow);
      }
      PutAt(k, x);
      ok := true;
    }

    /** Moves the slots from `start` on down by count places, until `end` is reached. */
    method MoveDown(start: nat, end: nat, count: nat)
      requires start <= end && end + count <= vector.Length
      modifies vector
      ensures vector[..] == MovedDown(old(vector[..]), start, end, count)
    {
      hide MovedDown;
      ghost var s := vector[..];
      var i := start;
      MoveStep(s, start, i, count);
      while i < end
        modifies vector
        invariant start <= i <= end
        invariant vector[..] == MovedDown(s, start, i, count)
      {
        MoveStep(s, start, i, count);
        assert vector[i + count] == vector[..][i + count];
        vector[i] := vector[i + count];
        i := i + 1;
      }
    }

    /** base_remove_at. */
    method RemoveAt(index: nat)
      requires Shaped() && index < numEntries
      modifies this`numEntries, this`numInit, vector
      ensures Shaped() && Contents() == old(Contents())[..index] + old(Contents())[index + 1..]
    {
      hide MovedDown, Values;
      ghost var s := vector[..];
      MoveDown(index, numEntries - 1, 1);
      vector[numEntries - 1] := Raw;
      numEntries := numEntries - 1;
      numInit := numInit - 1;
      Removed(s, vector[..], numEntries + 1, index);
      assert forall i :: 0 <= i < vector.Length ==> vector[..][i] == vector[i];
    }

    // ----- searching -----

    /** WCOrderedVectorBase::base_find: the first match from `start` on. */
    method OrderedFind(x: T, start: nat, ghost s: seq<T>) returns (found: bool, index: nat)
      requires numEntries <= vector.Length && |s| == numEntries && start <= numEntries
      requires forall j :: start <= j < numEntries ==> vector[j] == Made(s[j])
      ensures found <==> exists j :: start <= j < |s| && equivalent(s[j], x)
      ensures found ==> start <= index < |s| && equivalent(s[index], x)
      ensures found ==> forall j :: start <= j < index ==> !equivalent(s[j], x)
      ensures !found ==> index == start
    {
      var i := start;
      while i < numEntries
        invariant start <= i <= numEntries
        invariant forall j :: start <= j < i ==> !equivalent(s[j], x)
      {
        if equivalent(vector[i].value, x) {
          return true, i;
        }
        i := i + 1;
      }
      return false, start;
    }

    /** The binary search of a sorted vector: the first entry that is not less than x, or the last entry. */
    method Bisect(x: T, ghost s: seq<T>) returns (low: nat)
      requires sorted && Valid() && numEntries > 0 && s == Contents()
      ensures low < |s|
      ensures forall j :: 0 <= j < low ==> lessThan(s[j], x)
      ensures low < |s| - 1 ==> !lessThan(s[low], x)
    {
      low := 0;
      var up: nat := numEntries - 1;
      while low < up
        invariant low <= up < numEntries
        invariant forall j :: 0 <= j < low ==> lessThan(s[j], x)
        invariant up < |s| - 1 ==> !lessThan(s[up], x)
      {
        var bisector := (up - low) / 2 + low;
        if lessThan(vector[bisector].value, x) {
          BelowIsLess(s, bisector, x);
          low := bisector + 1;
        } else {
          up := bisector;
        }
      }
    }

    lemma BelowIsLess(s: seq<T>, k: nat, x: T)
      requires Ordering(equivalent, lessThan) && IsSorted(lessThan, s) && k < |s| && lessThan(s[k], x)
      ensures forall j :: 0 <= j <= k ==> lessThan(s[j], x)
    {
      forall j | 0 <= j < k
        ensures lessThan(s[j], x)
      {
        assert !lessThan(s[k], s[j]);
        WeakTrans(s[j], s[k], x);
      }
    }

    /** a is not after b, which is before c. */
    lemma WeakTrans(a: T, b: T, c: T)
      requires Ordering(equivalent, lessThan) && !lessThan(b, a) && lessThan(b, c)
      ensures lessThan(a, c)
    {
      assert lessThan(b, c) && lessThan(c, a) ==> lessThan(b, a);
      assert equivalent(b, a) && equivalent(a, c) ==> equivalent(b, c);
      assert lessThan(a, b) || equivalent(b, a);
    }

    lemma AboveIsNotLess(s: seq<T>, k: nat, x: T)
      requires Ordering(equivalent, lessThan) && IsSorted(lessThan, s) && k < |s| && !lessThan(s[k], x)
      ensures forall j :: k <= j < |s| ==> !lessThan(s[j], x)
    {
      forall j | k < j < |s|
        ensures !lessThan(s[j], x)
      {
        assert !lessThan(s[j], s[k]);
        if lessThan(s[j], x) {
          WeakTrans(s[k], s[j], x);
        }
      }
    }

    /** The matches of a sorted vector: none, or an unbroken run from `first` on. */
    lemma MatchesFrom(s: seq<T>, first: nat, x: T)
      requires Ordering(equivalent, lessThan) && IsSorted(lessThan, s) && first < |s|
      requires forall j :: 0 <= j < first ==> lessThan(s[j], x)
      requires first < |s| - 1 ==> !lessThan(s[first], x)
      ensures forall j :: 0 <= j < first ==> !equivalent(s[j], x)
      ensures !equivalent(s[first], x) ==> forall j :: first <= j < |s| ==> !equivalent(s[j], x)
    {
      if !equivalent(s[first], x) {
        if !lessThan(s[first], x) {
          assert lessThan(x, s[first]);
          forall j | first < j < |s|
            ensures !equivalent(s[j], x)
          {
            assert !lessThan(s[j], s[first]);
            WeakAbove(x, s[first], s[j]);
          }
        }
      }
    }

    lemma WeakAbove(a: T, b: T, c: T)
      requires Ordering(equivalent, lessThan) && lessThan(a, b) && !lessThan(c, b)
      ensures lessThan(a, c)
    {
      assert lessThan(c, a) && lessThan(a, b) ==> lessThan(c, b);
      assert equivalent(c, a) && lessThan(a, b) ==> lessThan(c, b) by {
        assert lessThan(b, c) && lessThan(a, b) ==> lessThan(a, c);
        assert equivalent(a, c) && equivalent(c, b) ==> equivalent(a, b);
      }
    }

    /** The first search of a sorted vector (find_any, find_first): the least matching index. */
    method SortedFind(x: T, ghost s: seq<T>) returns (found: bool, index: nat)
      requires sorted && Valid() && numEntries > 0 && s == Contents()
      ensures found <==> exists j :: 0 <= j < |s| && equivalent(s[j], x)
      ensures found ==> index < |s| && equivalent(s[index], x)
      ensures found ==> forall j :: 0 <= j < index ==> !equivalent(s[j], x)
      ensures !found ==> index == 0
    {
      var bisector := Bisect(x, s);
      MatchesFrom(s, bisector, x);
      if equivalent(x, vector[bisector].value) {
        return true, bisector;
      }
      return false, 0;
    }

    /** The search for the place of a new entry (find_for_insert): behind everything that is not after it. */
    method SortedFindForInsert(x: T, ghost s: seq<T>) returns (index: nat)
      requires sorted && Valid() && numEntries > 0 && s == Contents()
      ensures index <= |s|
      ensures forall j :: 0 <= j < index ==> !lessThan(x, s[j])
      ensures forall j :: index <= j < |s| ==> lessThan(x, s[j])
    {
      var low := Bisect(x, s);
      index := low;
      if equivalent(x, vector[low].value) {
        while index < numEntries && equivalent(vector[index].value, x)
          invariant low <= index <= numEntries
          invariant forall j :: low <= j < index ==> equivalent(s[j], x)
        {
          index := index + 1;
        }
        if index < numEntries {
          AboveIsAfter(s, low, index, x);
        }
      } else if lessThan(vector[low].value, x) {
        index := index + 1;
      } else {
        AboveIsAfter(s, low, low, x);
      }
    }

    /** Where the entries stop matching they are all after x. */
    lemma AboveIsAfter(s: seq<T>, low: nat, k: nat, x: T)
      requires Ordering(equivalent, lessThan) && IsSorted(lessThan, s) && low <= k < |s|
      requires !lessThan(s[low], x) && !equivalent(s[k], x)
      ensures forall j :: k <= j < |s| ==> lessThan(x, s[j])
    {
      AboveIsNotLess(s, low, x);
      assert lessThan(x, s[k]);
      forall j | k < j < |s|
        ensures lessThan(x, s[j])
      {
        assert !lessThan(s[j], s[k]);
        WeakAbove(x, s[k], s[j]);
      }
    }

    /** WCSortedVectorBase::insert: the new entry goes behind everything equivalent to it, and the vector
        stays sorted. */
    method SortedInsert(x: T) returns (ok: bool, ghost k: nat)
      requires sorted && Valid()
      modifies this, vector
      ensures Valid() && (vector == old(vector) || fresh(vector))
      ensures ok <==> !(old(numEntries) == old(vector.Length) && resizeGrow == 0)
      ensures vector.Length ==
        if ok && old(numEntries) == old(vector.Length) then old(vector.Length) + resizeGrow else old(vector.Length)
      ensures k <= old(numEntries)
      ensures forall j :: 0 <= j < k ==> !lessThan(x, old(Contents())[j])
      ensures forall j :: k <= j < old(numEntries) ==> lessThan(x, old(Contents())[j])
      ensures Contents() == if ok then old(Contents())[..k] + [x] + old(Contents())[k..] else old(Contents())
    {
      ghost var s := Contents();
      var index := 0;
      if numEntries > 0 {
        index := SortedFindForInsert(x, s);
      }
      k := index;
      ok := InsertAt(index, x);
      if ok {
        InsertKeepsSorted(s, k, x);
      }
    }

    lemma InsertKeepsSorted(s: seq<T>, k: nat, x: T)
      requires Ordering(equivalent, lessThan) && IsSorted(lessThan, s) && k <= |s|
      requires forall j :: 0 <= j < k ==> !lessThan(x, s[j])
      requires forall j :: k <= j < |s| ==> lessThan(x, s[j])
      ensures IsSorted(lessThan, s[..k] + [x] + s[k..])
    {
      var t := s[..k] + [x] + s[k..];
      forall i, j | 0 <= i < j < |t|
        ensures !lessThan(t[j], t[i])
      {
        if i == k {
          assert lessThan(x, t[j]);
        }
      }
    }

    /** base_find as the vector's kind decides. The scan for further matches starts right behind one. */
    method Find(x: T, kind: FindType, start: nat, ghost s: seq<T>) returns (found: bool, index: nat)
      requires numEntries <= vector.Length && |s| == numEntries && start <= numEntries
      requires kind == FindFirst || kind == NextMultFind
      requires forall j :: start <= j < numEntries ==> vector[j] == Made(s[j])
      requires kind == FindFirst ==> start == 0 && Valid() && s == Contents() && s != []
      requires kind == NextMultFind && sorted ==>
        Ordering(equivalent, lessThan) && IsSorted(lessThan, s) && start > 0 && equivalent(s[start - 1], x)
      ensures found <==> exists j :: start <= j < |s| && equivalent(s[j], x)
      ensures found ==> start <= index < |s| && equivalent(s[index], x)
      ensures found ==> forall j :: start <= j < index ==> !equivalent(s[j], x)
      ensures !found ==> index == start
    {
      if !sorted {
        found, index := OrderedFind(x, start, s);
      } else if kind == NextMultFind {
        index := start;
        if start < numEntries && equivalent(vector[start].value, x) {
          return true, start;
        }
        found := false;
        if start < numEntries {
          RunEnds(s, start, x);
        }
      } else {
        found, index := SortedFind(x, s);
      }
    }

    /** Behind the last of a run of matches there is none. */
    lemma RunEnds(s: seq<T>, k: nat, x: T)
      requires Ordering(equivalent, lessThan) && IsSorted(lessThan, s) && 0 < k < |s|
      requires equivalent(s[k - 1], x) && !equivalent(s[k], x)
      ensures forall j :: k <= j < |s| ==> !equivalent(s[j], x)
    {
      AboveIsAfter(s, k - 1, k, x);
    }

    /** A search, and what lies between its start and its result. */
    method Scan(x: T, kind: FindType, start: nat, ghost s: seq<T>) returns (found: bool, index: nat)
      requires numEntries <= vector.Length && |s| == numEntries && start <= numEntries
      requires kind == FindFirst || kind == NextMultFind
      requires forall j :: start <= j < numEntries ==> vector[j] == Made(s[j])
      requires kind == FindFirst ==> start == 0 && Valid() && s == Contents() && s != []
      requires kind == NextMultFind && sorted ==>
        Ordering(equivalent, lessThan) && IsSorted(lessThan, s) && start > 0 && equivalent(s[start - 1], x)
      ensures found ==> start <= index < |s| && equivalent(s[index], x)
      ensures !found ==> index == start
      ensures var end := if found then index else |s|;
        && Keep(equivalent, s[..end], x) == Keep(equivalent, s[..start], x) + s[start..end]
        && Occurrences(equivalent, s[..end], x) == Occurrences(equivalent, s[..start], x)
    {
      found, index := Find(x, kind, start, s);
      KeepStretch(equivalent, s, x, start, if found then index else |s|);
    }

    /** occurrencesOf. */
    method OccurrencesOf(x: T) returns (count: nat)
      requires Valid()
      ensures count == Occurrences(equivalent, Contents(), x)
    {
      hide Keep, Occurrences, Ordering;
      ghost var s := Contents();
      NoneBefore(s, x);
      count := 0;
      var found, index := false, 0;
      if numEntries > 0 {
        found, index := Scan(x, FindFirst, 0, s);
      }
      while found
        invariant index <= |s|
        invariant found ==> index < |s| && equivalent(s[index], x)
        invariant count == Occurrences(equivalent, s[..if found then index else |s|], x)
        decreases |s| - index, found
      {
        KeepStep(equivalent, s, x, index);
        count := count + 1;
        index := index + 1;
        found, index := Scan(x, NextMultFind, index, s);
      }
      assert s[..|s|] == s;
    }

    lemma NoneBefore(s: seq<T>, x: T)
      ensures Occurrences(equivalent, s[..0], x) == 0 && Keep(equivalent, s[..0], x) == []
      ensures s == [] ==> s[..|s|] == s[..0]
    {}

    // ----- removeAll -----

    /** Midway through removeAll: the first curr slots hold what is kept of s[..next], the slots from
        next on are untouched, and what lies between has been moved or removed. */
    ghost predicate Compacted(s: seq<T>, x: T, curr: nat, count: nat, next: nat)
      reads this, vector
    {
      && numInit == numEntries == |s| <= vector.Length && curr + count == next <= |s|
      && |Keep(equivalent, s[..next], x)| == curr && Occurrences(equivalent, s[..next], x) == count
      && (forall j :: 0 <= j < curr ==> vector[j] == Made(Keep(equivalent, s[..next], x)[j]))
      && (forall j :: next <= j < |s| ==> vector[j] == Made(s[j]))
      && (forall j :: |s| <= j < vector.Length ==> vector[j].Raw?)
    }

    /** Moves the entries between two matches (or behind the last) next to the others. */
    method Compact(curr: nat, count: nat, next: nat, end: nat, ghost s: seq<T>, ghost x: T) returns (curr': nat)
      requires Compacted(s, x, curr, count, next) && next <= end <= |s|
      requires Keep(equivalent, s[..end], x) == Keep(equivalent, s[..next], x) + s[next..end]
      requires Occurrences(equivalent, s[..end], x) == Occurrences(equivalent, s[..next], x)
      modifies vector
      ensures Compacted(s, x, curr', count, end)
    {
      hide Keep, Occurrences, MovedDown;
      ghost var slots := vector[..];
      MoveDown(curr, end - count, count);
      curr' := end - count;
      MovedIsKept(slots, vector[..], Keep(equivalent, s[..next], x), s, curr, count, end);
      assert forall j :: 0 <= j < vector.Length ==> vector[j] == vector[..][j];
    }

    /** The match at next is passed over. */
    lemma PassMatch(s: seq<T>, x: T, curr: nat, count: nat, next: nat)
      requires Compacted(s, x, curr, count, next) && next < |s| && equivalent(s[next], x)
      ensures Compacted(s, x, curr, count + 1, next + 1)
    {
      KeepStep(equivalent, s, x, next);
    }

    /** What is left behind the kept entries is destroyed. */
    method Drop(curr: nat, count: nat, ghost s: seq<T>, ghost x: T)
      requires Compacted(s, x, curr, count, |s|) && count <= numEntries
      modifies this`numEntries, this`numInit, vector
      ensures Shaped() && Contents() == Keep(equivalent, s, x)
    {
      var i := curr;
      while i < numEntries
        modifies vector
        invariant curr <= i <= numEntries
        invariant forall j :: 0 <= j < curr ==> vector[j] == old(vector[j])
        invariant forall j :: curr <= j < i ==> vector[j].Raw?
        invariant forall j :: numEntries <= j < vector.Length ==> vector[j].Raw?
      {
        vector[i] := Raw;
        i := i + 1;
      }
      assert s[..|s|] == s;
      numEntries := numEntries - count;
      numInit := numInit - count;
    }

    /** The search for the first match; an empty vector is not searched. */
    method ScanFirst(x: T, ghost s: seq<T>) returns (found: bool, next: nat)
      requires Valid() && s == Contents()
      ensures found ==> next < |s| && equivalent(s[next], x)
      ensures found ==> Keep(equivalent, s[..next], x) == s[..next] && Occurrences(equivalent, s[..next], x) == 0
      ensures !found ==> Keep(equivalent, s, x) == s && Occurrences(equivalent, s, x) == 0
    {
      found, next := false, 0;
      NoneBefore(s, x);
      if numEntries > 0 {
        found, next := Scan(x, FindFirst, 0, s);
        assert s[..|s|] == s && s[0..|s|] == s && s[0..next] == s[..next];
      }
    }

    /** The first match is found: nothing has been moved yet. */
    lemma FirstMatch(s: seq<T>, x: T, next: nat)
      requires Shaped() && s == Contents() && next < |s| && equivalent(s[next], x)
      requires Keep(equivalent, s[..next], x) == s[..next] && Occurrences(equivalent, s[..next], x) == 0
      ensures Compacted(s, x, next, 1, next + 1)
    {
      PassMatch(s, x, next, 0, next);
    }

    /** removeAll: one pass that leaves exactly the entries that are not equivalent to x, in order, and
        returns how many there were. */
    method RemoveAll(x: T) returns (count: nat)
      requires Valid()
      modifies this`numEntries, this`numInit, vector
      ensures Valid()
      ensures Contents() == Keep(equivalent, old(Contents()), x)
      ensures count == Occurrences(equivalent, old(Contents()), x)
    {
      hide Keep, Occurrences, Ordering, IsSorted, Compacted;
      ghost var s := Contents();
      count := 0;
      var found: bool, next: nat := ScanFirst(x, s);
      if !found {
        return;
      }
      FirstMatch(s, x, next);
      var curr: nat := next;
      count, next := 1, next + 1;
      var f: nat;
      ScanReads(s, x, curr, count, next);
      found, f := Scan(x, NextMultFind, next, s);
      while found
        modifies vector
        invariant 0 < next <= |s| == numEntries && equivalent(s[next - 1], x) && Compacted(s, x, curr, count, next)
        invariant found ==> next <= f < |s| && equivalent(s[f], x)
        invariant var end := if found then f else |s|;
          && Keep(equivalent, s[..end], x) == Keep(equivalent, s[..next], x) + s[next..end]
          && Occurrences(equivalent, s[..end], x) == Occurrences(equivalent, s[..next], x)
        decreases |s| - next, found
      {
        curr := Compact(curr, count, next, f, s, x);
        PassMatch(s, x, curr, count, f);
        count, next := count + 1, f + 1;
        ScanReads(s, x, curr, count, next);
        found, f := Scan(x, NextMultFind, next, s);
      }
      curr := Compact(curr, count, next, numEntries, s, x);
      CountOf(s, x, curr, count);
      Drop(curr, count, s, x);
      if sorted {
        KeepStaysSorted(equivalent, lessThan, s, x);
      }
    }

    lemma ScanReads(s: seq<T>, x: T, curr: nat, count: nat, next: nat)
      requires Compacted(s, x, curr, count, next)
      ensures numEntries == |s| <= vector.Length && next <= |s|
      ensures forall j :: next <= j < |s| ==> vector[j] == Made(s[j])
    {}

    lemma CountOf(s: seq<T>, x: T, curr: nat, count: nat)
      requires Compacted(s, x, curr, count, |s|)
      ensures Occurrences(equivalent, s, x) == count <= numEntries
    {
      assert s[..|s|] == s;
    }
  }

  lemma {:induction false} KeepStaysSorted<T(!new)>(eq: (T, T) -> bool, lt: (T, T) -> bool, s: seq<T>, x: T)
    requires IsSorted(lt, s)
    ensures IsSorted(lt, Keep(eq, s, x))
  {
    if s != [] {
      var t := s[..|s| - 1];
      KeepStaysSorted(eq, lt, t, x);
      KeepIsFilter(eq, t, x);
      var r := Keep(eq, t, x);
      forall i | 0 <= i < |r|
        ensures !lt(s[|s| - 1], r[i])
      {
        assert r[i] in r;
        var k :| 0 <= k < |t| && t[k] == r[i];
        assert s[k] == r[i];
      }
    }
  }
}
