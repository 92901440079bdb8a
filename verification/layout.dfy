/**
 Where the blocks of a file sit.

 A file's tree has four direct leaves, one indirect block, one bi-indirect and one tri-indirect
 block. Numbering every level from left to right makes the tree flat: leaf k holds bytes
 [k*block_size, (k+1)*block_size) of the file, indirect block m holds leaves 4+m*p .. 4+m*p+p-1,
 bi-indirect block b holds indirect blocks 1+b*p .. 1+b*p+p-1 and the tri-indirect block holds
 bi-indirect blocks 1 .. p, where p = block_size/8 is the number of ids in a block.

 A `Layout` maps each occupied position to the id of the device block that holds it.
 */
module Layouts {
  import opened Arith
  import opened Bitmap

  /** Ids per index block. */
  type Fanout = p: nat | p > 0 witness 1

  type Size = x: nat | x > 0 witness 1

  /** Ids per index block, and bytes per block; on a mounted device bs == 8*p. */
  datatype Geo = Geo(p: Fanout, bs: Size)

  datatype Pos = Leaf(k: nat) | Ind(m: nat) | Bind(b: nat) | Tind

  type Layout = map<Pos, nat>

  function Id(lay: Layout, s: Pos): nat {
    if s in lay then lay[s] else 0
  }

  // ----- positions -----

  function LeafPos(p: Fanout, m: nat, i: nat): (k: nat)
    ensures k >= 4
  {
    4 + m * p + i
  }

  function IndPos(p: Fanout, b: nat, i: nat): (m: nat)
    ensures m >= 1
  {
    1 + b * p + i
  }

  function IndOf(p: Fanout, k: nat): nat
    requires k >= 4
  {
    (k - 4) / p
  }

  function BindOf(p: Fanout, m: nat): nat
    requires m >= 1
  {
    (m - 1) / p
  }

  /** The position in slot i of index block s. */
  function Child(p: Fanout, s: Pos, i: nat): Pos
    requires !s.Leaf?
  {
    match s
    case Ind(m) => Leaf(LeafPos(p, m, i))
    case Bind(b) => Ind(IndPos(p, b, i))
    case Tind => Bind(1 + i)
  }

  /** The seven positions the inode record points at. */
  function Root(j: nat): Pos
    requires j < 7
  {
    if j < 4 then Leaf(j) else if j == 4 then Ind(0) else if j == 5 then Bind(0) else Tind
  }

  predicate IsRoot(s: Pos) {
    (s.Leaf? && s.k < 4) || s == Ind(0) || s == Bind(0) || s == Tind
  }

  function RootIndex(s: Pos): (j: nat)
    requires IsRoot(s)
    ensures j < 7 && Root(j) == s
  {
    match s
    case Leaf(k) => k
    case Ind(_) => 4
    case Bind(_) => 5
    case Tind => 6
  }

  lemma RootIndexOfRoot(j: nat)
    requires j < 7
    ensures IsRoot(Root(j)) && RootIndex(Root(j)) == j
  {}

  function Parent(p: Fanout, s: Pos): Pos
    requires !IsRoot(s)
  {
    match s
    case Leaf(k) => Ind(IndOf(p, k))
    case Ind(m) => Bind(BindOf(p, m))
    case Bind(b) => Tind
  }

  function SlotOf(p: Fanout, s: Pos): nat
    requires !IsRoot(s)
  {
    match s
    case Leaf(k) => (k - 4) % p
    case Ind(m) => (m - 1) % p
    case Bind(b) => b - 1
  }

  /** The first leaf below a position. */
  function FirstLeaf(p: Fanout, s: Pos): nat {
    match s
    case Leaf(k) => k
    case Ind(m) => LeafPos(p, m, 0)
    case Bind(b) => LeafPos(p, IndPos(p, b, 0), 0)
    case Tind => LeafPos(p, IndPos(p, 1, 0), 0)
  }

  /** Number of leaves a tree can hold. */
  function Capacity(p: Fanout): nat {
    4 + p + p * p + p * p * p
  }

  lemma LeafPosInverse(p: Fanout, m: nat, i: nat)
    requires i < p
    ensures IndOf(p, LeafPos(p, m, i)) == m
    ensures (LeafPos(p, m, i) - 4) % p == i
  {
    DivModUnique(p, m, i);
  }

  lemma IndPosInverse(p: Fanout, b: nat, i: nat)
    requires i < p
    ensures BindOf(p, IndPos(p, b, i)) == b
    ensures (IndPos(p, b, i) - 1) % p == i
  {
    DivModUnique(p, b, i);
  }

  /** Children of one index block, and of different ones, sit at different positions. */
  lemma ChildInverse(p: Fanout, s: Pos, i: nat)
    requires !s.Leaf? && i < p
    ensures !IsRoot(Child(p, s, i))
    ensures Parent(p, Child(p, s, i)) == s && SlotOf(p, Child(p, s, i)) == i
  {
    match s
    case Ind(m) => LeafPosInverse(p, m, i);
    case Bind(b) => IndPosInverse(p, b, i);
    case Tind =>
  }

  lemma ParentInverse(p: Fanout, s: Pos)
    requires !IsRoot(s) && (s.Bind? ==> s.b <= p)
    ensures !Parent(p, s).Leaf? && SlotOf(p, s) < p
    ensures Child(p, Parent(p, s), SlotOf(p, s)) == s
  {}

  /** Leaves of neighbouring index blocks follow each other. */
  lemma NextInd(p: Fanout, bs: Size, m: nat)
    ensures LeafPos(p, m + 1, 0) == LeafPos(p, m, 0) + p == LeafPos(p, m, p)
    ensures Mul(LeafPos(p, m + 1, 0), bs) == Mul(LeafPos(p, m, 0), bs) + Mul(p, bs)
  {
    assert (m + 1) * p == m * p + p;
    MulPlus(LeafPos(p, m, 0), p, bs);
  }

  /** Indirect block number m+1 follows m under the same bi-indirect block, or starts the next one. */
  lemma NextIndOf(p: Fanout, b: nat, j: nat)
    requires j < p
    ensures IndPos(p, b, j + 1) == IndPos(p, b, j) + 1
    ensures LeafPos(p, IndPos(p, b, j), p) == LeafPos(p, IndPos(p, b, j + 1), 0)
    ensures LeafPos(p, IndPos(p, b, j), p) <= FirstLeaf(p, Bind(b + 1))
    ensures j + 1 == p ==> LeafPos(p, IndPos(p, b, j), p) == FirstLeaf(p, Bind(b + 1))
  {
    var m := IndPos(p, b, j);
    assert (m + 1) * p == m * p + p;
    assert (b + 1) * p == b * p + p;
    MulMono(m + 1, IndPos(p, b + 1, 0), p);
  }

  lemma UnderFirstInd(p: Fanout, n: nat)
    requires n >= 4
    ensures n < LeafPos(p, 0, p) <==> IndOf(p, n) == 0
  {
    var m, i := DivModSplit(n - 4, p);
    if m >= 1 { MulMono(1, m, p); }
  }

  /** Leaf n hangs under indirect block m. */
  predicate LeafUnder(p: Fanout, m: nat, n: nat) {
    4 + Mul(m, p) <= n < 4 + Mul(m, p) + p
  }

  /** Indirect block m hangs under bi-indirect block b. */
  predicate IndUnder(p: Fanout, b: nat, m: nat) {
    1 + Mul(b, p) <= m < 1 + Mul(b, p) + p
  }

  lemma IndUnderSlot(p: Fanout, b: nat, j: nat)
    requires j < p
    ensures IndUnder(p, b, IndPos(p, b, j))
  {
    MulIs(b, p);
  }

  lemma LeafUnderSlot(p: Fanout, m: nat, n: nat)
    ensures LeafUnder(p, m, n) <==> LeafPos(p, m, 0) <= n < LeafPos(p, m, p)
  {
    MulIs(m, p);
  }

  lemma UnderBindIs(p: Fanout, b: nat, m: nat)
    requires IndUnder(p, b, m)
    ensures m >= 1 && BindOf(p, m) == b
  {
    MulIs(b, p);
    DivModIs(m - 1, p, b, m - IndPos(p, b, 0));
  }

  lemma UnderInd(p: Fanout, m: nat, n: nat)
    requires LeafUnder(p, m, n)
    ensures n >= 4 && IndOf(p, n) == m && n == LeafPos(p, m, n - LeafPos(p, m, 0))
  {
    LeafUnderSlot(p, m, n);
    DivModIs(n - 4, p, m, n - LeafPos(p, m, 0));
  }

  // ----- dense trees -----

  /** Exactly the first n leaves and the index blocks above them are present. */
  ghost predicate Dense(p: Fanout, lay: Layout, n: nat) {
    && n <= Capacity(p)
    && (forall s :: s in lay <==> FirstLeaf(p, s) < n)
  }

  /** Every present position has its parent. */
  ghost predicate Closed(p: Fanout, lay: Layout) {
    forall s {:trigger Parent(p, s)} :: s in lay && !IsRoot(s) ==> Parent(p, s) in lay && (s.Bind? ==> s.b <= p)
  }

  lemma FirstLeafOfBind(p: Fanout, b: nat)
    ensures FirstLeaf(p, Bind(b)) == 4 + p + b * (p * p)
  {
    assert (1 + b * p) * p == p + b * (p * p);
  }

  /** The first leaf under bi-indirect block b, counted block by block. */
  function BindStart(p: Fanout, b: nat): nat {
    if b == 0 then 4 + p else BindStart(p, b - 1) + Mul(p, p)
  }

  lemma {:induction false} BindStartIs(p: Fanout, b: nat)
    ensures BindStart(p, b) == FirstLeaf(p, Bind(b)) == 4 + p + b * (p * p)
  {
    FirstLeafOfBind(p, b);
    MulIs(p, p);
    if b > 0 {
      BindStartIs(p, b - 1);
      assert b * (p * p) == (b - 1) * (p * p) + p * p;
    }
  }

  lemma BindStartIsFirst(p: Fanout, b: nat)
    ensures BindStart(p, b) == FirstLeaf(p, Bind(b))
  {
    BindStartIs(p, b);
  }

  /** Leaves of neighbouring bi-indirect blocks follow each other. */
  lemma NextBind(p: Fanout, bs: Size, ind: nat, bind: nat, b: nat)
    requires ind == Mul(p, bs) && bind == Mul(p, ind)
    ensures Mul(BindStart(p, b + 1), bs) == Mul(BindStart(p, b), bs) + bind
    ensures BindStart(p, b) < BindStart(p, b + 1)
  {
    MulPlus(BindStart(p, b), Mul(p, p), bs);
    MulAssoc(p, p, bs);
    MulIs(p, p);
    MulMono(1, p, p);
  }

  lemma {:induction false} BindStartMono(p: Fanout, a: nat, b: nat)
    requires a <= b
    ensures BindStart(p, a) <= BindStart(p, b)
  {
    if a < b {
      BindStartMono(p, a, b - 1);
    }
  }

  lemma CapacityIsPastLastBind(p: Fanout)
    ensures Capacity(p) == BindStart(p, p + 1)
  {
    BindStartIs(p, p + 1);
  }

  lemma FirstLeafOfParent(p: Fanout, s: Pos)
    requires !IsRoot(s)
    ensures FirstLeaf(p, Parent(p, s)) <= FirstLeaf(p, s)
  {
    match s
    case Leaf(k) =>
    case Ind(m) =>
      assert IndPos(p, BindOf(p, m), 0) <= m;
      MulMono(IndPos(p, BindOf(p, m), 0), m, p);
    case Bind(b) =>
      FirstLeafOfBind(p, b);
      FirstLeafOfBind(p, 1);
      MulMono(1, b, p * p);
  }

  lemma BindBelowCapacity(p: Fanout, b: nat)
    requires FirstLeaf(p, Bind(b)) < Capacity(p)
    ensures b <= p
  {
    FirstLeafOfBind(p, b);
    if b > p {
      MulMono(p + 1, b, p * p);
    }
  }

  lemma DenseIsClosed(p: Fanout, lay: Layout, n: nat)
    requires Dense(p, lay, n)
    ensures Closed(p, lay)
  {
    forall s | s in lay && !IsRoot(s)
      ensures Parent(p, s) in lay && (s.Bind? ==> s.b <= p)
    {
      FirstLeafOfParent(p, s);
      if s.Bind? {
        BindBelowCapacity(p, s.b);
      }
    }
  }

  /** In a closed tree no leaf lies past the tri-indirect block. */
  lemma ClosedBelowCapacity(p: Fanout, lay: Layout, k: nat)
    requires Closed(p, lay) && Leaf(k) in lay
    ensures k < Capacity(p)
  {
    if k >= 4 {
      var m, i := DivModSplit(k - 4, p);
      assert Parent(p, Leaf(k)) == Ind(m) && Ind(m) in lay;
      if m >= 1 {
        var b, j := DivModSplit(m - 1, p);
        assert Parent(p, Ind(m)) == Bind(b) && Bind(b) in lay;
        assert b >= 1 ==> Parent(p, Bind(b)) == Tind;
        LeafUnderBind(p, k, b, j, i);
      } else {
        assert k < 4 + p;
        MulMono(0, p, p);
        MulMono(0, p * p, p);
      }
    }
  }

  lemma LeafUnderBind(p: Fanout, k: nat, b: nat, j: nat, i: nat)
    requires b <= p && j < p && i < p && k == 4 + (1 + b * p + j) * p + i
    ensures k < Capacity(p)
  {
    MulMono(j + 1, p, p);
    MulMono(b, p, p * p);
    assert (1 + b * p + j) * p == p + b * (p * p) + j * p;
  }

  lemma ClosedInsert(p: Fanout, lay: Layout, s: Pos, id: nat)
    requires Closed(p, lay)
    requires !IsRoot(s) ==> Parent(p, s) in lay && (s.Bind? ==> s.b <= p)
    ensures Closed(p, lay[s := id])
  {
    forall t | t in lay[s := id] && !IsRoot(t)
      ensures Parent(p, t) in lay[s := id] && (t.Bind? ==> t.b <= p)
    {
      var above := Parent(p, t);
    }
  }

  lemma EmptyIsDense(p: Fanout)
    ensures Dense(p, map[], 0)
  {}

  // ----- growing by one leaf -----

  datatype Growth = Growth(lay: Layout, al: Alloc)

  /** Gives position s a freshly allocated id, unless it has one. */
  function Add(x: Growth, s: Pos): Growth {
    if s in x.lay then x
    else Growth(x.lay[s := Take(x.al).id], Take(x.al).al)
  }

  /** The index blocks above leaf n, top first: the order in which the library allocates them. */
  function Path(p: Fanout, n: nat): seq<Pos> {
    if n < 4 then []
    else if IndOf(p, n) == 0 then [Ind(0)]
    else if BindOf(p, IndOf(p, n)) == 0 then [Bind(0), Ind(IndOf(p, n))]
    else [Tind, Bind(BindOf(p, IndOf(p, n))), Ind(IndOf(p, n))]
  }

  function AddAll(x: Growth, ss: seq<Pos>): Growth
    decreases |ss|
  {
    if ss == [] then x else AddAll(Add(x, ss[0]), ss[1..])
  }

  datatype Extension = Extended(g: Growth) | Refused(g: Growth)

  /** udbfslib_extend_inode on a tree whose first n leaves are present. The data block is taken
      first, and is lost when the tree turns out to be full. */
  function Extend(p: Fanout, lay: Layout, al: Alloc, n: nat): Extension {
    var d := Take(al);
    if d.id == 0 || n >= Capacity(p) then Refused(Growth(lay, d.al))
    else
      var x := AddAll(Growth(lay, d.al), Path(p, n));
      Extended(x.(lay := x.lay[Leaf(n) := d.id]))
  }

  // ----- growth keeps trees dense -----

  lemma {:induction false} AddAllKeys(x: Growth, ss: seq<Pos>)
    ensures forall s :: s in AddAll(x, ss).lay <==> s in x.lay || s in ss
    ensures forall s :: s in x.lay ==> AddAll(x, ss).lay[s] == x.lay[s]
    decreases |ss|
  {
    if ss != [] {
      AddAllKeys(Add(x, ss[0]), ss[1..]);
    }
  }

  /** Only the positions on the path to leaf n have n as their first leaf or were there before. */
  lemma PathToLeaf(p: Fanout, n: nat, s: Pos)
    requires n < Capacity(p)
    ensures s in Path(p, n) ==> FirstLeaf(p, s) <= n
    ensures FirstLeaf(p, s) == n ==> s == Leaf(n) || s in Path(p, n)
  {
    if s in Path(p, n) {
      var m := IndOf(p, n);
      FirstLeafOfParent(p, Leaf(n));
      if m > 0 {
        FirstLeafOfParent(p, Ind(m));
        if BindOf(p, m) > 0 {
          FirstLeafOfParent(p, Bind(BindOf(p, m)));
        }
      }
    }
    if FirstLeaf(p, s) == n {
      match s
      case Leaf(k) =>
      case Ind(m) => LeafPosInverse(p, m, 0);
      case Bind(b) =>
        LeafPosInverse(p, IndPos(p, b, 0), 0);
        IndPosInverse(p, b, 0);
      case Tind =>
        LeafPosInverse(p, IndPos(p, 1, 0), 0);
        IndPosInverse(p, 1, 0);
    }
  }

  /** Growth appends: leaf n is filled with the id taken first, every position that was there keeps
      its id, and the tree is dense with n+1 leaves. */
  lemma ExtendAppends(p: Fanout, lay: Layout, al: Alloc, n: nat)
    requires Dense(p, lay, n)
    ensures Extend(p, lay, al, n).Extended? <==> Take(al).id != 0 && n < Capacity(p)
    ensures Extend(p, lay, al, n).Extended? ==>
      var lay' := Extend(p, lay, al, n).g.lay;
      && Dense(p, lay', n + 1)
      && lay'[Leaf(n)] == Take(al).id
      && (forall s :: s in lay ==> s in lay' && lay'[s] == lay[s])
    ensures Extend(p, lay, al, n).Refused? ==> Extend(p, lay, al, n).g.lay == lay
  {
    if Extend(p, lay, al, n).Extended? {
      AddAllKeys(Growth(lay, Take(al).al), Path(p, n));
      var lay' := Extend(p, lay, al, n).g.lay;
      forall s
        ensures s in lay' <==> FirstLeaf(p, s) < n + 1
      {
        PathToLeaf(p, n, s);
      }
    }
  }

  // ----- soundness of the ids -----

  predicate Clear(al: Alloc, id: nat) {
    id < |al.bits| && !al.bits[id]
  }

  ghost predicate Injective(lay: Layout) {
    forall s, t :: s in lay && t in lay && lay[s] == lay[t] ==> s == t
  }

  /** Ids are nonzero, taken from the bitmap, and never shared. */
  ghost predicate Sound(lay: Layout, al: Alloc) {
    && (forall s :: s in lay ==> lay[s] != 0 && Clear(al, lay[s]))
    && Injective(lay)
  }

  /** Number of positions of ss that still need a block. */
  function Missing(lay: Layout, ss: seq<Pos>): nat {
    if ss == [] then 0
    else (if ss[0] in lay then 0 else 1) + Missing(lay, ss[1..])
  }

  ghost predicate Distinct(ss: seq<Pos>) {
    forall i, j :: 0 <= i < j < |ss| ==> ss[i] != ss[j]
  }

  lemma {:induction false} MissingUnaffected(lay: Layout, s: Pos, id: nat, ss: seq<Pos>)
    requires s !in ss
    ensures Missing(lay[s := id], ss) == Missing(lay, ss)
  {
    if ss != [] {
      MissingUnaffected(lay, s, id, ss[1..]);
    }
  }

  /** Adding index blocks takes one free block for each missing one while they last. */
  lemma {:induction false} AddAllCounts(x: Growth, ss: seq<Pos>, c: nat)
    requires Healthy(x.al, c) && Distinct(ss)
    ensures var y := AddAll(x, ss);
      && Healthy(y.al, c)
      && |y.al.bits| == |x.al.bits|
      && |y.lay| == |x.lay| + Missing(x.lay, ss)
      && (Missing(x.lay, ss) <= x.al.free ==> y.al.free == x.al.free - Missing(x.lay, ss))
      && (Missing(x.lay, ss) > x.al.free ==> y.al.free == 0 && exists s :: s in ss && s in y.lay && y.lay[s] == 0)
      && (forall j :: 0 <= j < |x.al.bits| && !x.al.bits[j] ==> !y.al.bits[j])
    decreases |ss|
  {
    if ss != [] {
      var x1 := Add(x, ss[0]);
      TakeHealthy(x.al, c);
      AddAllCounts(x1, ss[1..], c);
      if ss[0] !in x.lay {
        MissingUnaffected(x.lay, ss[0], Take(x.al).id, ss[1..]);
      }
      assert Missing(x1.lay, ss[1..]) == Missing(x.lay, ss[1..]);
      var y := AddAll(x, ss);
      if Missing(x.lay, ss) > x.al.free {
        if Missing(x1.lay, ss[1..]) > x1.al.free {
          var s :| s in ss[1..] && s in y.lay && y.lay[s] == 0;
          assert s in ss && s in y.lay && y.lay[s] == 0;
        } else {
          assert x1.lay[ss[0]] == 0;
          AddAllKeys(x1, ss[1..]);
          assert ss[0] in ss && ss[0] in y.lay && y.lay[ss[0]] == 0;
        }
      }
    }
  }

  lemma {:induction false} AddAllSound(x: Growth, ss: seq<Pos>, c: nat)
    requires Healthy(x.al, c) && Sound(x.lay, x.al) && Distinct(ss)
    requires Missing(x.lay, ss) <= x.al.free
    ensures Sound(AddAll(x, ss).lay, AddAll(x, ss).al)
    ensures forall s :: s in AddAll(x, ss).lay && s !in x.lay ==>
      var id := AddAll(x, ss).lay[s]; id < |x.al.bits| && x.al.bits[id] && id < c
    decreases |ss|
  {
    if ss != [] {
      var x1 := Add(x, ss[0]);
      TakeHealthy(x.al, c);
      if ss[0] !in x.lay {
        MissingUnaffected(x.lay, ss[0], Take(x.al).id, ss[1..]);
      }
      assert Sound(x1.lay, x1.al);
      AddAllSound(x1, ss[1..], c);
      AddAllKeys(x1, ss[1..]);
    }
  }

  lemma PathDistinct(p: Fanout, n: nat)
    ensures Distinct(Path(p, n))
    ensures |Path(p, n)| <= 3
    ensures forall s :: s in Path(p, n) ==> !s.Leaf?
  {}

  /** Blocks one extension consumes on a dense tree: the leaf and the index blocks that start at it. */
  function Need(p: Fanout, n: nat): nat {
    1 + (if n < 4 || (n - 4) % p != 0 then 0
         else 1 + (var m := IndOf(p, n);
                   if m == 0 || (m - 1) % p != 0 then 0
                   else 1 + (if BindOf(p, m) == 1 then 1 else 0)))
  }

  lemma IndStartsAt(p: Fanout, n: nat)
    requires n >= 4
    ensures FirstLeaf(p, Ind(IndOf(p, n))) == n <==> (n - 4) % p == 0
  {
    LeafPosInverse(p, IndOf(p, n), 0);
  }

  lemma BindStartsAt(p: Fanout, n: nat)
    requires n >= 4 && IndOf(p, n) >= 1
    ensures var m := IndOf(p, n);
      FirstLeaf(p, Bind(BindOf(p, m))) == n <==> (n - 4) % p == 0 && (m - 1) % p == 0
  {
    var m := IndOf(p, n);
    var first := IndPos(p, BindOf(p, m), 0);
    LeafPosInverse(p, first, 0);
    IndStartsAt(p, n);
    if first != m {
      MulMono(first + 1, m, p);
    }
  }

  lemma TindStartsAt(p: Fanout, n: nat)
    requires n >= 4 && IndOf(p, n) >= 1 && BindOf(p, IndOf(p, n)) >= 1
    ensures FirstLeaf(p, Tind) == n <==>
      BindOf(p, IndOf(p, n)) == 1 && FirstLeaf(p, Bind(BindOf(p, IndOf(p, n)))) == n
  {
    var b := BindOf(p, IndOf(p, n));
    FirstLeafOfBind(p, 1);
    FirstLeafOfBind(p, b);
    if b > 1 {
      MulMono(2, b, p * p);
      FirstLeafOfParent(p, Leaf(n));
      FirstLeafOfParent(p, Ind(IndOf(p, n)));
    }
  }

  lemma MissingOfThree(lay: Layout, s: Pos, t: Pos, u: Pos)
    ensures Missing(lay, [u]) == if u in lay then 0 else 1
    ensures Missing(lay, [t, u]) == (if t in lay then 0 else 1) + Missing(lay, [u])
    ensures Missing(lay, [s, t, u]) == (if s in lay then 0 else 1) + Missing(lay, [t, u])
  {
    assert [s, t, u][1..] == [t, u] && [t, u][1..] == [u] && [u][1..] == [];
  }

  lemma MissingOnPath(p: Fanout, lay: Layout, n: nat)
    requires Dense(p, lay, n) && n < Capacity(p)
    ensures 1 + Missing(lay, Path(p, n)) == Need(p, n)
  {
    if n >= 4 {
      var m := IndOf(p, n);
      PathToLeaf(p, n, Ind(m));
      IndStartsAt(p, n);
      if m >= 1 {
        var b := BindOf(p, m);
        PathToLeaf(p, n, Bind(b));
        BindStartsAt(p, n);
        if b >= 1 {
          PathToLeaf(p, n, Tind);
          TindStartsAt(p, n);
          MissingOfThree(lay, Tind, Bind(b), Ind(m));
        } else {
          MissingOfThree(lay, Tind, Bind(b), Ind(m));
        }
      }
    }
  }

  lemma InsertFresh(lay: Layout, s: Pos, id: nat)
    requires s !in lay
    ensures |lay[s := id]| == |lay| + 1
  {
    assert lay[s := id].Keys == lay.Keys + {s};
    assert |lay[s := id].Keys| == |lay.Keys| + 1;
  }

  /** What one extension costs. */
  lemma ExtendCosts(p: Fanout, lay: Layout, al: Alloc, n: nat, c: nat)
    requires Dense(p, lay, n) && n < Capacity(p)
    requires Healthy(al, c) && al.free > 0
    ensures Extend(p, lay, al, n).Extended?
    ensures var g := Extend(p, lay, al, n).g;
      && Healthy(g.al, c)
      && |g.al.bits| == |al.bits|
      && |g.lay| == |lay| + Need(p, n)
      && (al.free >= Need(p, n) ==> g.al.free == al.free - Need(p, n))
      && (al.free < Need(p, n) ==> g.al.free == 0 && exists s :: s in g.lay && g.lay[s] == 0)
      && (forall j :: 0 <= j < |al.bits| && !al.bits[j] ==> !g.al.bits[j])
  {
    var d := Take(al);
    var g0 := Growth(lay, d.al);
    TakeHealthy(al, c);
    PathDistinct(p, n);
    MissingOnPath(p, lay, n);
    AddAllCounts(g0, Path(p, n), c);
    AddAllKeys(g0, Path(p, n));
    var x := AddAll(g0, Path(p, n));
    InsertFresh(x.lay, Leaf(n), d.id);
    if al.free < Need(p, n) {
      var s :| s in Path(p, n) && s in x.lay && x.lay[s] == 0;
      assert x.lay[Leaf(n) := d.id][s] == 0;
    }
  }

  /** An affordable extension keeps the ids sound; the ones it adds were free, and are below c. */
  lemma ExtendSound(p: Fanout, lay: Layout, al: Alloc, n: nat, c: nat)
    requires Dense(p, lay, n) && n < Capacity(p)
    requires Healthy(al, c) && Sound(lay, al) && al.free >= Need(p, n)
    ensures var g := Extend(p, lay, al, n).g;
      && Sound(g.lay, g.al)
      && (forall s :: s in g.lay && s !in lay ==> g.lay[s] < c && al.bits[g.lay[s]])
  {
    var d := Take(al);
    TakeHealthy(al, c);
    PathDistinct(p, n);
    MissingOnPath(p, lay, n);
    var lay1 := lay[Leaf(n) := d.id];
    assert Sound(lay1, d.al);
    MissingUnaffected(lay, Leaf(n), d.id, Path(p, n));
    AddAllSound(Growth(lay1, d.al), Path(p, n), c);
    AddAllKeys(Growth(lay1, d.al), Path(p, n));
    AddAllCommutes(Growth(lay, d.al), Path(p, n), Leaf(n), d.id);
  }

  lemma {:induction false} AddAllCommutes(x: Growth, ss: seq<Pos>, s: Pos, id: nat)
    requires s !in ss
    ensures AddAll(x.(lay := x.lay[s := id]), ss) == AddAll(x, ss).(lay := AddAll(x, ss).lay[s := id])
    decreases |ss|
  {
    if ss != [] {
      var x1 := Add(x, ss[0]);
      assert Add(x.(lay := x.lay[s := id]), ss[0]).lay == x1.lay[s := id];
      AddAllCommutes(x1, ss[1..], s, id);
    }
  }

  /** When growth is safe. With a free block at hand and room in the tree the library extends in any
      case, but it allocates the index blocks without a check: the ids stay nonzero and unshared
      exactly when Need(p, n) blocks are free. */
  lemma ExtendSoundIff(p: Fanout, lay: Layout, al: Alloc, n: nat, c: nat)
    requires Dense(p, lay, n) && n < Capacity(p)
    requires Healthy(al, c) && Sound(lay, al) && al.free > 0
    ensures var g := Extend(p, lay, al, n).g;
      Sound(g.lay, g.al) <==> al.free >= Need(p, n)
  {
    ExtendCosts(p, lay, al, n, c);
    if al.free >= Need(p, n) {
      ExtendSound(p, lay, al, n, c);
    }
  }

  /** Such a state exists for every fanout: four direct blocks and one free block. The next leaf needs an
      indirect block too, which gets id 0. */
  lemma ShortExtension(p: Fanout) returns (lay: Layout, al: Alloc)
    ensures Dense(p, lay, 4) && Healthy(al, 6) && Sound(lay, al) && 0 < al.free < Need(p, 4)
    ensures Extend(p, lay, al, 4).Extended? && !Sound(Extend(p, lay, al, 4).g.lay, Extend(p, lay, al, 4).g.al)
  {
    lay := map[Leaf(0) := 1, Leaf(1) := 2, Leaf(2) := 3, Leaf(3) := 4];
    al := Alloc([false, false, false, false, false, true], 1);
    forall s
      ensures s in lay <==> FirstLeaf(p, s) < 4
    {}
    assert CountBelow(al.bits, 4) == 0;
    ExtendSoundIff(p, lay, al, 4, 6);
    ExtendCosts(p, lay, al, 4, 6);
  }
}
