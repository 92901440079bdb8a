/**
 Blocks that get lost. A write takes a block before it looks for a place in the tree, so a write that runs
 into the end of a full tree leaves a block that is neither free nor part of a file. This module says
 exactly which writes do.
 */
module LostBlocks {
  import opened Arith
  import opened Bytes
  import opened Bitmap
  import opened Layouts
  import opened FileSpec
  import opened Pieces

  // ----- a full tree with a free block -----

  lemma {:induction false} AllButFirst(bits: seq<bool>, k: nat)
    requires 0 < k <= |bits| && !bits[0] && forall j :: 0 < j < |bits| ==> bits[j]
    ensures CountBelow(bits, k) == k - 1
  {
    if k > 1 {
      AllButFirst(bits, k - 1);
    }
  }

  /** A sound tree of n leaves, grown from nothing out of a new bitmap of c blocks. */
  lemma {:induction false} GrownTo(p: Fanout, n: nat, c: nat) returns (lay: Layout, al: Alloc)
    requires n <= Capacity(p) && c > 4 * n
    ensures Dense(p, lay, n) && Healthy(al, c) && Sound(lay, al) && al.free + 1 >= c - 4 * n
  {
    hide Capacity, Dense, Sound, Healthy;
    if n == 0 {
      lay, al := NewTree(p, c);
    } else {
      var lay0, al0 := GrownTo(p, n - 1, c);
      lay, al := GrownByOne(p, lay0, al0, n - 1, c);
    }
  }

  lemma NewTree(p: Fanout, c: nat) returns (lay: Layout, al: Alloc)
    requires c > 0
    ensures Dense(p, lay, 0) && Healthy(al, c) && Sound(lay, al) && al.free + 1 == c
  {
    al := Alloc([false] + seq(c - 1, _ => true), c - 1);
    lay := map[];
    AllButFirst(al.bits, c);
    EmptyIsDense(p);
  }

  lemma GrownByOne(p: Fanout, lay0: Layout, al0: Alloc, n: nat, c: nat) returns (lay: Layout, al: Alloc)
    requires Dense(p, lay0, n) && n < Capacity(p) && Healthy(al0, c) && Sound(lay0, al0) && al0.free >= 4
    ensures Dense(p, lay, n + 1) && Healthy(al, c) && Sound(lay, al) && al.free + 4 >= al0.free
  {
    hide Capacity, Need, Dense, Sound, Extend;
    NeedAtMostFour(p, n);
    ExtendAppends(p, lay0, al0, n);
    ExtendCosts(p, lay0, al0, n, c);
    ExtendSound(p, lay0, al0, n, c);
    var g := Extend(p, lay0, al0, n).g;
    lay, al := g.lay, g.al;
  }

  lemma NeedAtMostFour(p: Fanout, n: nat)
    ensures Need(p, n) <= 4
  {}

  /** For every fanout there is a full tree that is in order with a block still free. Extending it loses
      that block. */
  lemma FullTreeExists(p: Fanout) returns (lay: Layout, al: Alloc, c: nat)
    ensures Dense(p, lay, Capacity(p)) && Healthy(al, c) && Sound(lay, al) && al.free > 0
    ensures var g := Extend(p, lay, al, Capacity(p)).g;
      !NoneLost(lay, al, g.lay, g.al)
  {
    c := 4 * Capacity(p) + 2;
    lay, al := GrownTo(p, Capacity(p), c);
    ExtendLosesNoneIff(p, lay, al, Capacity(p), c);
  }

  // ----- a whole write -----

  lemma NoneLostTrans(lay1: Layout, al1: Alloc, lay2: Layout, al2: Alloc, lay3: Layout, al3: Alloc)
    requires NoneLost(lay1, al1, lay2, al2) && NoneLost(lay2, al2, lay3, al3)
    requires |al2.bits| == |al1.bits|
    requires forall s :: s in lay2 ==> s in lay3 && lay3[s] == lay2[s]
    ensures NoneLost(lay1, al1, lay3, al3)
  {
    forall j: nat | j < |al1.bits| && (al1.bits[j] || Holder(lay1, j))
      ensures Holder(lay3, j) || (j < |al3.bits| && al3.bits[j])
    {
      assert Holder(lay2, j) || al2.bits[j];
    }
  }

  /** The write stays below the end of the tree, or the bitmap runs out on the way there. */
  predicate KeepsAll(g: Geo, al: Alloc, f: File, len: nat) {
    LeavesAfter(g, f, len) <= Capacity(g.p) || al.free <= BlocksFor(g.p, f.n, Capacity(g.p))
  }

  /** Finding a block for the cursor. */
  lemma PrepareLosesNone(g: Geo, disk: Disk, f: File, len: nat, c: nat)
    requires Reachable(g, disk, f, c) && len > 0 && KeepsAll(g, disk.al, f, len)
    ensures var (ok, disk1, f1) := Prepare(g, disk, f);
      && NoneLost(f.lay, disk.al, f1.lay, disk1.al)
      && |disk1.al.bits| == |disk.al.bits|
      && (ok ==> f1.n == (if LeafOf(g, f.cursor) in f.lay then f.n else f.n + 1))
      && (ok ==> LeavesAfter(g, f, len) <= Capacity(g.p) || disk1.al.free <= BlocksFor(g.p, f1.n, Capacity(g.p)))
  {
    if LeafOf(g, f.cursor) !in f.lay {
      TakeHealthy(disk.al, c);
      CursorInOrAtEnd(g, f);
      if disk.al.free > 0 {
        var chunk := LeavesAfterChunk(g, f, len);
        assert f.n < Capacity(g.p);
        ExtendCosts(g.p, f.lay, disk.al, f.n, c);
        ExtendKeepsAll(g.p, f.lay, disk.al, f.n);
      }
    }
  }

  /** An extension that finds a place loses nothing, whatever the ids in the tree are. */
  lemma ExtendKeepsAll(p: Fanout, lay: Layout, al: Alloc, n: nat)
    requires Dense(p, lay, n) && Extend(p, lay, al, n).Extended?
    ensures var g := Extend(p, lay, al, n).g;
      NoneLost(lay, al, g.lay, g.al)
  {
    var g := Extend(p, lay, al, n).g;
    forall j: nat | j < |al.bits| && (al.bits[j] || Holder(lay, j))
      ensures Holder(g.lay, j) || (j < |g.al.bits| && g.al.bits[j])
    {
      StillThere(p, lay, al, n, j);
    }
  }

  lemma {:induction false} WriteLosesNone(g: Geo, disk: Disk, f: File, data: seq<byte>, c: nat)
    requires Reachable(g, disk, f, c) && KeepsAll(g, disk.al, f, |data|)
    ensures var w := WriteAll(g, disk, f, data);
      NoneLost(f.lay, disk.al, w.f.lay, w.disk.al)
    decreases |data|
  {
    hide Reachable, WriteChunk, WriteAll, Prepare, NoneLost, KeepsAll, LeavesAfter, BlocksFor, Capacity;
    if data == [] {
      WriteNothing(g, disk, f);
      NothingLost(f.lay, disk.al);
    } else {
      var w, rest := WriteUnfolds(g, disk, f, data);
      ChunkLosesNone(g, disk, f, data, c);
      if w.written > 0 {
        var tail := data[w.written..];
        WriteLosesNone(g, w.disk, w.f, tail, c);
        WriteReaches(g, w.disk, w.f, tail, c);
        NoneLostTrans(f.lay, disk.al, w.f.lay, w.disk.al, rest.f.lay, rest.disk.al);
      }
    }
  }

  lemma NothingLost(lay: Layout, al: Alloc)
    ensures NoneLost(lay, al, lay, al)
  {}

  lemma ChunkLosesNone(g: Geo, disk: Disk, f: File, data: seq<byte>, c: nat)
    requires data != [] && Reachable(g, disk, f, c) && KeepsAll(g, disk.al, f, |data|)
    ensures var w := WriteChunk(g, disk, f, data);
      && NoneLost(f.lay, disk.al, w.f.lay, w.disk.al)
      && |w.disk.al.bits| == |disk.al.bits|
      && Reachable(g, w.disk, w.f, c)
      && (w.written > 0 ==> KeepsAll(g, w.disk.al, w.f, |data| - w.written))
  {
    hide Prepare, WriteChunk, NoneLost, BlocksFor, Capacity, Reachable;
    var chunk := ChunkReaches(g, disk, f, data, c);
    PrepareLosesNone(g, disk, f, |data|, c);
    FromReachable(g, disk, f, c);
    var same := LeavesAfterChunk(g, f, |data|);
  }

  lemma FromReachable(g: Geo, disk: Disk, f: File, c: nat)
    requires Reachable(g, disk, f, c)
    ensures WellPlaced(g, f)
  {}

  /** Up to the end of the tree the write is paid for; there it takes one more block. */
  lemma WriteLosesBlock(g: Geo, disk: Disk, f: File, data: seq<byte>, c: nat)
    requires Intact(g, disk, f, c) && !KeepsAll(g, disk.al, f, |data|)
    ensures var w := WriteAll(g, disk, f, data);
      !NoneLost(f.lay, disk.al, w.f.lay, w.disk.al)
  {
    hide Intact, WriteChunk, WriteAll, NoneLost, BlocksFor, Dense;
    IntactReaches(g, disk, f, c);
    IntactIsReady(g, disk, f, c);
    var h := ToTheEnd(g, f, |data|);
    var a, b := data[..h], data[h..];
    assert data == a + b;
    WritePieces(g, disk, f, a, b, c);
    FillTree(g, disk, f, a, c);
    var w := WriteAll(g, disk, f, a);
    var u, rest := WriteUnfolds(g, w.disk, w.f, b);
    PastTheEnd(g, w.disk, w.f, b, c);
    LostFor(f.lay, disk.al, w.f.lay, w.disk.al, Take(w.disk.al).id, u.disk.al);
  }

  /** How much of the data goes in front of the end of the tree. */
  lemma ToTheEnd(g: Geo, f: File, len: nat) returns (h: nat)
    requires WellPlaced(g, f) && LeavesAfter(g, f, len) > Capacity(g.p)
    ensures h < len && f.cursor + h == Capacity(g.p) * g.bs && LeavesAfter(g, f, h) == Capacity(g.p)
  {
    hide Capacity;
    var n := Capacity(g.p);
    MulMono(f.n, n, g.bs);
    h := n * g.bs - f.cursor;
    DivModIs(n * g.bs + g.bs - 1, g.bs, n, g.bs - 1);
    if h >= len {
      LeavesMono(g, f.cursor + len, n * g.bs);
    }
  }

  lemma FillTree(g: Geo, disk: Disk, f: File, a: seq<byte>, c: nat)
    requires Intact(g, disk, f, c) && LeavesAfter(g, f, |a|) == Capacity(g.p)
    requires disk.al.free > BlocksFor(g.p, f.n, Capacity(g.p))
    requires f.cursor + |a| == Capacity(g.p) * g.bs
    ensures var w := WriteAll(g, disk, f, a);
      && w.written == |a| && Intact(g, w.disk, w.f, c)
      && w.f.n == Capacity(g.p) && w.f.cursor == Capacity(g.p) * g.bs
      && w.disk.al.free > 0
      && Grew(g, disk, f, w.disk, w.f, c)
  {
    hide Intact, Grew, WriteAll, BlocksFor, Capacity;
    IntactIsReady(g, disk, f, c);
    WriteGrew(g, disk, f, a, c);
    if a == [] {
      WriteNothing(g, disk, f);
      FullByItself(g, f);
      assert BlocksFor(g.p, f.n, f.n) == 0 by { EmptyCost(g.p, f.n); }
    } else {
      WriteComplete(g, disk, f, a, c);
    }
  }

  lemma EmptyCost(p: Fanout, n: nat)
    ensures BlocksFor(p, n, n) == 0
  {}

  lemma FullByItself(g: Geo, f: File)
    requires WellPlaced(g, f) && f.cursor == Capacity(g.p) * g.bs
    ensures f.n == Capacity(g.p)
  {
    assert (f.n + 1) * g.bs == f.n * g.bs + g.bs;
    if f.n < Capacity(g.p) {
      MulMono(f.n + 1, Capacity(g.p), g.bs);
    }
  }

  /** At the end of a full tree with a free block. */
  lemma PastTheEnd(g: Geo, disk: Disk, f: File, data: seq<byte>, c: nat)
    requires data != [] && Intact(g, disk, f, c)
    requires f.n == Capacity(g.p) && f.cursor == Capacity(g.p) * g.bs && disk.al.free > 0
    ensures var w, id := WriteChunk(g, disk, f, data), Take(disk.al).id;
      && w.written == 0 && w.f.lay == f.lay
      && id < |disk.al.bits| && disk.al.bits[id] && Clear(w.disk.al, id) && !Holder(f.lay, id)
  {
    hide Capacity;
    FullTreeLosesBlock(g.p, f.lay, disk.al, c);
    DivModIs(f.cursor, g.bs, f.n, 0);
    assert FirstLeaf(g.p, Leaf(f.n)) == f.n && Leaf(f.n) !in f.lay;
  }

  lemma LostFor(lay: Layout, al: Alloc, lay': Layout, al1: Alloc, id: nat, al': Alloc)
    requires |al1.bits| == |al.bits| && (forall j :: 0 <= j < |al.bits| && !al.bits[j] ==> !al1.bits[j])
    requires id < |al1.bits| && al1.bits[id] && Clear(al', id) && !Holder(lay', id)
    ensures !NoneLost(lay, al, lay', al')
  {
    assert al.bits[id];
  }

  /** A write loses no block if and only if it stays below the end of the tree or the bitmap runs out before
      it gets there. */
  lemma WriteLosesNoneIff(g: Geo, disk: Disk, f: File, data: seq<byte>, c: nat)
    requires Intact(g, disk, f, c)
    ensures var w := WriteAll(g, disk, f, data);
      NoneLost(f.lay, disk.al, w.f.lay, w.disk.al) <==>
      LeavesAfter(g, f, |data|) <= Capacity(g.p) || disk.al.free <= BlocksFor(g.p, f.n, Capacity(g.p))
  {
    IntactReaches(g, disk, f, c);
    if KeepsAll(g, disk.al, f, |data|) {
      WriteLosesNone(g, disk, f, data, c);
    } else {
      WriteLosesBlock(g, disk, f, data, c);
    }
  }
}
