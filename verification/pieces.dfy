/**
 Writing in pieces, whatever the ids of the tree are: a write that is cut up, at any point, does what the
 whole write does. The boot loader installer relies on it, and it tells how far a write gets before it
 meets a block it should not touch.
 */
module Pieces {
  import opened Arith
  import opened Bytes
  import opened Bitmap
  import opened Layouts
  import opened FileSpec

  /** All that a write needs in order not to be refused by the device: ids may be 0 or shared. */
  ghost predicate Reachable(g: Geo, disk: Disk, f: File, c: nat) {
    WellPlaced(g, f) && Healthy(disk.al, c) && Below(f.lay, c) && c * g.bs <= |disk.dev|
  }

  lemma IntactReaches(g: Geo, disk: Disk, f: File, c: nat)
    requires Intact(g, disk, f, c)
    ensures Reachable(g, disk, f, c)
  {}

  lemma {:induction false} AddAllBelow(x: Growth, ss: seq<Pos>, c: nat)
    requires Healthy(x.al, c) && Below(x.lay, c)
    ensures Healthy(AddAll(x, ss).al, c) && Below(AddAll(x, ss).lay, c)
    decreases |ss|
  {
    if ss != [] {
      TakeHealthy(x.al, c);
      AddAllBelow(Add(x, ss[0]), ss[1..], c);
    }
  }

  lemma ExtendBelow(p: Fanout, lay: Layout, al: Alloc, n: nat, c: nat)
    requires Healthy(al, c) && Below(lay, c)
    ensures var x := Extend(p, lay, al, n).g;
      Healthy(x.al, c) && Below(x.lay, c)
  {
    TakeHealthy(al, c);
    AddAllBelow(Growth(lay, Take(al).al), Path(p, n), c);
  }

  lemma PrepareReachable(g: Geo, disk: Disk, f: File, c: nat)
    requires Reachable(g, disk, f, c)
    ensures var (ok, disk1, f1) := Prepare(g, disk, f);
      && Reachable(g, disk1, f1, c) && disk1.dev == disk.dev
      && f1.cursor == f.cursor && f1.size == f.size
      && (ok ==> LeafOf(g, f.cursor) in f1.lay)
      && (forall s :: s in f.lay ==> s in f1.lay && f1.lay[s] == f.lay[s])
  {
    PreparePlaced(g, disk, f);
    if LeafOf(g, f.cursor) !in f.lay {
      ExtendBelow(g.p, f.lay, disk.al, f.n, c);
      ExtendAppends(g.p, f.lay, disk.al, f.n);
    }
  }

  /** The device does not refuse a chunk: it is written as soon as there is a block for it. */
  lemma ChunkReaches(g: Geo, disk: Disk, f: File, data: seq<byte>, c: nat) returns (chunk: nat)
    requires data != [] && Reachable(g, disk, f, c)
    ensures chunk == Min(g.bs - f.cursor % g.bs, |data|) && 0 < chunk <= |data|
    ensures var w := WriteChunk(g, disk, f, data);
      var (ok, disk1, f1) := Prepare(g, disk, f);
      var a := Address(g, f1.lay, f.cursor);
      && Reachable(g, w.disk, w.f, c)
      && (forall s :: s in f.lay ==> s in w.f.lay && w.f.lay[s] == f.lay[s])
      && (if ok then
            && a + chunk <= |disk1.dev|
            && w == Progress(disk1.(dev := Splice(disk1.dev, a, data[..chunk])),
                             f1.(cursor := f.cursor + chunk, size := Max(f.size, f.cursor + chunk)), chunk)
            && LeafOf(g, f.cursor) in w.f.lay
          else w == Progress(disk1, f1, 0))
  {
    chunk := Min(g.bs - f.cursor % g.bs, |data|);
    PrepareReachable(g, disk, f, c);
    ChunkPlaced(g, disk, f, data);
    var (ok, disk1, f1) := Prepare(g, disk, f);
    if ok {
      AddressBelow(g, disk1.dev, f1.lay, c, f.cursor, chunk);
    }
  }

  /** A write keeps every id the tree has, and stays on the device. */
  lemma {:induction false} WriteReaches(g: Geo, disk: Disk, f: File, data: seq<byte>, c: nat)
    requires Reachable(g, disk, f, c)
    ensures var w := WriteAll(g, disk, f, data);
      && Reachable(g, w.disk, w.f, c)
      && |w.disk.dev| == |disk.dev|
      && w.f.cursor == f.cursor + w.written
      && (forall s :: s in f.lay ==> s in w.f.lay && w.f.lay[s] == f.lay[s])
    decreases |data|
  {
    hide Reachable, WriteChunk, Prepare;
    if data != [] {
      var w, rest := WriteUnfolds(g, disk, f, data);
      var chunk := ChunkReaches(g, disk, f, data, c);
      PrepareKeeps(g, disk, f, c);
      if w.written > 0 {
        WriteReaches(g, w.disk, w.f, data[w.written..], c);
      }
    }
  }

  lemma PrepareKeeps(g: Geo, disk: Disk, f: File, c: nat)
    requires Reachable(g, disk, f, c)
    ensures var (ok, disk1, f1) := Prepare(g, disk, f);
      disk1.dev == disk.dev && f1.cursor == f.cursor
  {
    PrepareReachable(g, disk, f, c);
  }

  // ----- two pieces -----

  /** The state after the first piece and then the second. */
  function Then(g: Geo, w: Progress, b: seq<byte>): Progress {
    var r := WriteAll(g, w.disk, w.f, b);
    r.(written := w.written + r.written)
  }

  /** A piece that ends inside a block, and the next chunk, are one chunk. */
  lemma ChunkInTwo(g: Geo, disk: Disk, f: File, a: seq<byte>, b: seq<byte>, c: nat)
    requires a != [] && b != [] && |a| < g.bs - f.cursor % g.bs && Reachable(g, disk, f, c)
    ensures var v, w := WriteChunk(g, disk, f, a), WriteChunk(g, disk, f, a + b);
      if v.written == 0 then w == v
      else
        var u := WriteChunk(g, v.disk, v.f, b);
        && v.written == |a| && Reachable(g, v.disk, v.f, c)
        && 0 < u.written && w == u.(written := |a| + u.written)
  {
    hide Reachable, Prepare, WriteChunk, Splice, Address, Max;
    var x := ChunkReaches(g, disk, f, a, c);
    var y := ChunkReaches(g, disk, f, a + b, c);
    var v, w := WriteChunk(g, disk, f, a), WriteChunk(g, disk, f, a + b);
    assert a[..x] == a;
    if v.written != 0 {
      var z := ChunkReaches(g, v.disk, v.f, b, c);
      PrepareThere(g, v.disk, v.f);
      WithinBlock(g, v.f.lay, f.cursor, |a|);
      RestOfBlock(f.cursor, g.bs, |a|);
      var (ok, disk1, f1) := Prepare(g, disk, f);
      var at := Address(g, f1.lay, f.cursor);
      AddressByLayout(g, f1, v.f, f.cursor);
      assert (a + b)[..y] == a + b[..z];
      SpliceTwice(disk1.dev, at, a, b[..z]);
      MaxTwice(f.size, f.cursor + |a|, f.cursor + |a| + z);
    }
  }

  lemma MaxTwice(a: nat, b: nat, c: nat)
    requires b <= c
    ensures Max(Max(a, b), c) == Max(a, c)
  {}

  lemma AddressByLayout(g: Geo, f: File, f': File, x: nat)
    requires f.lay == f'.lay
    ensures Address(g, f.lay, x) == Address(g, f'.lay, x)
  {}

  lemma PrepareThere(g: Geo, disk: Disk, f: File)
    ensures LeafOf(g, f.cursor) in f.lay ==> Prepare(g, disk, f) == (true, disk, f)
  {}

  lemma RestOfBlock(c: nat, bs: Size, k: nat)
    requires k < bs - c % bs
    ensures (c + k) % bs == c % bs + k
  {
    var q, r := DivModSplit(c, bs);
    DivModIs(c + k, bs, q, r + k);
  }

  /** A piece that reaches the end of the block leaves the first chunk as it is. */
  lemma SameChunk(g: Geo, disk: Disk, f: File, a: seq<byte>, b: seq<byte>, c: nat) returns (x: nat)
    requires a != [] && |a| >= g.bs - f.cursor % g.bs && Reachable(g, disk, f, c)
    ensures var w := WriteChunk(g, disk, f, a);
      && WriteChunk(g, disk, f, a + b) == w && Reachable(g, w.disk, w.f, c)
      && 0 < x <= |a| && (w.written == 0 || w.written == x) && (a + b)[x..] == a[x..] + b
  {
    hide Reachable, WriteChunk, Prepare, Splice, Address, Max;
    x := ChunkReaches(g, disk, f, a, c);
    var y := ChunkReaches(g, disk, f, a + b, c);
    assert (a + b)[..x] == a[..x];
  }

  /** Writing a + b is writing a and then b, or stopping where a stops. */
  lemma {:induction false} WritePieces(g: Geo, disk: Disk, f: File, a: seq<byte>, b: seq<byte>, c: nat)
    requires Reachable(g, disk, f, c)
    ensures var w := WriteAll(g, disk, f, a);
      WriteAll(g, disk, f, a + b) == if w.written < |a| then w else Then(g, w, b)
    decreases |a|
  {
    hide Reachable, WriteChunk, WriteAll;
    if a == [] {
      WriteNothing(g, disk, f);
      assert a + b == b;
    } else if b == [] {
      assert a + b == a;
      var w := WriteAll(g, disk, f, a);
      WriteNothing(g, w.disk, w.f);
    } else {
      var v, rest := WriteUnfolds(g, disk, f, a);
      var w, more := WriteUnfolds(g, disk, f, a + b);
      if |a| < g.bs - f.cursor % g.bs {
        ChunkInTwo(g, disk, f, a, b, c);
        if v.written != 0 {
          assert a[|a|..] == [];
          WriteNothing(g, v.disk, v.f);
          var u, last := WriteUnfolds(g, v.disk, v.f, b);
          assert (a + b)[w.written..] == b[u.written..];
        }
      } else {
        var x := SameChunk(g, disk, f, a, b, c);
        if v.written != 0 {
          WritePieces(g, v.disk, v.f, a[x..], b, c);
        }
      }
    }
  }
}
