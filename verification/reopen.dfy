/**
 Writing to a file after it has been opened again. Opening makes a block of every direct slot, so a file
 that was closed with fewer than four blocks comes back with blocks of id 0 behind its own: a write that
 gets past its own blocks goes to the start of the device.
 */
module Reopening {
  import opened Arith
  import opened Bytes
  import opened Bitmap
  import opened Layouts
  import opened FileSpec
  import opened OnDisk
  import opened Systems
  import opened Pieces

  lemma PaddedReaches(g: Geo, disk: Disk, f: File, c: nat)
    requires Intact(g, disk, f, c)
    ensures Reachable(g, disk, f, c) && Reachable(g, disk, Padded(f), c)
  {
    PaddedPlaced(g, f);
    PadKeepsIds(f.lay);
  }

  /** The part of a write that goes to the blocks the file has of its own. */
  lemma OwnPart(g: Geo, disk: Disk, f: File, data: seq<byte>, c: nat)
    requires Intact(g, disk, f, c) && f.cursor + |data| <= f.n * g.bs
    ensures var w := WriteAll(g, disk, f, data);
      && w.written == |data| && w.f.lay == f.lay && w.f.n == f.n && w.f.cursor == f.cursor + |data|
      && w.disk.al == disk.al && Intact(g, w.disk, w.f, c)
      && WriteAll(g, disk, Padded(f), data) == w.(f := Padded(w.f))
  {
    hide WriteAll, Affordable, Sound, Healthy;
    PaddedWrite(g, disk, f, data);
    WithinIsAffordable(g, disk.al, f, |data|);
    PaidWrite(g, disk, f, data, c);
    OwnPartTakesNone(g, disk, f, data);
  }

  lemma {:induction false} OwnPartTakesNone(g: Geo, disk: Disk, f: File, data: seq<byte>)
    requires WellPlaced(g, f) && f.cursor + |data| <= f.n * g.bs
    ensures WriteAll(g, disk, f, data).disk.al == disk.al
    decreases |data|
  {
    if data != [] {
      LeafOfByte(g, f, f.cursor);
      ChunkPlaced(g, disk, f, data);
      var w := WriteChunk(g, disk, f, data);
      if w.written > 0 {
        OwnPartTakesNone(g, w.disk, w.f, data[w.written..]);
      }
    }
  }

  /** The first chunk behind the blocks of the file goes to block 0, which is not its own, and no block is
      allocated for it. */
  lemma FirstForeignChunk(g: Geo, disk: Disk, f: File, data: seq<byte>, c: nat)
    requires Intact(g, disk, f, c) && f.n < 4 && f.cursor == f.n * g.bs && data != []
    ensures var w := WriteChunk(g, disk, Padded(f), data);
      && w.written == Min(g.bs, |data|) <= |disk.dev|
      && w.disk == disk.(dev := Splice(disk.dev, 0, data[..w.written]))
      && w.f.lay == Pad(f.lay) && w.f.n == 4
  {
    PaddedReaches(g, disk, f, c);
    DivModIs(f.cursor, g.bs, f.n, 0);
    PadKeepsIds(f.lay);
    assert FirstLeaf(g.p, Leaf(f.n)) == f.n && Leaf(f.n) !in f.lay;
    MulMono(1, c, g.bs);
  }

  /** What a write does that gets past the blocks of a reopened short file: first it fills the file's own
      blocks, then it overwrites the start of the device, then it goes on. */
  lemma ReopenedShortFileWritesBootBlock(g: Geo, disk: Disk, f: File, data: seq<byte>, c: nat)
    requires Intact(g, disk, f, c) && f.n < 4 && f.cursor + |data| > f.n * g.bs
    ensures var h := f.n * g.bs - f.cursor;
      var own := WriteAll(g, disk, f, data[..h]);
      var w := WriteChunk(g, own.disk, Padded(own.f), data[h..]);
      && own.written == h && own.disk.al == disk.al
      && w.written == Min(g.bs, |data| - h) <= |own.disk.dev|
      && w.disk == own.disk.(dev := Splice(own.disk.dev, 0, data[h..h + w.written]))
      && w.f.lay == Pad(f.lay)
      && WriteAll(g, disk, Padded(f), data) ==
         (var r := WriteAll(g, w.disk, w.f, data[h + w.written..]); r.(written := h + w.written + r.written))
  {
    hide Intact, WriteAll, WriteChunk, Reachable, Padded, Pad;
    IntactIsReady(g, disk, f, c);
    var h := f.n * g.bs - f.cursor;
    var a, b := data[..h], data[h..];
    assert data == a + b;
    PaddedReaches(g, disk, f, c);
    OwnPart(g, disk, f, a, c);
    WritePieces(g, disk, Padded(f), a, b, c);
    var own := WriteAll(g, disk, f, a);
    FirstForeignChunk(g, own.disk, own.f, b, c);
    var w, rest := WriteUnfolds(g, own.disk, Padded(own.f), b);
    assert b[..w.written] == data[h..h + w.written] && b[w.written..] == data[h + w.written..];
  }

  /** Every byte from a to b lies in a block the file has an id for. */
  ghost predicate HasBlocks(g: Geo, lay: Layout, a: nat, b: nat) {
    forall k :: a <= k < b ==> Id(lay, LeafOf(g, k)) != 0
  }

  lemma SoundHasBlocks(g: Geo, f: File, al: Alloc, a: nat, b: nat)
    requires WellPlaced(g, f) && LeavesSound(f.lay, al) && b <= f.n * g.bs
    ensures HasBlocks(g, f.lay, a, b)
  {
    forall k | a <= k < b
      ensures Id(f.lay, LeafOf(g, k)) != 0
    {
      LeafOfByte(g, f, k);
    }
  }

  lemma PadHasBlocks(g: Geo, lay: Layout, a: nat, b: nat)
    requires HasBlocks(g, lay, a, b)
    ensures HasBlocks(g, Pad(lay), a, b)
  {
    PadKeepsIds(lay);
  }

  lemma ForeignByte(g: Geo, f: File, lay: Layout, a: nat, b: nat)
    requires WellPlaced(g, f) && f.n < 4 && a <= f.n * g.bs < b
    requires forall s :: s in Pad(f.lay) ==> s in lay && lay[s] == Pad(f.lay)[s]
    ensures !HasBlocks(g, lay, a, b)
  {
    var k := f.n * g.bs;
    DivModIs(k, g.bs, f.n, 0);
    PadKeepsIds(f.lay);
    assert FirstLeaf(g.p, Leaf(f.n)) == f.n && Leaf(f.n) !in f.lay;
    assert Id(lay, LeafOf(g, k)) == 0;
  }

  /** When it is safe to write to a file that has been opened again: the bytes written all go to blocks of the
      file if and only if it came back with four blocks of its own or more, or the write stays within those
      it came back with. */
  lemma ReopenedWriteIff(g: Geo, disk: Disk, f: File, data: seq<byte>, c: nat)
    requires Intact(g, disk, f, c)
    ensures var w := WriteAll(g, disk, Padded(f), data);
      HasBlocks(g, w.f.lay, f.cursor, f.cursor + w.written) <==> f.n >= 4 || f.cursor + |data| <= f.n * g.bs
  {
    hide Intact, WriteAll, WriteChunk, Reachable, HasBlocks, Pad;
    IntactIsReady(g, disk, f, c);
    var w := WriteAll(g, disk, Padded(f), data);
    if f.n >= 4 {
      PadIsDense(g.p, f.lay, f.n);
      WriteGrew(g, disk, f, data, c);
      SoundHasBlocks(g, w.f, w.disk.al, f.cursor, f.cursor + w.written);
    } else if f.cursor + |data| <= f.n * g.bs {
      OwnPart(g, disk, f, data, c);
      var own := WriteAll(g, disk, f, data);
      SoundHasBlocks(g, f, disk.al, f.cursor, f.cursor + |data|);
      PadHasBlocks(g, f.lay, f.cursor, f.cursor + |data|);
    } else {
      ReopenedShortFileWritesBootBlock(g, disk, f, data, c);
      PaddedReaches(g, disk, f, c);
      WriteReaches(g, disk, Padded(f), data, c);
      ForeignByte(g, f, w.f.lay, f.cursor, f.cursor + w.written);
    }
  }
}
