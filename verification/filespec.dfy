/**
 A file as one flat stretch of bytes, and what writing through the block tree does to it.

 `WriteAll` is the effect of udbfs_write_to_inode on values: the loop of the C function, one chunk
 per recursive call. The lemmas below say what that loop amounts to.
 */
module FileSpec {
  import opened Seqs
  import opened Arith
  import opened Bytes
  import opened Bitmap
  import opened Layouts

  /** An open file: its tree, which has n leaves, the cursor and the size. */
  datatype File = File(lay: Layout, n: nat, cursor: nat, size: nat)

  datatype Disk = Disk(dev: seq<byte>, al: Alloc)

  // ----- the bytes of a file -----

  /** The leaf that holds byte c of the file. */
  function LeafOf(g: Geo, c: nat): Pos {
    Leaf(c / g.bs)
  }

  /** Device address of byte c of the file. */
  function Address(g: Geo, lay: Layout, c: nat): nat {
    Id(lay, LeafOf(g, c)) * g.bs + c % g.bs
  }

  function DeviceByte(dev: seq<byte>, a: nat): byte {
    if a < |dev| then dev[a] else 0
  }

  function Content(g: Geo, dev: seq<byte>, lay: Layout, size: nat): (s: seq<byte>)
    ensures |s| == size
  {
    seq(size, c requires 0 <= c < size => DeviceByte(dev, Address(g, lay, c)))
  }

  ghost predicate WellPlaced(g: Geo, f: File) {
    && Dense(g.p, f.lay, f.n)
    && f.cursor <= f.size <= f.n * g.bs
  }

  /** Data blocks have ids of their own: nonzero, taken from the bitmap, one per leaf. */
  ghost predicate LeavesSound(lay: Layout, al: Alloc) {
    && (forall k :: Leaf(k) in lay ==> lay[Leaf(k)] != 0 && Clear(al, lay[Leaf(k)]))
    && (forall j, k :: Leaf(j) in lay && Leaf(k) in lay && lay[Leaf(j)] == lay[Leaf(k)] ==> j == k)
  }

  lemma SoundLeaves(lay: Layout, al: Alloc)
    requires Sound(lay, al)
    ensures LeavesSound(lay, al)
  {}

  lemma SameBlockSameByte(bs: nat, x: nat, i: nat, y: nat, j: nat)
    requires i < bs && j < bs && x * bs + i == y * bs + j
    ensures x == y && i == j
  {
    DivModUnique(bs, x, i);
    DivModUnique(bs, y, j);
  }

  /** Different bytes of a file sit at different addresses. */
  lemma AddressInjective(g: Geo, lay: Layout, al: Alloc, b: nat, c: nat)
    requires LeavesSound(lay, al)
    requires LeafOf(g, b) in lay && LeafOf(g, c) in lay
    requires Address(g, lay, b) == Address(g, lay, c)
    ensures b == c
  {
    var bs := g.bs;
    var i, r := DivModSplit(b, bs);
    var j, q := DivModSplit(c, bs);
    SameBlockSameByte(bs, lay[Leaf(i)], r, lay[Leaf(j)], q);
  }

  // ----- writing -----

  datatype Progress = Progress(disk: Disk, f: File, written: nat)

  function Min(a: nat, b: nat): nat { if a < b then a else b }
  function Max(a: nat, b: nat): nat { if a < b then b else a }

  /** The block for the next chunk: the one the cursor is in, or a new one at the end. */
  function Prepare(g: Geo, disk: Disk, f: File): (bool, Disk, File) {
    if LeafOf(g, f.cursor) in f.lay then (true, disk, f)
    else
      match Extend(g.p, f.lay, disk.al, f.n)
      case Extended(x) => (true, disk.(al := x.al), f.(lay := x.lay, n := f.n + 1))
      case Refused(x) => (false, disk.(al := x.al), f)
  }

  /** One turn of the write loop. Writes nothing when the block cannot be had or the device refuses. */
  function WriteChunk(g: Geo, disk: Disk, f: File, data: seq<byte>): (r: Progress)
    requires data != []
    ensures r.written <= |data|
  {
    var (ok, disk1, f1) := Prepare(g, disk, f);
    var bs := g.bs;
    var chunk := Min(bs - f.cursor % bs, |data|);
    var a := Address(g, f1.lay, f.cursor);
    if !ok || a + chunk > |disk1.dev| then Progress(disk1, f1, 0)
    else
      Progress(disk1.(dev := Splice(disk1.dev, a, data[..chunk])),
               f1.(cursor := f.cursor + chunk, size := Max(f.size, f.cursor + chunk)),
               chunk)
  }

  /** udbfs_write_to_inode: the state it leaves and the number of bytes it reports. */
  function WriteAll(g: Geo, disk: Disk, f: File, data: seq<byte>): (r: Progress)
    ensures r.written <= |data|
    decreases |data|
  {
    if data == [] then Progress(disk, f, 0)
    else
      var w := WriteChunk(g, disk, f, data);
      if w.written == 0 then w
      else
        var rest := WriteAll(g, w.disk, w.f, data[w.written..]);
        rest.(written := w.written + rest.written)
  }

  // ----- what writing never disturbs -----

  /** Everything a step of the write loop may change about the tree and the bitmap: it adds leaves at
      the end, taking their ids from free blocks below c, and clears bits. */
  ghost predicate Grew(g: Geo, disk: Disk, f: File, disk': Disk, f': File, c: nat) {
    && WellPlaced(g, f')
    && f'.n >= f.n
    && |disk'.dev| == |disk.dev|
    && Healthy(disk'.al, c)
    && |disk'.al.bits| == |disk.al.bits|
    && LeavesSound(f'.lay, disk'.al)
    && (forall s :: s in f.lay ==> s in f'.lay && f'.lay[s] == f.lay[s])
    && (forall j :: 0 <= j < |disk.al.bits| && !disk.al.bits[j] ==> !disk'.al.bits[j])
    && (forall k :: Leaf(k) in f'.lay && Leaf(k) !in f.lay ==>
          f'.lay[Leaf(k)] < c && f'.lay[Leaf(k)] < |disk.al.bits| && disk.al.bits[f'.lay[Leaf(k)]])
  }

  lemma GrewTrans(g: Geo, d1: Disk, f1: File, d2: Disk, f2: File, d3: Disk, f3: File, c: nat)
    requires Grew(g, d1, f1, d2, f2, c) && Grew(g, d2, f2, d3, f3, c)
    ensures Grew(g, d1, f1, d3, f3, c)
  {}

  lemma CursorInOrAtEnd(g: Geo, f: File)
    requires WellPlaced(g, f)
    ensures LeafOf(g, f.cursor) !in f.lay ==>
      f.cursor / g.bs == f.n && f.cursor == f.size == f.n * g.bs
  {
    var k, r := DivModSplit(f.cursor, g.bs);
    if k >= f.n {
      MulMono(f.n, k, g.bs);
      DivModIs(f.n * g.bs, g.bs, f.n, 0);
    }
  }

  lemma ExtendGrew(g: Geo, lay: Layout, al: Alloc, n: nat, c: nat)
    requires Dense(g.p, lay, n) && Healthy(al, c) && LeavesSound(lay, al)
    requires Extend(g.p, lay, al, n).Extended?
    ensures var x := Extend(g.p, lay, al, n).g;
      && Healthy(x.al, c)
      && |x.al.bits| == |al.bits|
      && LeavesSound(x.lay, x.al)
      && (forall j :: 0 <= j < |al.bits| && !al.bits[j] ==> !x.al.bits[j])
      && x.lay[Leaf(n)] < c && al.bits[x.lay[Leaf(n)]]
      && (forall k :: Leaf(k) in x.lay ==> Leaf(k) in lay || k == n)
  {
    ExtendAppends(g.p, lay, al, n);
    TakeHealthy(al, c);
    ExtendCosts(g.p, lay, al, n, c);
    PathDistinct(g.p, n);
    AddAllCounts(Growth(lay, Take(al).al), Path(g.p, n), c);
  }

  /** Finding room moves no byte, keeps the tree dense and finds the block of the cursor. */
  lemma PrepareGrew(g: Geo, disk: Disk, f: File, c: nat)
    requires WellPlaced(g, f) && Healthy(disk.al, c) && LeavesSound(f.lay, disk.al)
    ensures var (ok, disk1, f1) := Prepare(g, disk, f);
      && Grew(g, disk, f, disk1, f1, c)
      && f1.cursor == f.cursor && f1.size == f.size
      && disk1.dev == disk.dev
      && (ok ==> LeafOf(g, f.cursor) in f1.lay)
  {
    if LeafOf(g, f.cursor) !in f.lay {
      CursorInOrAtEnd(g, f);
      ExtendAppends(g.p, f.lay, disk.al, f.n);
      TakeHealthy(disk.al, c);
      if Extend(g.p, f.lay, disk.al, f.n).Extended? {
        MulMono(f.n, f.n + 1, g.bs);
        ExtendGrew(g, f.lay, disk.al, f.n, c);
      }
    }
  }

  lemma LeafOfByte(g: Geo, f: File, c: nat)
    requires WellPlaced(g, f) && c < f.n * g.bs
    ensures LeafOf(g, c) in f.lay
  {
    DivBelow(c, f.n, g.bs, f.n * g.bs);
  }

  /** What the write loop relies on. */
  ghost predicate Ready(g: Geo, disk: Disk, f: File, c: nat) {
    WellPlaced(g, f) && Healthy(disk.al, c) && LeavesSound(f.lay, disk.al)
  }

  lemma GrewThenMoved(g: Geo, disk: Disk, f: File, disk': Disk, f': File, c: nat,
                      dev: seq<byte>, cursor: nat, size: nat)
    requires Grew(g, disk, f, disk', f', c)
    requires |dev| == |disk'.dev| && cursor <= size <= f'.n * g.bs
    ensures Grew(g, disk, f, disk'.(dev := dev), f'.(cursor := cursor, size := size), c)
  {}

  lemma ChunkStaysInside(g: Geo, f: File, chunk: nat)
    requires WellPlaced(g, f) && LeafOf(g, f.cursor) in f.lay
    requires chunk <= g.bs - f.cursor % g.bs
    ensures f.cursor + chunk <= f.n * g.bs
  {
    var k, r := DivModSplit(f.cursor, g.bs);
    BlockEnd(k, f.n, g.bs);
  }

  lemma ChunkGrew(g: Geo, disk: Disk, f: File, data: seq<byte>, c: nat)
    requires data != [] && Ready(g, disk, f, c)
    ensures var w := WriteChunk(g, disk, f, data);
      && Grew(g, disk, f, w.disk, w.f, c)
      && w.f.cursor == f.cursor + w.written
      && w.f.size == Max(f.size, w.f.cursor)
  {
    PrepareGrew(g, disk, f, c);
    var (ok, disk1, f1) := Prepare(g, disk, f);
    var w := WriteChunk(g, disk, f, data);
    if w.written > 0 {
      ChunkStaysInside(g, f1, w.written);
      GrewThenMoved(g, disk, f, disk1, f1, c, w.disk.dev, w.f.cursor, w.f.size);
    }
  }

  lemma GrewIsReady(g: Geo, disk: Disk, f: File, disk': Disk, f': File, c: nat)
    requires Grew(g, disk, f, disk', f', c)
    ensures Ready(g, disk', f', c)
  {}

  lemma PreparePlaced(g: Geo, disk: Disk, f: File)
    requires WellPlaced(g, f)
    ensures var (ok, disk1, f1) := Prepare(g, disk, f);
      && WellPlaced(g, f1)
      && f1.cursor == f.cursor && f1.size == f.size
      && (ok ==> LeafOf(g, f.cursor) in f1.lay)
  {
    if LeafOf(g, f.cursor) !in f.lay {
      CursorInOrAtEnd(g, f);
      ExtendAppends(g.p, f.lay, disk.al, f.n);
      MulMono(f.n, f.n + 1, g.bs);
    }
  }

  /** The tree stays dense and the cursor inside, whatever the ids are. */
  lemma ChunkPlaced(g: Geo, disk: Disk, f: File, data: seq<byte>)
    requires data != [] && WellPlaced(g, f)
    ensures WellPlaced(g, WriteChunk(g, disk, f, data).f)
  {
    PreparePlaced(g, disk, f);
    var (ok, disk1, f1) := Prepare(g, disk, f);
    var w := WriteChunk(g, disk, f, data);
    if w.written > 0 {
      ChunkStaysInside(g, f1, w.written);
    }
  }

  // ----- a chunk lands where it belongs -----

  /** old with data written over it from position at on. */
  function Overwrite(old_: seq<byte>, at: nat, data: seq<byte>): (r: seq<byte>)
    requires at <= |old_|
    ensures |r| == Max(|old_|, at + |data|)
    ensures forall c :: 0 <= c < |r| ==>
      r[c] == if at <= c < at + |data| then data[c - at] else old_[c]
  {
    old_[..at] + data + (if at + |data| <= |old_| then old_[at + |data|..] else [])
  }

  lemma WithinBlock(g: Geo, lay: Layout, c: nat, j: nat)
    requires j < g.bs - c % g.bs
    ensures (c + j) / g.bs == c / g.bs
    ensures Address(g, lay, c + j) == Address(g, lay, c) + j
  {
    var k, r := DivModSplit(c, g.bs);
    DivModIs(c + j, g.bs, k, r + j);
  }

  /** The chunk's own bytes. */
  lemma ChunkByteInside(g: Geo, disk: Disk, f: File, data: seq<byte>, c: nat)
    requires data != []
    requires f.cursor <= c < f.cursor + WriteChunk(g, disk, f, data).written
    ensures var w := WriteChunk(g, disk, f, data);
      DeviceByte(w.disk.dev, Address(g, w.f.lay, c)) == data[c - f.cursor]
  {
    WithinBlock(g, WriteChunk(g, disk, f, data).f.lay, f.cursor, c - f.cursor);
  }

  /** An address the chunk covers belongs to a byte under it. */
  lemma ChunkCovers(g: Geo, lay: Layout, al: Alloc, cursor: nat, len: nat, c: nat)
    requires LeavesSound(lay, al) && len <= g.bs - cursor % g.bs
    requires LeafOf(g, cursor) in lay && LeafOf(g, c) in lay
    requires Address(g, lay, cursor) <= Address(g, lay, c) < Address(g, lay, cursor) + len
    ensures cursor <= c < cursor + len
  {
    var j := Address(g, lay, c) - Address(g, lay, cursor);
    WithinBlock(g, lay, cursor, j);
    AddressInjective(g, lay, al, cursor + j, c);
  }

  lemma ChunkByteOutside(g: Geo, disk: Disk, f: File, data: seq<byte>, al: nat, c: nat)
    requires data != [] && Ready(g, disk, f, al)
    requires c < f.size && !(f.cursor <= c < f.cursor + WriteChunk(g, disk, f, data).written)
    ensures var w := WriteChunk(g, disk, f, data);
      DeviceByte(w.disk.dev, Address(g, w.f.lay, c)) == DeviceByte(disk.dev, Address(g, f.lay, c))
  {
    var w := WriteChunk(g, disk, f, data);
    LeafOfByte(g, f, c);
    ChunkGrew(g, disk, f, data, al);
    assert Address(g, w.f.lay, c) == Address(g, f.lay, c);
    if w.written > 0 {
      var a, b := Address(g, w.f.lay, f.cursor), Address(g, w.f.lay, c);
      assert LeafOf(g, f.cursor) in w.f.lay by {
        PrepareGrew(g, disk, f, al);
      }
      assert !(a <= b < a + w.written) by {
        if a <= b < a + w.written {
          ChunkCovers(g, w.f.lay, w.disk.al, f.cursor, w.written, c);
        }
      }
    }
  }

  lemma ContentIs(g: Geo, dev: seq<byte>, lay: Layout, s: seq<byte>)
    requires forall c :: 0 <= c < |s| ==> DeviceByte(dev, Address(g, lay, c)) == s[c]
    ensures Content(g, dev, lay, |s|) == s
  {}

  lemma ChunkByte(g: Geo, disk: Disk, f: File, data: seq<byte>, al: nat, was: seq<byte>, w: Progress, c: nat)
    requires data != [] && Ready(g, disk, f, al)
    requires w == WriteChunk(g, disk, f, data) && was == Content(g, disk.dev, f.lay, f.size)
    requires c < Max(f.size, f.cursor + w.written)
    ensures DeviceByte(w.disk.dev, Address(g, w.f.lay, c)) == Overwrite(was, f.cursor, data[..w.written])[c]
  {
    hide WriteChunk, Address;
    if f.cursor <= c < f.cursor + w.written {
      ChunkByteInside(g, disk, f, data, c);
    } else {
      ChunkByteOutside(g, disk, f, data, al, c);
    }
  }

  lemma ChunkSplices(g: Geo, disk: Disk, f: File, data: seq<byte>, al: nat)
    requires data != [] && Ready(g, disk, f, al)
    ensures Splices(g, disk, f, data, WriteChunk(g, disk, f, data))
  {
    var w := WriteChunk(g, disk, f, data);
    var was := Content(g, disk.dev, f.lay, f.size);
    var want := Overwrite(was, f.cursor, data[..w.written]);
    assert w.f.cursor == f.cursor + w.written && w.f.size == Max(f.size, w.f.cursor) by {
      ChunkGrew(g, disk, f, data, al);
    }
    forall c: nat | c < |want|
      ensures DeviceByte(w.disk.dev, Address(g, w.f.lay, c)) == want[c]
    {
      ChunkByte(g, disk, f, data, al, was, w, c);
    }
    ContentIs(g, w.disk.dev, w.f.lay, want);
  }

  // ----- the write loop -----

  lemma OverwriteTwice(s: seq<byte>, s1: seq<byte>, s2: seq<byte>, at: nat, data: seq<byte>, a: nat, b: nat)
    requires at <= |s| && a + b <= |data|
    requires s1 == Overwrite(s, at, data[..a])
    requires s2 == Overwrite(s1, at + a, data[a..][..b])
    ensures s2 == Overwrite(s, at, data[..a + b])
  {}

  lemma WriteNothing(g: Geo, disk: Disk, f: File)
    ensures WriteAll(g, disk, f, []) == Progress(disk, f, 0)
  {}

  /** One turn of the loop, and the rest. */
  lemma WriteUnfolds(g: Geo, disk: Disk, f: File, data: seq<byte>) returns (w: Progress, rest: Progress)
    requires data != []
    ensures w == WriteChunk(g, disk, f, data)
    ensures w.written == 0 ==> WriteAll(g, disk, f, data) == w == rest
    ensures w.written > 0 ==>
      && rest == WriteAll(g, w.disk, w.f, data[w.written..])
      && WriteAll(g, disk, f, data) == rest.(written := w.written + rest.written)
  {
    w := WriteChunk(g, disk, f, data);
    rest := if w.written == 0 then w else WriteAll(g, w.disk, w.f, data[w.written..]);
  }

  lemma {:induction false} WriteGrew(g: Geo, disk: Disk, f: File, data: seq<byte>, al: nat)
    requires Ready(g, disk, f, al)
    ensures var w := WriteAll(g, disk, f, data);
      && Grew(g, disk, f, w.disk, w.f, al)
      && w.f.cursor == f.cursor + w.written
      && w.f.size == Max(f.size, w.f.cursor)
    decreases |data|
  {
    if data != [] {
      var w := WriteChunk(g, disk, f, data);
      ChunkGrew(g, disk, f, data, al);
      if w.written > 0 {
        GrewIsReady(g, disk, f, w.disk, w.f, al);
        WriteGrew(g, w.disk, w.f, data[w.written..], al);
        var rest := WriteAll(g, w.disk, w.f, data[w.written..]);
        GrewTrans(g, disk, f, w.disk, w.f, rest.disk, rest.f, al);
      }
    }
  }

  ghost predicate Splices(g: Geo, disk: Disk, f: File, data: seq<byte>, w: Progress) {
    && w.written <= |data|
    && f.cursor <= f.size
    && w.f.cursor == f.cursor + w.written
    && w.f.size == Max(f.size, w.f.cursor)
    && Content(g, w.disk.dev, w.f.lay, w.f.size) ==
       Overwrite(Content(g, disk.dev, f.lay, f.size), f.cursor, data[..w.written])
  }

  lemma SplicesNothing(g: Geo, disk: Disk, f: File, data: seq<byte>)
    requires f.cursor <= f.size
    ensures Splices(g, disk, f, data, Progress(disk, f, 0))
  {
    var s := Content(g, disk.dev, f.lay, f.size);
    assert Overwrite(s, f.cursor, data[..0]) == s;
  }

  lemma SplicesTwice(g: Geo, disk: Disk, f: File, data: seq<byte>, w: Progress, rest: Progress)
    requires Splices(g, disk, f, data, w)
    requires Splices(g, w.disk, w.f, data[w.written..], rest)
    ensures Splices(g, disk, f, data, rest.(written := w.written + rest.written))
  {
    OverwriteTwice(Content(g, disk.dev, f.lay, f.size), Content(g, w.disk.dev, w.f.lay, w.f.size),
                   Content(g, rest.disk.dev, rest.f.lay, rest.f.size), f.cursor, data, w.written, rest.written);
  }

  /** udbfs_write_to_inode splices: whatever happens to the bitmap or the device, the bytes it reports
      as written replace the bytes under the cursor, the rest of the file is as before, the cursor
      moves past them and the size grows to the cursor. */
  lemma {:induction false} WriteSplices(g: Geo, disk: Disk, f: File, data: seq<byte>, al: nat)
    requires Ready(g, disk, f, al)
    ensures Splices(g, disk, f, data, WriteAll(g, disk, f, data))
    decreases |data|
  {
    if data == [] {
      SplicesNothing(g, disk, f, data);
    } else {
      var w, rest := WriteUnfolds(g, disk, f, data);
      ChunkSplices(g, disk, f, data, al);
      if w.written > 0 {
        assert Ready(g, w.disk, w.f, al) by {
          ChunkGrew(g, disk, f, data, al);
          GrewIsReady(g, disk, f, w.disk, w.f, al);
        }
        WriteSplices(g, w.disk, w.f, data[w.written..], al);
        SplicesTwice(g, disk, f, data, w, rest);
      }
    }
  }

  // ----- writing with enough room -----

  /** Leaves that hold the first size bytes. */
  function LeavesFor(g: Geo, size: nat): nat {
    (size + g.bs - 1) / g.bs
  }

  /** Blocks that growing from n to m leaves consumes. */
  function BlocksFor(p: Fanout, n: nat, m: nat): nat
    decreases m - n
  {
    if m <= n then 0 else Need(p, n) + BlocksFor(p, n + 1, m)
  }

  function LeavesAfter(g: Geo, f: File, len: nat): nat {
    Max(f.n, LeavesFor(g, f.cursor + len))
  }

  /** What a caller can check before a write: the tree can hold it and the bitmap can pay for it. */
  predicate Affordable(g: Geo, al: Alloc, f: File, len: nat) {
    && LeavesAfter(g, f, len) <= Capacity(g.p)
    && BlocksFor(g.p, f.n, LeavesAfter(g, f, len)) <= al.free
  }

  /** All ids name blocks below c. */
  ghost predicate Below(lay: Layout, c: nat) {
    forall s :: s in lay ==> lay[s] < c
  }

  /** A tree whose ids are sound and lie on the device. */
  ghost predicate Intact(g: Geo, disk: Disk, f: File, c: nat) {
    && WellPlaced(g, f)
    && Healthy(disk.al, c)
    && c * g.bs <= |disk.dev|
    && Sound(f.lay, disk.al)
    && Below(f.lay, c)
  }

  /** disk' and f' hold exactly `cost` blocks more, all of them free before and below c. */
  ghost predicate Paid(disk: Disk, f: File, disk': Disk, f': File, c: nat, cost: nat) {
    && disk.al.free == disk'.al.free + cost
    && |f'.lay| == |f.lay| + cost
    && |disk'.al.bits| == |disk.al.bits|
    && |disk'.dev| == |disk.dev|
    && (forall s :: s in f.lay ==> s in f'.lay && f'.lay[s] == f.lay[s])
    && (forall j :: 0 <= j < |disk.al.bits| && !disk.al.bits[j] ==> !disk'.al.bits[j])
    && (forall s :: s in f'.lay && s !in f.lay ==>
          f'.lay[s] < c && f'.lay[s] < |disk.al.bits| && disk.al.bits[f'.lay[s]])
  }

  lemma PaidTrans(d1: Disk, f1: File, d2: Disk, f2: File, d3: Disk, f3: File, c: nat, a: nat, b: nat)
    requires Paid(d1, f1, d2, f2, c, a) && Paid(d2, f2, d3, f3, c, b)
    ensures Paid(d1, f1, d3, f3, c, a + b)
  {}

  lemma LeavesWithin(g: Geo, k: nat, x: nat)
    requires k * g.bs < x <= (k + 1) * g.bs
    ensures LeavesFor(g, x) == k + 1
  {
    assert (k + 1) * g.bs == k * g.bs + g.bs;
    DivModIs(x + g.bs - 1, g.bs, k + 1, x - 1 - k * g.bs);
  }

  lemma LeavesMono(g: Geo, x: nat, y: nat)
    requires x <= y
    ensures LeavesFor(g, x) <= LeavesFor(g, y)
  {
    DivMono(x + g.bs - 1, y + g.bs - 1, g.bs);
  }

  lemma {:induction false} BlocksForSplit(p: Fanout, n: nat, m: nat, k: nat)
    requires n <= m <= k
    ensures BlocksFor(p, n, k) == BlocksFor(p, n, m) + BlocksFor(p, m, k)
    decreases m - n
  {
    if n < m {
      BlocksForSplit(p, n + 1, m, k);
    }
  }

  /** The leaf count after the first chunk. */
  lemma LeavesAfterChunk(g: Geo, f: File, len: nat) returns (chunk: nat)
    requires WellPlaced(g, f) && len > 0
    ensures chunk == Min(g.bs - f.cursor % g.bs, len) && 0 < chunk <= len
    ensures LeavesAfter(g, f, chunk) == (if LeafOf(g, f.cursor) in f.lay then f.n else f.n + 1)
    ensures LeavesAfter(g, f, chunk) <= LeavesAfter(g, f, len)
  {
    chunk := Min(g.bs - f.cursor % g.bs, len);
    var k, r := DivModSplit(f.cursor, g.bs);
    assert (k + 1) * g.bs == k * g.bs + g.bs;
    LeavesWithin(g, k, f.cursor + chunk);
    LeavesMono(g, f.cursor + chunk, f.cursor + len);
    CursorInOrAtEnd(g, f);
  }

  lemma AddressBelow(g: Geo, dev: seq<byte>, lay: Layout, c: nat, cursor: nat, chunk: nat)
    requires Below(lay, c) && c * g.bs <= |dev|
    requires LeafOf(g, cursor) in lay && chunk <= g.bs - cursor % g.bs
    ensures Address(g, lay, cursor) + chunk <= |dev|
  {
    BlockEnd(lay[LeafOf(g, cursor)], c, g.bs);
  }

  lemma ExtendPaid(g: Geo, disk: Disk, f: File, c: nat)
    requires Intact(g, disk, f, c) && LeafOf(g, f.cursor) !in f.lay
    requires f.n < Capacity(g.p) && Need(g.p, f.n) <= disk.al.free
    ensures var (ok, disk1, f1) := Prepare(g, disk, f);
      && ok && f1.n == f.n + 1
      && Intact(g, disk1, f1, c)
      && Paid(disk, f, disk1, f1, c, Need(g.p, f.n))
  {
    CursorInOrAtEnd(g, f);
    MulMono(f.n, f.n + 1, g.bs);
    ExtendAppends(g.p, f.lay, disk.al, f.n);
    ExtendCosts(g.p, f.lay, disk.al, f.n, c);
    ExtendSound(g.p, f.lay, disk.al, f.n, c);
  }

  lemma PreparePaid(g: Geo, disk: Disk, f: File, c: nat)
    requires Intact(g, disk, f, c)
    requires LeafOf(g, f.cursor) !in f.lay ==> f.n < Capacity(g.p) && Need(g.p, f.n) <= disk.al.free
    ensures var (ok, disk1, f1) := Prepare(g, disk, f);
      && ok
      && Intact(g, disk1, f1, c)
      && f1.n == (if LeafOf(g, f.cursor) in f.lay then f.n else f.n + 1)
      && LeafOf(g, f.cursor) in f1.lay
      && Paid(disk, f, disk1, f1, c, BlocksFor(g.p, f.n, f1.n))
      && disk1.dev == disk.dev && f1.cursor == f.cursor && f1.size == f.size
  {
    if LeafOf(g, f.cursor) !in f.lay {
      ExtendPaid(g, disk, f, c);
      assert BlocksFor(g.p, f.n + 1, f.n + 1) == 0;
      SoundLeaves(f.lay, disk.al);
      PrepareGrew(g, disk, f, c);
    }
  }

  /** The cursor's block is there, or can be had in full. */
  predicate NextPayable(g: Geo, al: Alloc, f: File) {
    LeafOf(g, f.cursor) in f.lay || (f.n < Capacity(g.p) && Need(g.p, f.n) <= al.free)
  }

  /** One chunk that is paid for. */
  lemma PayableChunk(g: Geo, disk: Disk, f: File, data: seq<byte>, c: nat)
    requires data != [] && Intact(g, disk, f, c) && NextPayable(g, disk.al, f)
    ensures var w := WriteChunk(g, disk, f, data);
      && w.written > 0
      && Intact(g, w.disk, w.f, c)
      && w.f.cursor == f.cursor + w.written
      && w.f.n == LeavesAfter(g, f, w.written) <= LeavesAfter(g, f, |data|)
      && Paid(disk, f, w.disk, w.f, c, BlocksFor(g.p, f.n, w.f.n))
  {
    var chunk := LeavesAfterChunk(g, f, |data|);
    PreparePaid(g, disk, f, c);
    var (ok, disk1, f1) := Prepare(g, disk, f);
    AddressBelow(g, disk1.dev, f1.lay, c, f.cursor, chunk);
    ChunkStaysInside(g, f1, chunk);
    assert WriteChunk(g, disk, f, data).written == chunk;
  }

  /** What can be paid for as a whole can be begun. */
  lemma AffordableBegins(g: Geo, al: Alloc, f: File, len: nat)
    requires WellPlaced(g, f) && len > 0 && Affordable(g, al, f, len)
    ensures NextPayable(g, al, f)
  {
    var chunk := LeavesAfterChunk(g, f, len);
    if LeafOf(g, f.cursor) !in f.lay {
      BlocksForSplit(g.p, f.n, f.n + 1, LeavesAfter(g, f, len));
      assert BlocksFor(g.p, f.n + 1, f.n + 1) == 0;
    }
  }

  lemma ChunkPaid(g: Geo, disk: Disk, f: File, data: seq<byte>, c: nat)
    requires data != [] && Intact(g, disk, f, c) && Affordable(g, disk.al, f, |data|)
    ensures var w := WriteChunk(g, disk, f, data);
      && w.written > 0
      && Intact(g, w.disk, w.f, c)
      && w.f.cursor == f.cursor + w.written
      && w.f.n == LeavesAfter(g, f, w.written) <= LeavesAfter(g, f, |data|)
      && Paid(disk, f, w.disk, w.f, c, BlocksFor(g.p, f.n, w.f.n))
  {
    AffordableBegins(g, disk.al, f, |data|);
    PayableChunk(g, disk, f, data, c);
  }

  lemma AffordableRest(g: Geo, al: Alloc, f: File, al1: Alloc, f1: File, len: nat, k: nat)
    requires Affordable(g, al, f, len) && k <= len
    requires f1.cursor == f.cursor + k && f1.n == LeavesAfter(g, f, k) <= LeavesAfter(g, f, len)
    requires al.free == al1.free + BlocksFor(g.p, f.n, f1.n)
    ensures LeavesAfter(g, f1, len - k) == LeavesAfter(g, f, len)
    ensures Affordable(g, al1, f1, len - k)
    ensures BlocksFor(g.p, f.n, LeavesAfter(g, f, len)) ==
            BlocksFor(g.p, f.n, f1.n) + BlocksFor(g.p, f1.n, LeavesAfter(g, f, len))
  {
    BlocksForSplit(g.p, f.n, f1.n, LeavesAfter(g, f, len));
  }

  /** An affordable write is complete: every byte is written, the tree stays intact, and the free
      count drops by exactly the leaves and index blocks the file gains. */
  lemma {:induction false} WriteComplete(g: Geo, disk: Disk, f: File, data: seq<byte>, c: nat)
    requires data != [] && Intact(g, disk, f, c) && Affordable(g, disk.al, f, |data|)
    ensures var w := WriteAll(g, disk, f, data);
      && w.written == |data|
      && Intact(g, w.disk, w.f, c)
      && w.f.n == LeavesAfter(g, f, |data|)
      && Paid(disk, f, w.disk, w.f, c, BlocksFor(g.p, f.n, w.f.n))
    decreases |data|
  {
    hide Intact, Affordable, WriteChunk, WriteAll, LeavesAfter, BlocksFor;
    var w, rest := WriteUnfolds(g, disk, f, data);
    ChunkPaid(g, disk, f, data, c);
    var tail := data[w.written..];
    if tail == [] {
      WriteNothing(g, w.disk, w.f);
    } else {
      AffordableRest(g, disk.al, f, w.disk.al, w.f, |data|, w.written);
      WriteComplete(g, w.disk, w.f, tail, c);
      PaidTrans(disk, f, w.disk, w.f, rest.disk, rest.f, c,
                BlocksFor(g.p, f.n, w.f.n), BlocksFor(g.p, w.f.n, rest.f.n));
    }
  }

  // ----- exactly when a write is complete and sound -----

  /** What a chunk and the rest after it can pay for, the whole could. */
  lemma AffordableBack(g: Geo, al: Alloc, f: File, al1: Alloc, f1: File, len: nat, k: nat)
    requires k <= len && Affordable(g, al1, f1, len - k)
    requires f1.cursor == f.cursor + k && f1.n == LeavesAfter(g, f, k) <= LeavesAfter(g, f, len)
    requires al.free == al1.free + BlocksFor(g.p, f.n, f1.n)
    ensures Affordable(g, al, f, len)
  {
    BlocksForSplit(g.p, f.n, f1.n, LeavesAfter(g, f, len));
  }

  /** Nothing more to write is always affordable. */
  lemma NothingIsAffordable(g: Geo, al: Alloc, f: File)
    requires WellPlaced(g, f)
    ensures Affordable(g, al, f, 0)
  {
    DivBelow(f.cursor + g.bs - 1, f.n + 1, g.bs, (f.n + 1) * g.bs);
    assert (f.n + 1) * g.bs == f.n * g.bs + g.bs;
  }

  ghost predicate HasZero(lay: Layout) {
    exists s :: s in lay && lay[s] == 0
  }

  /** Where the next block cannot be paid for in full, nothing is written or an index block gets id 0. */
  lemma UnpaidChunk(g: Geo, disk: Disk, f: File, data: seq<byte>, c: nat)
    requires data != [] && Intact(g, disk, f, c) && !NextPayable(g, disk.al, f)
    ensures var w := WriteChunk(g, disk, f, data);
      w.written == 0 || HasZero(w.f.lay)
  {
    CursorInOrAtEnd(g, f);
    TakeHealthy(disk.al, c);
    if f.n < Capacity(g.p) && disk.al.free > 0 {
      ExtendCosts(g.p, f.lay, disk.al, f.n, c);
    }
  }

  /** The rest of a write keeps the ids there are. */
  lemma RestKeepsZero(g: Geo, disk: Disk, f: File, data: seq<byte>, c: nat)
    requires data != [] && Ready(g, disk, f, c)
    ensures var w := WriteChunk(g, disk, f, data);
      HasZero(w.f.lay) ==> HasZero(WriteAll(g, disk, f, data).f.lay)
  {
    var w, rest := WriteUnfolds(g, disk, f, data);
    if w.written > 0 && HasZero(w.f.lay) {
      ChunkGrew(g, disk, f, data, c);
      GrewIsReady(g, disk, f, w.disk, w.f, c);
      WriteGrew(g, w.disk, w.f, data[w.written..], c);
      var s :| s in w.f.lay && w.f.lay[s] == 0;
      assert s in rest.f.lay && rest.f.lay[s] == 0;
    }
  }

  /** A write that is not affordable stops early or leaves an id 0 in the tree. */
  lemma {:induction false} UnaffordableWrite(g: Geo, disk: Disk, f: File, data: seq<byte>, c: nat)
    requires data != [] && Intact(g, disk, f, c) && !Affordable(g, disk.al, f, |data|)
    ensures var w := WriteAll(g, disk, f, data);
      w.written < |data| || HasZero(w.f.lay)
    decreases |data|
  {
    hide Intact, Affordable, WriteChunk, WriteAll, LeavesAfter, BlocksFor, HasZero, NextPayable;
    IntactIsReady(g, disk, f, c);
    var w, rest := WriteUnfolds(g, disk, f, data);
    if NextPayable(g, disk.al, f) {
      PayableChunk(g, disk, f, data, c);
      var tail := data[w.written..];
      if Affordable(g, w.disk.al, w.f, |tail|) {
        AffordableBack(g, disk.al, f, w.disk.al, w.f, |data|, w.written);
      }
      if tail == [] {
        IntactIsReady(g, w.disk, w.f, c);
        NothingIsAffordable(g, w.disk.al, w.f);
      } else {
        UnaffordableWrite(g, w.disk, w.f, tail, c);
      }
    } else {
      UnpaidChunk(g, disk, f, data, c);
      RestKeepsZero(g, disk, f, data, c);
    }
  }

  lemma IntactIsReady(g: Geo, disk: Disk, f: File, c: nat)
    requires Intact(g, disk, f, c)
    ensures Ready(g, disk, f, c) && WellPlaced(g, f)
  {
    SoundLeaves(f.lay, disk.al);
  }

  /** The guard is exact: a write is complete and leaves ids that are nonzero and unshared if and only if
      the tree can hold it and the bitmap can pay for every data and index block it adds. */
  lemma WriteCompleteIff(g: Geo, disk: Disk, f: File, data: seq<byte>, c: nat)
    requires data != [] && Intact(g, disk, f, c)
    ensures var w := WriteAll(g, disk, f, data);
      (w.written == |data| && Sound(w.f.lay, w.disk.al)) <==> Affordable(g, disk.al, f, |data|)
  {
    if Affordable(g, disk.al, f, |data|) {
      WriteComplete(g, disk, f, data, c);
    } else {
      UnaffordableWrite(g, disk, f, data, c);
    }
  }

  // ----- isolation -----

  predicate InBlock(g: Geo, id: nat, a: nat) {
    id * g.bs <= a < id * g.bs + g.bs
  }

  /** Writing changes bytes only in data blocks of the file written. */
  lemma {:induction false} WriteTouches(g: Geo, disk: Disk, f: File, data: seq<byte>, al: nat, a: nat)
    requires Ready(g, disk, f, al) && a < |disk.dev|
    requires forall k :: Leaf(k) in WriteAll(g, disk, f, data).f.lay ==>
      !InBlock(g, WriteAll(g, disk, f, data).f.lay[Leaf(k)], a)
    ensures |WriteAll(g, disk, f, data).disk.dev| == |disk.dev|
    ensures WriteAll(g, disk, f, data).disk.dev[a] == disk.dev[a]
    decreases |data|
  {
    if data != [] {
      var w := WriteChunk(g, disk, f, data);
      WriteGrew(g, disk, f, data, al);
      assert Grew(g, disk, f, w.disk, w.f, al) by {
        ChunkGrew(g, disk, f, data, al);
      }
      if w.written > 0 {
        var rest := WriteAll(g, w.disk, w.f, data[w.written..]);
        GrewIsReady(g, disk, f, w.disk, w.f, al);
        WriteGrew(g, w.disk, w.f, data[w.written..], al);
        WriteTouches(g, w.disk, w.f, data[w.written..], al, a);
        ChunkTouches(g, disk, f, data, al, a);
      }
    }
  }

  lemma ChunkTouches(g: Geo, disk: Disk, f: File, data: seq<byte>, al: nat, a: nat)
    requires data != [] && Ready(g, disk, f, al) && a < |disk.dev|
    requires |WriteChunk(g, disk, f, data).disk.dev| == |disk.dev|
    requires WriteChunk(g, disk, f, data).written > 0
    ensures WriteChunk(g, disk, f, data).disk.dev[a] != disk.dev[a] ==>
      var lay := WriteChunk(g, disk, f, data).f.lay;
      LeafOf(g, f.cursor) in lay && InBlock(g, lay[LeafOf(g, f.cursor)], a)
  {
    PrepareGrew(g, disk, f, al);
  }

  // ----- reading -----

  /** The loop of udbfs_read_from_inode, one chunk per call: the bytes it moves before it is done or
      the device refuses. */
  function ReadLoop(g: Geo, dev: seq<byte>, lay: Layout, cursor: nat, len: nat): (s: seq<byte>)
    ensures |s| <= len
    decreases len
  {
    var bs := g.bs;
    var chunk := Min(bs - cursor % bs, len);
    var a := Address(g, lay, cursor);
    if len == 0 || a + chunk > |dev| then []
    else dev[a..a + chunk] + ReadLoop(g, dev, lay, cursor + chunk, len - chunk)
  }

  /** The bytes udbfs_read_from_inode returns. It asks for no more than the file has left. */
  function ReadAll(g: Geo, dev: seq<byte>, f: File, len: nat): seq<byte>
    requires f.cursor <= f.size
  {
    ReadLoop(g, dev, f.lay, f.cursor, Min(len, f.size - f.cursor))
  }

  lemma ReadUnfolds(g: Geo, dev: seq<byte>, lay: Layout, cursor: nat, len: nat) returns (chunk: nat)
    requires len > 0
    ensures chunk == Min(g.bs - cursor % g.bs, len) && 0 < chunk <= len
    ensures var a := Address(g, lay, cursor);
      ReadLoop(g, dev, lay, cursor, len) ==
      if a + chunk > |dev| then []
      else dev[a..a + chunk] + ReadLoop(g, dev, lay, cursor + chunk, len - chunk)
  {
    chunk := Min(g.bs - cursor % g.bs, len);
  }

  lemma ReadSomething(g: Geo, dev: seq<byte>, lay: Layout, cursor: nat, len: nat)
    ensures ReadLoop(g, dev, lay, cursor, len) != [] ==> len > 0
  {}

  /** A read of len bytes from start on, of which `got` is there and `left` bytes from the cursor on are not. */
  ghost predicate Reading(g: Geo, dev: seq<byte>, lay: Layout, start: nat, len: nat, got: seq<byte>, cursor: nat,
                          left: nat)
  {
    ReadLoop(g, dev, lay, start, len) == got + ReadLoop(g, dev, lay, cursor, left)
  }

  lemma ReadStarts(g: Geo, dev: seq<byte>, lay: Layout, start: nat, len: nat)
    ensures Reading(g, dev, lay, start, len, [], start, len)
  {
    hide ReadLoop;
    assert [] + ReadLoop(g, dev, lay, start, len) == ReadLoop(g, dev, lay, start, len);
  }

  lemma ReadGoesOn(g: Geo, dev: seq<byte>, lay: Layout, start: nat, len: nat, got: seq<byte>, cursor: nat, left: nat,
                   s: seq<byte>, k: nat)
    requires Reading(g, dev, lay, start, len, got, cursor, left) && |s| == k <= left
    requires ReadLoop(g, dev, lay, cursor, left) == s + ReadLoop(g, dev, lay, cursor + k, left - k)
    ensures Reading(g, dev, lay, start, len, got + s, cursor + k, left - k)
  {
    hide ReadLoop;
    var rest := ReadLoop(g, dev, lay, cursor + k, left - k);
    assert got + (s + rest) == got + s + rest;
  }

  lemma ReadEnds(g: Geo, dev: seq<byte>, lay: Layout, start: nat, len: nat, got: seq<byte>, cursor: nat, left: nat)
    requires Reading(g, dev, lay, start, len, got, cursor, left)
    requires left == 0 || ReadLoop(g, dev, lay, cursor, left) == []
    ensures ReadLoop(g, dev, lay, start, len) == got
  {
    assert got + [] == got;
  }

  lemma {:induction false} ReadLoopByte(g: Geo, dev: seq<byte>, lay: Layout, cursor: nat, len: nat, i: nat)
    requires i < |ReadLoop(g, dev, lay, cursor, len)|
    ensures ReadLoop(g, dev, lay, cursor, len)[i] == DeviceByte(dev, Address(g, lay, cursor + i))
    decreases len
  {
    hide Address, ReadLoop;
    ReadSomething(g, dev, lay, cursor, len);
    var chunk := ReadUnfolds(g, dev, lay, cursor, len);
    var a := Address(g, lay, cursor);
    ConcatAt(dev[a..a + chunk], ReadLoop(g, dev, lay, cursor + chunk, len - chunk), i);
    if i < chunk {
      WithinBlock(g, lay, cursor, i);
    } else {
      ReadLoopByte(g, dev, lay, cursor + chunk, len - chunk, i - chunk);
    }
  }

  lemma {:induction false} ReadLoopComplete(g: Geo, dev: seq<byte>, f: File, cursor: nat, len: nat, c: nat)
    requires WellPlaced(g, f) && cursor + len <= f.size
    requires Below(f.lay, c) && c * g.bs <= |dev|
    ensures |ReadLoop(g, dev, f.lay, cursor, len)| == len
    decreases len
  {
    if len > 0 {
      var chunk := Min(g.bs - cursor % g.bs, len);
      LeafOfByte(g, f, cursor);
      AddressBelow(g, dev, f.lay, c, cursor, chunk);
      ReadLoopComplete(g, dev, f, cursor + chunk, len - chunk, c);
    }
  }

  /** Reading returns the bytes of the file from the cursor on, as many as were moved. */
  lemma ReadIsContent(g: Geo, dev: seq<byte>, f: File, len: nat)
    requires f.cursor <= f.size
    ensures var s := ReadAll(g, dev, f, len);
      && f.cursor + |s| <= f.size
      && s == Content(g, dev, f.lay, f.size)[f.cursor..f.cursor + |s|]
  {
    var s := ReadAll(g, dev, f, len);
    forall i: nat | i < |s|
      ensures s[i] == Content(g, dev, f.lay, f.size)[f.cursor + i]
    {
      ReadLoopByte(g, dev, f.lay, f.cursor, Min(len, f.size - f.cursor), i);
    }
  }

  /** When the blocks of the file are on the device a read returns everything that was asked for and
      is there. */
  lemma ReadComplete(g: Geo, dev: seq<byte>, f: File, len: nat, c: nat)
    requires WellPlaced(g, f) && Below(f.lay, c) && c * g.bs <= |dev|
    ensures ReadAll(g, dev, f, len) ==
            Content(g, dev, f.lay, f.size)[f.cursor..f.cursor + Min(len, f.size - f.cursor)]
  {
    ReadIsContent(g, dev, f, len);
    ReadLoopComplete(g, dev, f, f.cursor, Min(len, f.size - f.cursor), c);
  }

  // ----- no block is lost -----

  /** Some position has this id. */
  ghost predicate Holder(lay: Layout, id: nat) {
    exists s :: s in lay && lay[s] == id
  }

  /** Every bit that adding index blocks clears is the id of one. */
  lemma {:induction false} AddAllHolds(x: Growth, ss: seq<Pos>, j: nat)
    requires j < |x.al.bits| && x.al.bits[j]
    requires j < |AddAll(x, ss).al.bits| ==> !AddAll(x, ss).al.bits[j]
    requires forall s :: s in ss ==> !s.Leaf?
    ensures exists s :: s in AddAll(x, ss).lay && !s.Leaf? && AddAll(x, ss).lay[s] == j
    decreases |ss|
  {
    if ss != [] {
      var x1 := Add(x, ss[0]);
      AddAllKeys(x1, ss[1..]);
      if x1.al.bits[j] {
        AddAllHolds(x1, ss[1..], j);
      } else {
        assert x1.lay[ss[0]] == j;
      }
    }
  }

  /** Every bit an extension clears is the id of a block it adds. */
  lemma ExtendHolds(p: Fanout, lay: Layout, al: Alloc, n: nat, j: nat)
    requires Extend(p, lay, al, n).Extended? && j < |al.bits| && al.bits[j]
    requires j < |Extend(p, lay, al, n).g.al.bits| ==> !Extend(p, lay, al, n).g.al.bits[j]
    ensures Holder(Extend(p, lay, al, n).g.lay, j)
  {
    var d := Take(al);
    var g := Extend(p, lay, al, n).g;
    if j == d.id {
      assert g.lay[Leaf(n)] == j;
    } else {
      PathDistinct(p, n);
      AddAllHolds(Growth(lay, d.al), Path(p, n), j);
      var x := AddAll(Growth(lay, d.al), Path(p, n));
      var s :| s in x.lay && !s.Leaf? && x.lay[s] == j;
      assert g.lay[s] == j;
    }
  }

  lemma ChunkHolds(g: Geo, disk: Disk, f: File, data: seq<byte>, c: nat, j: nat)
    requires data != [] && Intact(g, disk, f, c) && Affordable(g, disk.al, f, |data|)
    requires j < |disk.al.bits| && disk.al.bits[j]
    ensures var w := WriteChunk(g, disk, f, data);
      j < |w.disk.al.bits| && (w.disk.al.bits[j] || Holder(w.f.lay, j))
  {
    ChunkPaid(g, disk, f, data, c);
    if LeafOf(g, f.cursor) !in f.lay && Extend(g.p, f.lay, disk.al, f.n).Extended?
      && !WriteChunk(g, disk, f, data).disk.al.bits[j]
    {
      ExtendHolds(g.p, f.lay, disk.al, f.n, j);
    }
  }

  /** A write that is paid for loses no block: a bit that was set is still set, or some position of
      the file has the id. */
  lemma {:induction false} WriteHolds(g: Geo, disk: Disk, f: File, data: seq<byte>, c: nat, j: nat)
    requires Intact(g, disk, f, c) && Affordable(g, disk.al, f, |data|)
    requires j < |disk.al.bits| && disk.al.bits[j]
    ensures var w := WriteAll(g, disk, f, data);
      j < |w.disk.al.bits| && (w.disk.al.bits[j] || Holder(w.f.lay, j))
    decreases |data|
  {
    if data != [] {
      hide Intact, Affordable, WriteChunk, LeavesAfter;
      var w, rest := WriteUnfolds(g, disk, f, data);
      var tail := data[w.written..];
      ChunkPaid(g, disk, f, data, c);
      ChunkHolds(g, disk, f, data, c, j);
      AffordableRest(g, disk.al, f, w.disk.al, w.f, |data|, w.written);
      if w.disk.al.bits[j] {
        WriteHolds(g, w.disk, w.f, tail, c, j);
      } else {
        HolderStays(g, w.disk, w.f, tail, c, j);
      }
    }
  }

  lemma HolderStays(g: Geo, disk: Disk, f: File, data: seq<byte>, c: nat, j: nat)
    requires Intact(g, disk, f, c) && Affordable(g, disk.al, f, |data|) && Holder(f.lay, j) && j < |disk.al.bits|
    ensures Holder(WriteAll(g, disk, f, data).f.lay, j)
    ensures j < |WriteAll(g, disk, f, data).disk.al.bits|
  {
    if data != [] {
      WriteComplete(g, disk, f, data, c);
      var s :| s in f.lay && f.lay[s] == j;
      assert s in WriteAll(g, disk, f, data).f.lay;
    }
  }

  /** Every block that was free or held still is. */
  ghost predicate NoneLost(lay: Layout, al: Alloc, lay': Layout, al': Alloc) {
    forall j: nat :: j < |al.bits| && (al.bits[j] || Holder(lay, j)) ==>
      Holder(lay', j) || (j < |al'.bits| && al'.bits[j])
  }

  /** A tree that is full loses the block the library takes before it looks for a place: the block was
      free, is free no more, and nobody holds it. */
  lemma FullTreeLosesBlock(p: Fanout, lay: Layout, al: Alloc, c: nat)
    requires Dense(p, lay, Capacity(p)) && Healthy(al, c) && Sound(lay, al) && al.free > 0
    ensures var e, id := Extend(p, lay, al, Capacity(p)), Take(al).id;
      && e.Refused? && e.g.lay == lay && e.g.al.free == al.free - 1
      && id < |al.bits| && al.bits[id] && Clear(e.g.al, id) && !Holder(lay, id)
  {
    TakeHealthy(al, c);
  }

  /** An extension loses no block if and only if the tree has room for the leaf or no block is free. */
  lemma ExtendLosesNoneIff(p: Fanout, lay: Layout, al: Alloc, n: nat, c: nat)
    requires Dense(p, lay, n) && Healthy(al, c) && Sound(lay, al)
    ensures var g := Extend(p, lay, al, n).g;
      NoneLost(lay, al, g.lay, g.al) <==> n < Capacity(p) || al.free == 0
  {
    var e := Extend(p, lay, al, n);
    TakeHealthy(al, c);
    ExtendAppends(p, lay, al, n);
    if al.free > 0 && n == Capacity(p) {
      FullTreeLosesBlock(p, lay, al, c);
      assert !NoneLost(lay, al, e.g.lay, e.g.al);
    } else if al.free > 0 {
      forall j: nat | j < |al.bits| && (al.bits[j] || Holder(lay, j))
        ensures Holder(e.g.lay, j) || (j < |e.g.al.bits| && e.g.al.bits[j])
      {
        StillThere(p, lay, al, n, j);
      }
    }
  }

  lemma StillThere(p: Fanout, lay: Layout, al: Alloc, n: nat, j: nat)
    requires Dense(p, lay, n) && Extend(p, lay, al, n).Extended?
    requires j < |al.bits| && (al.bits[j] || Holder(lay, j))
    ensures var g := Extend(p, lay, al, n).g;
      Holder(g.lay, j) || (j < |g.al.bits| && g.al.bits[j])
  {
    ExtendAppends(p, lay, al, n);
    var g := Extend(p, lay, al, n).g;
    if Holder(lay, j) {
      var s :| s in lay && lay[s] == j;
      assert s in g.lay && g.lay[s] == j;
    } else if !(j < |g.al.bits| && g.al.bits[j]) {
      ExtendHolds(p, lay, al, n, j);
    }
  }
}
