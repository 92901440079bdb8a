/**
 The file system as a whole: many files on one device, opened, written, read and closed in any order.

 `Step` is one call of the library on the values the other modules define. The invariant `Inv` says
 that no block is shared and that closed files are on the device. The main result, RunRefines, is
 that every run of allowed calls behaves like a system in which a file simply is a sequence of bytes
 with a cursor.
 */
module Systems {
  import opened Arith
  import opened Bytes
  import opened Bitmap
  import opened Layouts
  import opened FileSpec
  import opened OnDisk

  /** A file. `core` is the file whose blocks it owns; `mem` is what an open inode holds of it, which
      after reopening may have empty direct blocks that `core` has not. */
  datatype Entry = Entry(core: File, mem: File, open: bool)

  datatype System = System(g: Geo, dev: seq<byte>, blocks: Alloc, inodes: Alloc, table: nat, files: map<nat, Entry>)

  /** What the format fixed: usable blocks and inodes, and the blocks kept for metadata. */
  datatype Limits = Limits(blocks: nat, inodes: nat, meta: nat)

  datatype Op =
    Create | Write(id: nat, data: seq<byte>) | Read(id: nat, len: nat) | CloseFile(id: nat) | OpenFile(id: nat)

  datatype Out = Made(id: nat) | Wrote(count: nat) | Got(bytes: seq<byte>) | Done

  /** Device address of an inode record. */
  function RecordOf(s: System, id: nat): nat {
    s.table + RECORD_SIZE * id
  }

  // ----- the calls -----

  const EMPTY: File := File(map[], 0, 0, 0)

  /** A call the library can honour, as a caller can tell beforehand: there is a free inode; the file
      is open, or not; a write stays within the blocks the file has, or the tree and the bitmap have
      room for what it adds and the file is not one that came back with fewer than four blocks. */
  predicate Allowed(s: System, op: Op) {
    match op
    case Create => s.inodes.free > 0
    case Write(id, data) =>
      && id in s.files && s.files[id].open
      && (var e := s.files[id];
          && e.core.cursor + |data| < WORD_LIMIT
          && (e.core.cursor + |data| <= e.core.n * s.g.bs
              || (e.mem == e.core && Affordable(s.g, s.blocks, e.core, |data|))))
    case Read(id, _) => id in s.files && s.files[id].open
    case CloseFile(id) => id in s.files && s.files[id].open
    case OpenFile(id) => id in s.files && !s.files[id].open
  }

  function WriteStep(s: System, id: nat, data: seq<byte>): (System, Out)
    requires id in s.files
  {
    var e := s.files[id];
    var w := WriteAll(s.g, Disk(s.dev, s.blocks), e.mem, data);
    var core := if e.mem == e.core then w.f else e.core.(cursor := w.f.cursor, size := w.f.size);
    (s.(dev := w.disk.dev, blocks := w.disk.al, files := s.files[id := Entry(core, w.f, true)]), Wrote(w.written))
  }

  function ReadStep(s: System, id: nat, len: nat): (System, Out)
    requires id in s.files && s.files[id].mem.cursor <= s.files[id].mem.size
  {
    var e := s.files[id];
    var bytes := ReadAll(s.g, s.dev, e.mem, len);
    (s.(files := s.files[id := Entry(e.core.(cursor := e.core.cursor + |bytes|),
                                     e.mem.(cursor := e.mem.cursor + |bytes|), true)]), Got(bytes))
  }

  function CloseStep(s: System, id: nat): (System, Out)
    requires id in s.files
  {
    var e := s.files[id];
    (s.(dev := Close(s.g, s.dev, e.mem.lay, RecordOf(s, id), e.mem.size),
        files := s.files[id := e.(open := false)]), Done)
  }

  /** The tree and the size come from the device. */
  function OpenStep(s: System, id: nat): (System, Out)
    requires id in s.files && s.g.bs == 8 * s.g.p && RecordOf(s, id) + RECORD_SIZE <= |s.dev|
  {
    var e := s.files[id];
    var mem := File(Load(s.g, s.dev, RecordOf(s, id)).lay, Max(e.core.n, 4), 0, Word(s.dev, RecordOf(s, id)));
    (s.(files := s.files[id := Entry(e.core.(cursor := 0), mem, true)]), Done)
  }

  /** The record of every file is on the device, and no cursor is past the end. */
  predicate Callable(s: System) {
    && s.g.bs == 8 * s.g.p
    && forall id :: id in s.files ==>
         RecordOf(s, id) + RECORD_SIZE <= |s.dev| && s.files[id].mem.cursor <= s.files[id].mem.size
  }

  function Step(s: System, op: Op): (System, Out)
    requires Callable(s) && Allowed(s, op)
  {
    match op
    case Create =>
      var t := Take(s.inodes);
      (s.(inodes := t.al, files := s.files[t.id := Entry(EMPTY, EMPTY, true)]), Made(t.id))
    case Write(id, data) => WriteStep(s, id, data)
    case Read(id, len) => ReadStep(s, id, len)
    case CloseFile(id) => CloseStep(s, id)
    case OpenFile(id) => OpenStep(s, id)
  }

  // ----- the invariant -----

  /** What an open inode holds of a file after reopening. */
  function Padded(f: File): File {
    f.(lay := Pad(f.lay), n := Max(f.n, 4))
  }

  ghost predicate Grounded(s: System, l: Limits) {
    && s.g.bs == 8 * s.g.p
    && Healthy(s.blocks, l.blocks) && Healthy(s.inodes, l.inodes)
    && l.blocks <= WORD_LIMIT && l.blocks * s.g.bs <= |s.dev|
    && s.table + RECORD_SIZE * l.inodes <= l.meta * s.g.bs && l.meta <= l.blocks
    && forall j :: 0 <= j < l.meta ==> !s.blocks.bits[j]
  }

  /** The ids of a tree name data blocks of the device. */
  ghost predicate InData(lay: Layout, l: Limits) {
    forall p :: p in lay ==> l.meta <= lay[p] < l.blocks
  }

  ghost predicate EntryOk(s: System, l: Limits, id: nat)
    requires id in s.files
  {
    var e := s.files[id];
    && 0 < id < l.inodes && Clear(s.inodes, id)
    && WellPlaced(s.g, e.core) && Sound(e.core.lay, s.blocks) && InData(e.core.lay, l)
    && e.core.size < WORD_LIMIT
    && (e.mem == e.core || e.mem == Padded(e.core))
    && (e.open || Stored(s.g, s.dev, e.core.lay, RecordOf(s, id), e.core.size))
  }

  /** No block belongs to two trees. */
  ghost predicate Disjoint(a: Layout, b: Layout) {
    forall p, q :: p in a && q in b ==> a[p] != b[q]
  }

  ghost predicate Inv(s: System, l: Limits) {
    && Grounded(s, l)
    && (forall id :: id in s.files ==> EntryOk(s, l, id))
    && (forall i, j :: i in s.files && j in s.files && i != j ==> Disjoint(s.files[i].core.lay, s.files[j].core.lay))
  }

  lemma RecordInMeta(s: System, l: Limits, id: nat)
    requires Grounded(s, l) && id < l.inodes
    ensures RecordOf(s, id) + RECORD_SIZE <= l.meta * s.g.bs <= |s.dev|
  {
    MulMono(l.meta, l.blocks, s.g.bs);
  }

  lemma InvCallable(s: System, l: Limits)
    requires Inv(s, l)
    ensures Callable(s)
  {
    forall id | id in s.files
      ensures RecordOf(s, id) + RECORD_SIZE <= |s.dev| && s.files[id].mem.cursor <= s.files[id].mem.size
    {
      assert EntryOk(s, l, id);
      RecordInMeta(s, l, id);
    }
  }

  // ----- the simple system -----

  /** A file as its user sees it. */
  datatype Simple = Simple(content: seq<byte>, cursor: nat, open: bool)

  function Seen(s: System, id: nat): Simple
    requires id in s.files
  {
    var e := s.files[id];
    Simple(Content(s.g, s.dev, e.core.lay, e.core.size), e.core.cursor, e.open)
  }

  function View(s: System): map<nat, Simple> {
    map id | id in s.files :: Seen(s, id)
  }

  /** The outcome the user expects of a call. */
  predicate Expected(a: map<nat, Simple>, op: Op, out: Out) {
    match op
    case Create => out.Made? && out.id !in a && out.id != 0
    case Write(id, data) => id in a && a[id].open && out == Wrote(|data|)
    case Read(id, len) =>
      && id in a && a[id].open && a[id].cursor <= |a[id].content|
      && out == Got(a[id].content[a[id].cursor..a[id].cursor + Min(len, |a[id].content| - a[id].cursor)])
    case CloseFile(id) => id in a && a[id].open && out == Done
    case OpenFile(id) => id in a && !a[id].open && out == Done
  }

  /** What the user expects afterwards. */
  function After(a: map<nat, Simple>, op: Op, out: Out): map<nat, Simple>
    requires Expected(a, op, out)
  {
    match op
    case Create => a[out.id := Simple([], 0, true)]
    case Write(id, data) =>
      if a[id].cursor > |a[id].content| then a
      else a[id := Simple(Overwrite(a[id].content, a[id].cursor, data), a[id].cursor + |data|, true)]
    case Read(id, _) => a[id := a[id].(cursor := a[id].cursor + |out.bytes|)]
    case CloseFile(id) => a[id := a[id].(open := false)]
    case OpenFile(id) => a[id := a[id].(cursor := 0, open := true)]
  }

  ghost predicate Meets(s: System, l: Limits, op: Op, s': System, out: Out) {
    && Inv(s', l)
    && Expected(View(s), op, out)
    && View(s') == After(View(s), op, out)
  }

  // ----- what a call leaves alone -----

  /** Address a belongs to a block of the tree or to the record. */
  ghost predicate Owns(g: Geo, lay: Layout, rec: nat, a: nat) {
    rec <= a < rec + RECORD_SIZE || exists p :: p in lay && InBlock(g, lay[p], a)
  }

  lemma StoredElsewhere(g: Geo, dev: seq<byte>, dev': seq<byte>, lay: Layout, rec: nat, size: nat)
    requires Stored(g, dev, lay, rec, size) && |dev'| == |dev| && g.bs == 8 * g.p
    requires forall a :: 0 <= a < |dev| && Owns(g, lay, rec, a) ==> dev'[a] == dev[a]
    ensures Stored(g, dev', lay, rec, size)
  {
    forall s, k: nat | s in lay && !s.Leaf? && k < g.p
      ensures SlotStored(g, dev', lay, s, k)
    {
      assert SlotStored(g, dev, lay, s, k);
      SlotInBlock(g, lay[s], k);
      forall a | SlotAddress(g, lay[s], k) <= a < SlotAddress(g, lay[s], k) + 8
        ensures dev'[a] == dev[a]
      {
        assert InBlock(g, lay[s], a);
      }
      WordUntouched(dev, dev', SlotAddress(g, lay[s], k));
    }
    WordUntouched(dev, dev', rec);
    forall j: nat | j < 7
      ensures WordIs(dev', rec + 8 + 8 * j, Id(lay, Root(j)))
    {
      assert WordIs(dev, rec + 8 + 8 * j, Id(lay, Root(j)));
      WordUntouched(dev, dev', rec + 8 + 8 * j);
    }
  }

  lemma ContentElsewhere(g: Geo, dev: seq<byte>, dev': seq<byte>, f: File, rec: nat)
    requires WellPlaced(g, f) && |dev'| == |dev|
    requires forall a :: 0 <= a < |dev| && Owns(g, f.lay, rec, a) ==> dev'[a] == dev[a]
    ensures Content(g, dev', f.lay, f.size) == Content(g, dev, f.lay, f.size)
  {
    forall c: nat | c < f.size
      ensures DeviceByte(dev', Address(g, f.lay, c)) == DeviceByte(dev, Address(g, f.lay, c))
    {
      LeafOfByte(g, f, c);
      AddressInBlock(g, f.lay, c);
    }
  }

  /** s' differs from s in file id, in clear bits and in bytes that file id owns in s'. */
  ghost predicate Confined(s: System, s': System, l: Limits, id: nat) {
    && s'.g == s.g && s'.table == s.table && |s'.dev| == |s.dev|
    && id in s'.files && s.files.Keys + {id} == s'.files.Keys
    && (forall j :: j in s.files && j != id ==> s'.files[j] == s.files[j])
    && (forall j: nat :: Clear(s.blocks, j) ==> Clear(s'.blocks, j))
    && (forall j: nat :: Clear(s.inodes, j) ==> Clear(s'.inodes, j))
    && (forall a :: 0 <= a < |s.dev| && s'.dev[a] != s.dev[a] ==> Owns(s.g, s'.files[id].core.lay, RecordOf(s, id), a))
  }

  lemma OwnsApart(s: System, l: Limits, i: nat, a: Layout, j: nat, b: Layout, x: nat)
    requires Grounded(s, l) && i < l.inodes && j < l.inodes && i != j
    requires InData(a, l) && InData(b, l) && Disjoint(a, b)
    requires Owns(s.g, a, RecordOf(s, i), x)
    ensures !Owns(s.g, b, RecordOf(s, j), x)
  {
    RecordInMeta(s, l, i);
    RecordInMeta(s, l, j);
    forall q | q in b
      ensures !InBlock(s.g, b[q], x)
    {
      MulMono(l.meta, b[q], s.g.bs);
      forall p | p in a && InBlock(s.g, a[p], x) && InBlock(s.g, b[q], x)
        ensures false
      {
        SameBlock(s.g, a[p], b[q], x);
      }
    }
    forall p | p in a
      ensures l.meta * s.g.bs <= a[p] * s.g.bs
    {
      MulMono(l.meta, a[p], s.g.bs);
    }
  }

  /** A file none of whose bytes change stays as it is. */
  lemma FileElsewhere(s: System, s': System, l: Limits, j: nat)
    requires s'.g == s.g && s'.table == s.table && |s'.dev| == |s.dev| && s.g.bs == 8 * s.g.p
    requires j in s.files && j in s'.files && s'.files[j] == s.files[j] && EntryOk(s, l, j)
    requires forall k: nat :: Clear(s.blocks, k) ==> Clear(s'.blocks, k)
    requires forall k: nat :: Clear(s.inodes, k) ==> Clear(s'.inodes, k)
    requires forall a :: 0 <= a < |s.dev| && Owns(s.g, s.files[j].core.lay, RecordOf(s, j), a) ==> s'.dev[a] == s.dev[a]
    ensures EntryOk(s', l, j) && Seen(s', j) == Seen(s, j)
  {
    var f := s.files[j].core;
    ContentElsewhere(s.g, s.dev, s'.dev, f, RecordOf(s, j));
    if !s.files[j].open {
      StoredElsewhere(s.g, s.dev, s'.dev, f.lay, RecordOf(s, j), f.size);
    }
  }

  /** The other files stay as they are. */
  lemma OtherFile(s: System, s': System, l: Limits, id: nat, j: nat)
    requires Grounded(s, l) && Confined(s, s', l, id) && id < l.inodes
    requires j in s.files && j != id && EntryOk(s, l, j)
    requires InData(s'.files[id].core.lay, l) && Disjoint(s'.files[id].core.lay, s.files[j].core.lay)
    ensures EntryOk(s', l, j) && Seen(s', j) == Seen(s, j)
  {
    var f := s.files[j].core;
    forall a | 0 <= a < |s.dev| && Owns(s.g, f.lay, RecordOf(s, j), a)
      ensures s'.dev[a] == s.dev[a]
    {
      if s'.dev[a] != s.dev[a] {
        OwnsApart(s, l, id, s'.files[id].core.lay, j, f.lay, a);
      }
    }
    FileElsewhere(s, s', l, j);
  }

  lemma DisjointSym(a: Layout, b: Layout)
    requires Disjoint(a, b)
    ensures Disjoint(b, a)
  {}

  lemma StillDisjoint(s: System, s': System, l: Limits, id: nat, i: nat, j: nat)
    requires Inv(s, l) && Confined(s, s', l, id) && i in s'.files && j in s'.files && i != j
    requires forall k :: k in s.files && k != id ==> Disjoint(s'.files[id].core.lay, s.files[k].core.lay)
    ensures Disjoint(s'.files[i].core.lay, s'.files[j].core.lay)
  {
    hide EntryOk, Grounded, Disjoint, Owns;
    if i == id {
      assert Disjoint(s'.files[id].core.lay, s.files[j].core.lay);
    } else if j == id {
      DisjointSym(s'.files[id].core.lay, s.files[i].core.lay);
    } else {
      assert Disjoint(s.files[i].core.lay, s.files[j].core.lay);
    }
  }

  /** A call that is confined to file id and leaves it in order changes nothing else anyone sees. */
  lemma ConfinedStep(s: System, s': System, l: Limits, id: nat)
    requires Inv(s, l) && Grounded(s', l) && Confined(s, s', l, id) && id < l.inodes
    requires EntryOk(s', l, id)
    requires forall j :: j in s.files && j != id ==> Disjoint(s'.files[id].core.lay, s.files[j].core.lay)
    ensures Inv(s', l)
    ensures View(s') == View(s)[id := Seen(s', id)]
  {
    hide EntryOk, Grounded, Disjoint, Owns, Seen;
    assert InData(s'.files[id].core.lay, l) by {
      EntryInData(s', l, id);
    }
    forall j | j in s.files && j != id
      ensures EntryOk(s', l, j) && Seen(s', j) == Seen(s, j)
    {
      OtherFile(s, s', l, id, j);
    }
    forall i, j | i in s'.files && j in s'.files && i != j
      ensures Disjoint(s'.files[i].core.lay, s'.files[j].core.lay)
    {
      StillDisjoint(s, s', l, id, i, j);
    }
  }

  lemma EntryInData(s: System, l: Limits, id: nat)
    requires id in s.files && EntryOk(s, l, id)
    ensures InData(s.files[id].core.lay, l)
  {}

  // ----- creating -----

  lemma CreateMeets(s: System, l: Limits)
    requires Inv(s, l) && Callable(s) && Allowed(s, Create)
    ensures Meets(s, l, Create, Step(s, Create).0, Step(s, Create).1)
  {
    hide Owns, Stored, Take;
    var (s', out) := Step(s, Create);
    var id := out.id;
    TakeHealthy(s.inodes, l.inodes);
    assert id !in s.files;
    EmptyIsDense(s.g.p);
    assert EntryOk(s', l, id);
    ConfinedStep(s, s', l, id);
    assert Seen(s', id) == Simple([], 0, true);
  }

  // ----- writing -----

  /** Within its own blocks a file that came back padded is written like the file it was. */
  lemma {:induction false} PaddedWrite(g: Geo, disk: Disk, f: File, data: seq<byte>)
    requires WellPlaced(g, f) && f.cursor + |data| <= f.n * g.bs
    ensures var w := WriteAll(g, disk, f, data);
      && w.f.lay == f.lay && w.f.n == f.n
      && WriteAll(g, disk, Padded(f), data) == w.(f := Padded(w.f))
    decreases |data|
  {
    if data != [] {
      LeafOfByte(g, f, f.cursor);
      PadKeepsIds(f.lay);
      ChunkPlaced(g, disk, f, data);
      var w := WriteChunk(g, disk, f, data);
      assert WriteChunk(g, disk, Padded(f), data) == w.(f := Padded(w.f));
      if w.written > 0 {
        PaddedWrite(g, w.disk, w.f, data[w.written..]);
      }
    }
  }

  lemma LeavesWithinFile(g: Geo, n: nat, x: nat)
    requires x <= n * g.bs
    ensures LeavesFor(g, x) <= n
  {
    DivBelow(x + g.bs - 1, n + 1, g.bs, (n + 1) * g.bs);
    assert (n + 1) * g.bs == n * g.bs + g.bs;
  }

  /** Writing within the blocks of the file costs nothing. */
  lemma WithinIsAffordable(g: Geo, al: Alloc, f: File, len: nat)
    requires WellPlaced(g, f) && f.cursor + len <= f.n * g.bs
    ensures Affordable(g, al, f, len)
  {
    LeavesWithinFile(g, f.n, f.cursor + len);
  }

  /** The write seen by the file whose blocks are written. */
  lemma CoreWrite(g: Geo, disk: Disk, core: File, mem: File, data: seq<byte>) returns (mem': File)
    requires WellPlaced(g, core) && (mem == core || mem == Padded(core))
    requires mem != core ==> core.cursor + |data| <= core.n * g.bs
    ensures var w := WriteAll(g, disk, core, data);
      && WriteAll(g, disk, mem, data) == w.(f := mem')
      && (mem' == w.f || mem' == Padded(w.f))
      && w.f == (if mem == core then mem' else core.(cursor := mem'.cursor, size := mem'.size))
  {
    mem' := WriteAll(g, disk, mem, data).f;
    if mem != core {
      PaddedWrite(g, disk, core, data);
    }
  }

  /** A write to a tree that is intact and can pay for it is complete and splices. */
  lemma PaidWrite(g: Geo, disk: Disk, f: File, data: seq<byte>, c: nat)
    requires Intact(g, disk, f, c) && Affordable(g, disk.al, f, |data|)
    ensures var w := WriteAll(g, disk, f, data);
      && w.written == |data|
      && Intact(g, w.disk, w.f, c)
      && Paid(disk, f, w.disk, w.f, c, BlocksFor(g.p, f.n, w.f.n))
      && Splices(g, disk, f, data, w)
  {
    SoundLeaves(f.lay, disk.al);
    WriteSplices(g, disk, f, data, c);
    if data == [] {
      assert BlocksFor(g.p, f.n, f.n) == 0;
    } else {
      WriteComplete(g, disk, f, data, c);
    }
  }

  lemma EntryIntact(s: System, l: Limits, id: nat)
    requires Grounded(s, l) && id in s.files && EntryOk(s, l, id)
    ensures Intact(s.g, Disk(s.dev, s.blocks), s.files[id].core, l.blocks)
  {}

  /** The blocks a write adds were free, so no other file and no metadata lies there. */
  lemma AddedInData(s: System, l: Limits, id: nat, disk': Disk, f': File, cost: nat)
    requires Grounded(s, l) && id in s.files && EntryOk(s, l, id)
    requires Paid(Disk(s.dev, s.blocks), s.files[id].core, disk', f', l.blocks, cost)
    ensures InData(f'.lay, l)
  {}

  lemma AddedDisjoint(s: System, l: Limits, id: nat, disk': Disk, f': File, cost: nat, j: nat)
    requires Inv(s, l) && id in s.files && j in s.files && j != id
    requires Paid(Disk(s.dev, s.blocks), s.files[id].core, disk', f', l.blocks, cost)
    ensures Disjoint(f'.lay, s.files[j].core.lay)
  {
    assert EntryOk(s, l, j);
    assert Disjoint(s.files[id].core.lay, s.files[j].core.lay);
  }

  lemma WriteConfined(s: System, l: Limits, id: nat, data: seq<byte>, s': System)
    requires Inv(s, l) && id in s.files
    requires var w := WriteAll(s.g, Disk(s.dev, s.blocks), s.files[id].core, data);
      && Paid(Disk(s.dev, s.blocks), s.files[id].core, w.disk, w.f, l.blocks,
              BlocksFor(s.g.p, s.files[id].core.n, w.f.n))
      && id in s'.files && s'.files[id].core == w.f
      && s' == s.(dev := w.disk.dev, blocks := w.disk.al, files := s.files[id := s'.files[id]])
    ensures Confined(s, s', l, id)
  {
    var f, disk := s.files[id].core, Disk(s.dev, s.blocks);
    assert EntryOk(s, l, id);
    SoundLeaves(f.lay, s.blocks);
    forall a | 0 <= a < |s.dev| && s'.dev[a] != s.dev[a]
      ensures Owns(s.g, s'.files[id].core.lay, RecordOf(s, id), a)
    {
      if forall k :: Leaf(k) in s'.files[id].core.lay ==> !InBlock(s.g, s'.files[id].core.lay[Leaf(k)], a) {
        WriteTouches(s.g, disk, f, data, l.blocks, a);
      }
    }
  }

  lemma WriteStepIs(s: System, l: Limits, id: nat, data: seq<byte>) returns (w: Progress, mem: File)
    requires Inv(s, l) && Callable(s) && Allowed(s, Write(id, data))
    ensures w == WriteAll(s.g, Disk(s.dev, s.blocks), s.files[id].core, data)
    ensures Step(s, Write(id, data)) ==
      (s.(dev := w.disk.dev, blocks := w.disk.al, files := s.files[id := Entry(w.f, mem, true)]), Wrote(|data|))
    ensures mem == w.f || mem == Padded(w.f)
    ensures Intact(s.g, w.disk, w.f, l.blocks)
    ensures Splices(s.g, Disk(s.dev, s.blocks), s.files[id].core, data, w) && w.written == |data|
    ensures Paid(Disk(s.dev, s.blocks), s.files[id].core, w.disk, w.f, l.blocks,
                 BlocksFor(s.g.p, s.files[id].core.n, w.f.n))
  {
    hide EntryOk, Grounded, Paid, Intact, Affordable, Splices, WriteAll, Padded;
    var e, disk := s.files[id], Disk(s.dev, s.blocks);
    EntryIntact(s, l, id);
    WriteGuard(s, l, id, data);
    w := WriteAll(s.g, disk, e.core, data);
    mem := CoreWrite(s.g, disk, e.core, e.mem, data);
    PaidWrite(s.g, disk, e.core, data, l.blocks);
  }

  lemma WriteMeets(s: System, l: Limits, id: nat, data: seq<byte>)
    requires Inv(s, l) && Callable(s) && Allowed(s, Write(id, data))
    ensures Meets(s, l, Write(id, data), Step(s, Write(id, data)).0, Step(s, Write(id, data)).1)
  {
    hide EntryOk, Grounded, Owns, Disjoint, Paid, Intact, Affordable, Content, Confined, WriteAll, Callable;
    var e, disk := s.files[id], Disk(s.dev, s.blocks);
    var w, mem := WriteStepIs(s, l, id, data);
    var s' := Step(s, Write(id, data)).0;
    WriteGuard(s, l, id, data);
    WriteKeepsOrder(s, l, id, data, s', w);
    WriteConfined(s, l, id, data, s');
    forall j | j in s.files && j != id
      ensures Disjoint(s'.files[id].core.lay, s.files[j].core.lay)
    {
      AddedDisjoint(s, l, id, w.disk, w.f, BlocksFor(s.g.p, e.core.n, w.f.n), j);
    }
    ConfinedStep(s, s', l, id);
    WholeData(data);
  }

  lemma WholeData(data: seq<byte>)
    ensures data[..|data|] == data
  {}

  lemma WriteGuard(s: System, l: Limits, id: nat, data: seq<byte>)
    requires Inv(s, l) && Allowed(s, Write(id, data))
    ensures id in s.files
    ensures var e := s.files[id];
      && WellPlaced(s.g, e.core) && (e.mem == e.core || e.mem == Padded(e.core))
      && Affordable(s.g, s.blocks, e.core, |data|)
      && (e.mem != e.core ==> e.core.cursor + |data| <= e.core.n * s.g.bs)
      && e.core.cursor + |data| < WORD_LIMIT
      && id < l.inodes
  {
    var e := s.files[id];
    assert EntryOk(s, l, id);
    if e.core.cursor + |data| <= e.core.n * s.g.bs {
      WithinIsAffordable(s.g, s.blocks, e.core, |data|);
    }
  }

  /** The file written is in order afterwards, and so is everything the files share. */
  lemma WriteKeepsOrder(s: System, l: Limits, id: nat, data: seq<byte>, s': System, w: Progress)
    requires Grounded(s, l) && id in s.files && EntryOk(s, l, id) && id in s'.files
    requires s.files[id].core.cursor + |data| < WORD_LIMIT
    requires Intact(s.g, w.disk, w.f, l.blocks)
    requires Paid(Disk(s.dev, s.blocks), s.files[id].core, w.disk, w.f, l.blocks,
                  BlocksFor(s.g.p, s.files[id].core.n, w.f.n))
    requires Splices(s.g, Disk(s.dev, s.blocks), s.files[id].core, data, w)
    requires s' == s.(dev := w.disk.dev, blocks := w.disk.al, files := s.files[id := s'.files[id]])
    requires s'.files[id].core == w.f && s'.files[id].open
    requires s'.files[id].mem == w.f || s'.files[id].mem == Padded(w.f)
    ensures Grounded(s', l) && EntryOk(s', l, id)
  {
    AddedInData(s, l, id, w.disk, w.f, BlocksFor(s.g.p, s.files[id].core.n, w.f.n));
  }

  // ----- reading -----

  lemma PaddedPlaced(g: Geo, f: File)
    requires WellPlaced(g, f)
    ensures WellPlaced(g, Padded(f))
  {
    PadIsDense(g.p, f.lay, f.n);
    MulMono(f.n, Max(f.n, 4), g.bs);
  }

  lemma ReadGives(s: System, l: Limits, id: nat, len: nat)
    requires Grounded(s, l) && id in s.files && EntryOk(s, l, id)
    ensures var e, a := s.files[id], Seen(s, id);
      && e.mem.cursor <= e.mem.size && a.cursor <= |a.content|
      && ReadAll(s.g, s.dev, e.mem, len) ==
         a.content[a.cursor..a.cursor + Min(len, |a.content| - a.cursor)]
  {
    var e := s.files[id];
    PaddedPlaced(s.g, e.core);
    PadKeepsIds(e.core.lay);
    PadContent(s.g, s.dev, e.core.lay, e.core.size);
    ReadComplete(s.g, s.dev, e.mem, len, l.blocks);
  }

  /** Only the cursor, or whether the file is open, changes. */
  lemma QuietStep(s: System, l: Limits, id: nat, e': Entry)
    requires Inv(s, l) && id in s.files && e'.core == s.files[id].core.(cursor := e'.core.cursor)
    requires EntryOk(s.(files := s.files[id := e']), l, id)
    ensures var s' := s.(files := s.files[id := e']);
      && Inv(s', l)
      && View(s') == View(s)[id := Seen(s', id)]
      && Seen(s', id) == Simple(Seen(s, id).content, e'.core.cursor, e'.open)
  {
    hide Owns, Stored, Content, Sound, WellPlaced;
    var s' := s.(files := s.files[id := e']);
    forall j | j in s.files && j != id
      ensures Disjoint(s'.files[id].core.lay, s.files[j].core.lay)
    {}
    ConfinedStep(s, s', l, id);
  }

  lemma ReadKeepsOrder(s: System, l: Limits, id: nat, k: nat)
    requires id in s.files && EntryOk(s, l, id) && s.files[id].open
    requires s.files[id].core.cursor + k <= s.files[id].core.size
    ensures var e := s.files[id];
      EntryOk(s.(files := s.files[id := Entry(e.core.(cursor := e.core.cursor + k),
                                              e.mem.(cursor := e.mem.cursor + k), true)]), l, id)
  {}

  lemma FileInOrder(s: System, l: Limits, id: nat)
    requires Inv(s, l) && id in s.files
    ensures Grounded(s, l) && EntryOk(s, l, id)
  {}

  lemma ReadMeets(s: System, l: Limits, id: nat, len: nat)
    requires Inv(s, l) && Callable(s) && Allowed(s, Read(id, len))
    ensures Meets(s, l, Read(id, len), Step(s, Read(id, len)).0, Step(s, Read(id, len)).1)
  {
    hide EntryOk, Grounded, ReadAll, Inv, Content;
    FileInOrder(s, l, id);
    var s' := Step(s, Read(id, len)).0;
    ReadGives(s, l, id, len);
    var k := |Step(s, Read(id, len)).1.bytes|;
    ReadKeepsOrder(s, l, id, k);
    QuietStep(s, l, id, s'.files[id]);
  }

  // ----- closing -----

  lemma EntryStorable(s: System, l: Limits, id: nat)
    requires Grounded(s, l) && id in s.files && EntryOk(s, l, id)
    ensures var f, rec := s.files[id].core, RecordOf(s, id);
      Storable(s.g, f.lay, rec, f.size, |s.dev|) && RecordApart(s.g, f.lay, rec)
  {
    var f := s.files[id].core;
    RecordInMeta(s, l, id);
    DenseIsClosed(s.g.p, f.lay, f.n);
    forall p | p in f.lay
      ensures f.lay[p] * s.g.bs + s.g.bs <= |s.dev| && l.meta * s.g.bs <= f.lay[p] * s.g.bs
    {
      BlockEnd(f.lay[p], l.blocks, s.g.bs);
      MulMono(l.meta, f.lay[p], s.g.bs);
    }
  }

  /** The bytes closing changes. */
  lemma CloseConfined(s: System, l: Limits, id: nat, a: nat)
    requires Grounded(s, l) && id in s.files && a < |s.dev|
    ensures var f, rec := s.files[id].core, RecordOf(s, id);
      Close(s.g, s.dev, f.lay, rec, f.size)[a] != s.dev[a] ==> Owns(s.g, f.lay, rec, a)
  {
    var f, rec := s.files[id].core, RecordOf(s, id);
    if !Owns(s.g, f.lay, rec, a) {
      CloseTouches(s.g, s.dev, f.lay, rec, f.size, a);
    }
  }

  lemma CloseStepIs(s: System, l: Limits, id: nat)
    requires Grounded(s, l) && id in s.files && EntryOk(s, l, id)
    ensures var e := s.files[id];
      CloseStep(s, id) == (s.(dev := Close(s.g, s.dev, e.core.lay, RecordOf(s, id), e.core.size),
                              files := s.files[id := e.(open := false)]), Done)
  {
    var e := s.files[id];
    PadClose(s.g, s.dev, e.core.lay, RecordOf(s, id), e.core.size);
  }

  lemma CloseKeepsOrder(s: System, l: Limits, id: nat, s': System)
    requires Grounded(s, l) && id in s.files && EntryOk(s, l, id) && s' == CloseStep(s, id).0
    ensures Grounded(s', l) && id in s'.files && EntryOk(s', l, id)
    ensures Seen(s', id) == Seen(s, id).(open := false)
  {
    hide Close, Stored, Storable, Content;
    var f := s.files[id].core;
    CloseStepIs(s, l, id);
    EntryStorable(s, l, id);
    CloseStores(s.g, s.dev, f.lay, RecordOf(s, id), f.size);
    CloseKeepsContent(s.g, s.dev, s.blocks, f, RecordOf(s, id));
  }

  lemma CloseMeets(s: System, l: Limits, id: nat)
    requires Inv(s, l) && Callable(s) && Allowed(s, CloseFile(id))
    ensures Meets(s, l, CloseFile(id), Step(s, CloseFile(id)).0, Step(s, CloseFile(id)).1)
  {
    hide EntryOk, Grounded, Owns, Disjoint, Content, Close;
    var s' := Step(s, CloseFile(id)).0;
    CloseStepIs(s, l, id);
    CloseKeepsOrder(s, l, id, s');
    forall a | 0 <= a < |s.dev| && s'.dev[a] != s.dev[a]
      ensures Owns(s.g, s'.files[id].core.lay, RecordOf(s, id), a)
    {
      CloseConfined(s, l, id, a);
    }
    EntryId(s, l, id);
    ConfinedStep(s, s', l, id);
  }

  lemma EntryId(s: System, l: Limits, id: nat)
    requires id in s.files && EntryOk(s, l, id)
    ensures id < l.inodes
  {}

  // ----- opening -----

  lemma OpenKeepsOrder(s: System, l: Limits, id: nat)
    requires Grounded(s, l) && Callable(s) && id in s.files && EntryOk(s, l, id) && !s.files[id].open
    ensures var e := s.files[id];
      && OpenStep(s, id).0.files[id] == Entry(e.core.(cursor := 0), Padded(e.core.(cursor := 0)), true)
      && EntryOk(OpenStep(s, id).0, l, id)
  {
    hide Load, Stored, Storable;
    var f := s.files[id].core;
    EntryStorable(s, l, id);
    ReloadIsPad(s.g, s.dev, f.lay, RecordOf(s, id), f.size);
  }

  lemma OpenMeets(s: System, l: Limits, id: nat)
    requires Inv(s, l) && Callable(s) && Allowed(s, OpenFile(id))
    ensures Meets(s, l, OpenFile(id), Step(s, OpenFile(id)).0, Step(s, OpenFile(id)).1)
  {
    hide EntryOk, Grounded, Content, Load, Disjoint;
    var s' := Step(s, OpenFile(id)).0;
    OpenKeepsOrder(s, l, id);
    QuietStep(s, l, id, s'.files[id]);
  }

  // ----- runs -----

  /** Every call keeps the invariant and does what the user expects. */
  lemma StepMeets(s: System, l: Limits, op: Op)
    requires Inv(s, l) && Callable(s) && Allowed(s, op)
    ensures Meets(s, l, op, Step(s, op).0, Step(s, op).1)
  {
    match op
    case Create => CreateMeets(s, l);
    case Write(id, data) => WriteMeets(s, l, id, data);
    case Read(id, len) => ReadMeets(s, l, id, len);
    case CloseFile(id) => CloseMeets(s, l, id);
    case OpenFile(id) => OpenMeets(s, l, id);
  }

  /** A run of calls, each of them allowed when its turn comes. */
  ghost predicate RunAllowed(s: System, ops: seq<Op>)
    decreases |ops|
  {
    Callable(s) &&
    (ops == [] || (Allowed(s, ops[0]) && RunAllowed(Step(s, ops[0]).0, ops[1..])))
  }

  ghost function Run(s: System, ops: seq<Op>): (System, seq<Out>)
    requires RunAllowed(s, ops)
    decreases |ops|
  {
    if ops == [] then (s, [])
    else
      var (s1, out) := Step(s, ops[0]);
      var (s', outs) := Run(s1, ops[1..]);
      (s', [out] + outs)
  }

  /** The same calls with the same outcomes make sense to the user. */
  predicate RunExpected(a: map<nat, Simple>, ops: seq<Op>, outs: seq<Out>)
    decreases |ops|
  {
    |outs| == |ops| &&
    (ops == [] || (Expected(a, ops[0], outs[0]) && RunExpected(After(a, ops[0], outs[0]), ops[1..], outs[1..])))
  }

  function RunAfter(a: map<nat, Simple>, ops: seq<Op>, outs: seq<Out>): map<nat, Simple>
    requires RunExpected(a, ops, outs)
    decreases |ops|
  {
    if ops == [] then a else RunAfter(After(a, ops[0], outs[0]), ops[1..], outs[1..])
  }

  /** Every run of allowed calls, of any length and over any number of files, gives the outcomes and
      leaves the contents of the simple system, and keeps the invariant. */
  lemma {:induction false} RunRefines(s: System, l: Limits, ops: seq<Op>)
    requires Inv(s, l) && RunAllowed(s, ops)
    ensures Inv(Run(s, ops).0, l)
    ensures RunExpected(View(s), ops, Run(s, ops).1)
    ensures View(Run(s, ops).0) == RunAfter(View(s), ops, Run(s, ops).1)
    decreases |ops|
  {
    if ops != [] {
      var (s1, out) := Step(s, ops[0]);
      StepMeets(s, l, ops[0]);
      RunRefines(s1, l, ops[1..]);
      assert ([out] + Run(s1, ops[1..]).1)[1..] == Run(s1, ops[1..]).1;
    }
  }

  // ----- no block is lost or shared -----

  /** Block j is free, or some file holds it. */
  ghost predicate Accounted(s: System, l: Limits, j: nat) {
    j < l.blocks <= |s.blocks.bits| &&
    (s.blocks.bits[j] || exists id :: id in s.files && Holder(s.files[id].core.lay, j))
  }

  /** A free block and a held one are different, and a held one has one holder. */
  lemma NotShared(s: System, l: Limits, i: nat, p: Pos, j: nat, q: Pos)
    requires Inv(s, l) && i in s.files && j in s.files
    requires p in s.files[i].core.lay && q in s.files[j].core.lay
    ensures s.files[i].core.lay[p] == s.files[j].core.lay[q] ==> i == j && p == q
    ensures Clear(s.blocks, s.files[i].core.lay[p])
  {
    assert EntryOk(s, l, i) && EntryOk(s, l, j);
    if i != j {
      assert Disjoint(s.files[i].core.lay, s.files[j].core.lay);
    }
  }

  /** A call that changes no bitmap and no tree. */
  lemma QuietAccounts(s: System, s': System, l: Limits, j: nat)
    requires s'.blocks == s.blocks && s'.files.Keys >= s.files.Keys
    requires forall id :: id in s.files ==> s'.files[id].core.lay == s.files[id].core.lay
    requires forall id :: id in s'.files && id !in s.files ==> s'.files[id].core.lay == map[]
    ensures Accounted(s', l, j) <==> Accounted(s, l, j)
  {
    if Accounted(s, l, j) && !s.blocks.bits[j] {
      var id :| id in s.files && Holder(s.files[id].core.lay, j);
      assert id in s'.files && Holder(s'.files[id].core.lay, j);
    }
    if Accounted(s', l, j) && !s.blocks.bits[j] {
      var id :| id in s'.files && Holder(s'.files[id].core.lay, j);
      assert id in s.files && Holder(s.files[id].core.lay, j);
    }
  }

  lemma WriteAccounts(s: System, l: Limits, id: nat, data: seq<byte>, j: nat)
    requires Inv(s, l) && Callable(s) && Allowed(s, Write(id, data))
    ensures Accounted(Step(s, Write(id, data)).0, l, j) <==> Accounted(s, l, j)
  {
    hide EntryOk, Intact, Affordable, WriteAll, Splices, Callable, Allowed;
    WriteGuard(s, l, id, data);
    var s' := Step(s, Write(id, data)).0;
    var e, disk := s.files[id], Disk(s.dev, s.blocks);
    var w, mem := WriteStepIs(s, l, id, data);
    EntryIntact(s, l, id);
    if Accounted(s, l, j) {
      if s.blocks.bits[j] {
        WriteHolds(s.g, disk, e.core, data, l.blocks, j);
        assert s'.blocks.bits[j] || Holder(s'.files[id].core.lay, j);
      } else {
        var i :| i in s.files && Holder(s.files[i].core.lay, j);
        assert i in s'.files && Holder(s'.files[i].core.lay, j);
      }
    }
    if Accounted(s', l, j) && !s.blocks.bits[j] {
      WriteHeldBefore(s, s', l, id, j, w, mem);
    }
  }

  lemma WriteHeldBefore(s: System, s': System, l: Limits, id: nat, j: nat, w: Progress, mem: File)
    requires id in s.files && Accounted(s', l, j) && l.blocks <= |s.blocks.bits| && !s.blocks.bits[j]
    requires s' == s.(dev := w.disk.dev, blocks := w.disk.al, files := s.files[id := Entry(w.f, mem, true)])
    requires exists cost: nat :: Paid(Disk(s.dev, s.blocks), s.files[id].core, w.disk, w.f, l.blocks, cost)
    ensures Accounted(s, l, j)
  {
    var i :| i in s'.files && Holder(s'.files[i].core.lay, j);
    assert i in s.files;
    var p :| p in s'.files[i].core.lay && s'.files[i].core.lay[p] == j;
    assert p in s.files[i].core.lay && s.files[i].core.lay[p] == j;
    assert Holder(s.files[i].core.lay, j);
  }

  lemma StepAccounts(s: System, l: Limits, op: Op, j: nat)
    requires Inv(s, l) && Callable(s) && Allowed(s, op)
    ensures Accounted(Step(s, op).0, l, j) <==> Accounted(s, l, j)
  {
    hide Accounted, EntryOk, Grounded, Disjoint, Take, Close, Load, ReadAll;
    if op.Write? {
      WriteAccounts(s, l, op.id, op.data, j);
    } else {
      NewIdUnused(s, l);
      QuietAccounts(s, Step(s, op).0, l, j);
    }
  }

  lemma NewIdUnused(s: System, l: Limits)
    requires Inv(s, l)
    ensures s.inodes.free > 0 ==> Take(s.inodes).id !in s.files
  {
    TakeHealthy(s.inodes, l.inodes);
  }

  /** Over any run of allowed calls the blocks that are free or held stay the same: none is lost, and
      none comes from elsewhere. */
  lemma {:induction false} RunLosesNoBlock(s: System, l: Limits, ops: seq<Op>, j: nat)
    requires Inv(s, l) && RunAllowed(s, ops)
    ensures Accounted(Run(s, ops).0, l, j) <==> Accounted(s, l, j)
    decreases |ops|
  {
    if ops != [] {
      StepAccounts(s, l, ops[0], j);
      StepMeets(s, l, ops[0]);
      RunLosesNoBlock(Step(s, ops[0]).0, l, ops[1..], j);
    }
  }

  // ----- end to end -----

  function Concat(ds: seq<seq<byte>>): seq<byte> {
    if ds == [] then [] else ds[0] + Concat(ds[1..])
  }

  function Writes(id: nat, ds: seq<seq<byte>>): (ops: seq<Op>)
    ensures |ops| == |ds|
  {
    if ds == [] then [] else [Write(id, ds[0])] + Writes(id, ds[1..])
  }

  lemma {:induction false} RunSplits(a: map<nat, Simple>, xs: seq<Op>, ys: seq<Op>, outs: seq<Out>)
    requires RunExpected(a, xs + ys, outs)
    ensures RunExpected(a, xs, outs[..|xs|])
    ensures RunExpected(RunAfter(a, xs, outs[..|xs|]), ys, outs[|xs|..])
    decreases |xs|
  {
    if xs == [] {
      assert xs + ys == ys && outs[0..] == outs;
    } else {
      assert (xs + ys)[1..] == xs[1..] + ys;
      RunSplits(After(a, xs[0], outs[0]), xs[1..], ys, outs[1..]);
      assert outs[..|xs|][1..] == outs[1..][..|xs| - 1] && outs[1..][|xs| - 1..] == outs[|xs|..];
    }
  }

  lemma OverwriteAtEnd(s: seq<byte>, d: seq<byte>)
    ensures Overwrite(s, |s|, d) == s + d
  {}

  /** Writing in pieces is writing the whole. */
  lemma {:induction false} WritesOverwrite(a: map<nat, Simple>, id: nat, ds: seq<seq<byte>>, outs: seq<Out>)
    requires RunExpected(a, Writes(id, ds), outs)
    requires id in a && a[id].open && a[id].cursor <= |a[id].content|
    ensures RunAfter(a, Writes(id, ds), outs) ==
      a[id := Simple(Overwrite(a[id].content, a[id].cursor, Concat(ds)), a[id].cursor + |Concat(ds)|, true)]
    decreases |ds|
  {
    var s, c := a[id].content, a[id].cursor;
    if ds == [] {
      assert Overwrite(s, c, []) == s;
    } else {
      var s1 := Overwrite(s, c, ds[0]);
      var b := After(a, Write(id, ds[0]), outs[0]);
      assert Writes(id, ds)[1..] == Writes(id, ds[1..]);
      WritesOverwrite(b, id, ds[1..], outs[1..]);
      assert Concat(ds)[..|ds[0]|] == ds[0];
      assert Concat(ds)[|ds[0]|..][..|Concat(ds[1..])|] == Concat(ds[1..]);
      assert Concat(ds)[..|ds[0]| + |Concat(ds[1..])|] == Concat(ds);
      OverwriteTwice(s, s1, Overwrite(s1, c + |ds[0]|, Concat(ds[1..])), c, Concat(ds), |ds[0]|, |Concat(ds[1..])|);
    }
  }

  /** Create, append, close, reopen, read. */
  function Session(id: nat, ds: seq<seq<byte>>, len: nat): seq<Op> {
    [Create] + (Writes(id, ds) + [CloseFile(id), OpenFile(id), Read(id, len)])
  }

  lemma SessionReads(a: map<nat, Simple>, id: nat, ds: seq<seq<byte>>, len: nat, outs: seq<Out>)
    requires RunExpected(a, Session(id, ds, len), outs) && outs[0] == Made(id) && len >= |Concat(ds)|
    ensures outs[|outs| - 1] == Got(Concat(ds))
  {
    var last := [CloseFile(id), OpenFile(id), Read(id, len)];
    assert Session(id, ds, len)[1..] == Writes(id, ds) + last;
    var b := After(a, Create, outs[0]);
    RunSplits(b, Writes(id, ds), last, outs[1..]);
    var mid := outs[1..][|ds|..];
    WritesOverwrite(b, id, ds, outs[1..][..|ds|]);
    OverwriteAtEnd([], Concat(ds));
    var d := RunAfter(b, Writes(id, ds), outs[1..][..|ds|]);
    assert [] + Concat(ds) == Concat(ds);
    assert d[id].content == Concat(ds);
    var d1 := After(d, last[0], mid[0]);
    assert last[1..] == [OpenFile(id), Read(id, len)] && mid[1..][0] == mid[1];
    assert RunExpected(d1, last[1..], mid[1..]);
    var d2 := After(d1, last[1], mid[1]);
    assert last[1..][1..] == [Read(id, len)] && mid[1..][1..][0] == mid[2];
    assert Concat(ds)[0..|Concat(ds)|] == Concat(ds);
    assert RunExpected(d2, last[1..][1..], mid[1..][1..]);
    assert mid[2] == outs[|outs| - 1];
  }

  lemma AffordableLess(g: Geo, al: Alloc, f: File, len: nat, more: nat)
    requires Affordable(g, al, f, len + more)
    ensures Affordable(g, al, f, len) && LeavesAfter(g, f, len) <= LeavesAfter(g, f, len + more)
  {
    LeavesMono(g, f.cursor + len, f.cursor + len + more);
    BlocksForSplit(g.p, f.n, LeavesAfter(g, f, len), LeavesAfter(g, f, len + more));
  }

  lemma WriteArrives(g: Geo, disk: Disk, f: File, data: seq<byte>, c: nat)
    requires data != [] && Intact(g, disk, f, c) && Affordable(g, disk.al, f, |data|)
    ensures var w := WriteAll(g, disk, f, data);
      && w.f.cursor == f.cursor + |data| && w.f.n == LeavesAfter(g, f, |data|)
      && disk.al.free == w.disk.al.free + BlocksFor(g.p, f.n, w.f.n)
  {
    hide Affordable, WriteAll, LeavesAfter, Dense, Injective;
    WriteComplete(g, disk, f, data, c);
    SoundLeaves(f.lay, disk.al);
    WriteGrew(g, disk, f, data, c);
  }

  /** What a write leaves is enough for the next one. */
  lemma AffordableAgain(g: Geo, disk: Disk, f: File, data: seq<byte>, more: nat, c: nat)
    requires Intact(g, disk, f, c) && Affordable(g, disk.al, f, |data| + more)
    ensures Affordable(g, disk.al, f, |data|)
    ensures var w := WriteAll(g, disk, f, data);
      Affordable(g, w.disk.al, w.f, more)
  {
    hide Affordable, WriteAll, Intact, LeavesAfter, BlocksFor;
    AffordableLess(g, disk.al, f, |data|, more);
    if data == [] {
      WriteNothing(g, disk, f);
    } else {
      WriteArrives(g, disk, f, data, c);
      var w := WriteAll(g, disk, f, data);
      AffordableRest(g, disk.al, f, w.disk.al, w.f, |data| + more, |data|);
    }
  }

  lemma WriteAgain(s: System, l: Limits, id: nat, data: seq<byte>, more: nat)
    requires Inv(s, l) && Callable(s) && id in s.files && s.files[id].open && s.files[id].mem == s.files[id].core
    requires s.files[id].core.cursor + |data| + more < WORD_LIMIT
    requires Affordable(s.g, s.blocks, s.files[id].core, |data| + more)
    ensures Allowed(s, Write(id, data))
    ensures var s' := Step(s, Write(id, data)).0;
      && id in s'.files && s'.files[id].open && s'.files[id].mem == s'.files[id].core
      && s'.g == s.g && s'.files[id].core.cursor == s.files[id].core.cursor + |data|
      && Affordable(s'.g, s'.blocks, s'.files[id].core, more)
  {
    hide Affordable, WriteAll;
    var f, disk := s.files[id].core, Disk(s.dev, s.blocks);
    EntryIntact(s, l, id);
    AffordableAgain(s.g, disk, f, data, more, l.blocks);
    var w, mem := WriteStepIs(s, l, id, data);
  }

  lemma {:induction false} WritesAllowed(s: System, l: Limits, id: nat, ds: seq<seq<byte>>, len: nat)
    requires Inv(s, l) && id in s.files && s.files[id].open && s.files[id].mem == s.files[id].core
    requires s.files[id].core.cursor + |Concat(ds)| < WORD_LIMIT
    requires Affordable(s.g, s.blocks, s.files[id].core, |Concat(ds)|)
    ensures RunAllowed(s, Writes(id, ds) + [CloseFile(id), OpenFile(id), Read(id, len)])
    decreases |ds|
  {
    hide Affordable, EntryOk, Grounded, Disjoint, Callable, Load, Close, WriteAll, ReadAll;
    InvCallable(s, l);
    var last := [CloseFile(id), OpenFile(id), Read(id, len)];
    var ops := Writes(id, ds) + last;
    if ds == [] {
      assert ops == last;
      StepMeets(s, l, CloseFile(id));
      var s1 := Step(s, CloseFile(id)).0;
      InvCallable(s1, l);
      StepMeets(s1, l, OpenFile(id));
      var s2 := Step(s1, OpenFile(id)).0;
      InvCallable(s2, l);
      StepMeets(s2, l, Read(id, len));
      InvCallable(Step(s2, Read(id, len)).0, l);
      assert last[1..] == [OpenFile(id), Read(id, len)] && last[1..][1..] == [Read(id, len)];
      assert last[1..][1..][1..] == [];
      assert RunAllowed(s2, last[1..][1..]);
      assert RunAllowed(s1, last[1..]);
    } else {
      WriteAgain(s, l, id, ds[0], |Concat(ds[1..])|);
      StepMeets(s, l, Write(id, ds[0]));
      assert ops[1..] == Writes(id, ds[1..]) + last;
      WritesAllowed(Step(s, Write(id, ds[0])).0, l, id, ds[1..], len);
    }
  }

  /** What can be checked at the start: an inode is free, and the tree and the bitmap have room for
      all that will be written. */
  predicate Room(s: System, size: nat) {
    && s.inodes.free > 0
    && size < WORD_LIMIT
    && LeavesFor(s.g, size) <= Capacity(s.g.p)
    && BlocksFor(s.g.p, 0, LeavesFor(s.g, size)) <= s.blocks.free
  }

  lemma SessionAllowed(s: System, l: Limits, ds: seq<seq<byte>>, len: nat)
    requires Inv(s, l) && Room(s, |Concat(ds)|)
    ensures RunAllowed(s, Session(Take(s.inodes).id, ds, len))
  {
    var id := Take(s.inodes).id;
    InvCallable(s, l);
    StepMeets(s, l, Create);
    var s1 := Step(s, Create).0;
    assert LeavesAfter(s.g, EMPTY, |Concat(ds)|) == LeavesFor(s.g, |Concat(ds)|);
    WritesAllowed(s1, l, id, ds, len);
    assert Session(id, ds, len)[1..] == Writes(id, ds) + [CloseFile(id), OpenFile(id), Read(id, len)];
  }

  /** End to end: with room for it, a file that is created, appended to in any pieces and closed gives
      back, when it is opened and read, exactly the bytes written, in order, whatever other files are
      on the device. */
  lemma WhatIsWrittenIsReadBack(s: System, l: Limits, ds: seq<seq<byte>>, len: nat)
    requires Inv(s, l) && Room(s, |Concat(ds)|) && len >= |Concat(ds)|
    ensures RunAllowed(s, Session(Take(s.inodes).id, ds, len))
    ensures var outs := Run(s, Session(Take(s.inodes).id, ds, len)).1;
      outs != [] && outs[|outs| - 1] == Got(Concat(ds))
  {
    var id := Take(s.inodes).id;
    var ops := Session(id, ds, len);
    SessionAllowed(s, l, ds, len);
    RunRefines(s, l, ops);
    assert ops[0] == Create;
    SessionReads(View(s), id, ds, len, Run(s, ops).1);
  }

  lemma {:induction false} PrefixAllowed(s: System, xs: seq<Op>, ys: seq<Op>)
    requires RunAllowed(s, xs + ys)
    ensures RunAllowed(s, xs)
    decreases |xs|
  {
    if xs != [] {
      assert (xs + ys)[1..] == xs[1..] + ys;
      PrefixAllowed(Step(s, xs[0]).0, xs[1..], ys);
    }
  }

  /** A freshly formatted device satisfies the invariant. */
  lemma FormattedIsInv(s: System, l: Limits)
    requires Grounded(s, l) && s.files == map[]
    ensures Inv(s, l)
  {}
}
