/**
 From an empty device to files and back: formatting and mounting agree on where everything is, a
 formatted device is a system without files, and unmounting and mounting keeps every closed file.
 */
module Remounting {
  import opened Arith
  import opened Bytes
  import opened Bitmap
  import opened Layouts
  import opened FileSpec
  import opened OnDisk
  import opened Systems
  import opened Superblocks
  import opened Formatting

  lemma {:induction false} CountTakenBelow(bits: seq<bool>, k: nat, c: nat)
    requires TakenBelow(bits, k) && c <= |bits|
    ensures CountBelow(bits, c) == if c <= k then 0 else c - k
  {
    if c > 0 {
      CountTakenBelow(bits, k, c - 1);
    }
  }

  /** What a mount starts from. */
  function SystemOf(dev: seq<byte>, m: Mounted): System {
    BlockSizeInEights(m.sb);
    System(Geo(BlockSize(m.sb) / 8, BlockSize(m.sb)), dev,
           Alloc(Bits(m.blockBits), m.sb.freeBlockCount), Alloc(Bits(m.inodeBits), m.sb.freeInodeCount),
           InodeTableOffset(m.sb), map[])
  }

  function LimitsOf(p: Plan): Limits {
    Limits(p.blocks, p.inodes, Used(p))
  }

  /** The superblock, the inode table and the bitmaps follow each other without overlap, in front of the
      first block files can get. */
  predicate Apart(m: Mounted, l: Limits) {
    && SUPER_OFFSET + SUPER_SIZE <= InodeTableOffset(m.sb)
    && InodeTableOffset(m.sb) + RECORD_SIZE * l.inodes <= BlockBitmapOffset(m.sb)
    && InodeBitmapOffset(m.sb) + |m.inodeBits| <= l.meta * BlockSize(m.sb)
    && l.meta * BlockSize(m.sb) <= l.blocks * BlockSize(m.sb)
  }

  /** Mounting a formatted device recomputes the places formatting used: the areas are apart, every inode
      record and both bitmaps lie in theirs, the allocators are healthy, and what is left over is free. */
  lemma FormatAgrees(dev: seq<byte>, fsSize: nat, rootSize: nat, p: Plan, m: Mounted)
    requires 1 <= p.log <= 5 && p == PlanFor(fsSize, p.log, rootSize) && Formatted(dev, p, m)
    requires fsSize <= |dev| && fsSize < WORD_LIMIT
    ensures Apart(m, LimitsOf(p))
    ensures InodeTableOffset(m.sb) == p.boot * Pow2(7 + p.log)
    ensures BlockBitmapOffset(m.sb) == (p.boot + p.table) * Pow2(7 + p.log)
    ensures Inv(SystemOf(dev, m), LimitsOf(p))
  {
    hide Bits, BlocksAt, RoundUp, Pow2, ReadMount, InodesFor, FirstInodeBlock;
    var size := Pow2(7 + p.log);
    PlanFits(fsSize, p.log, rootSize, p, size);
    AreasInOrder(p, size, fsSize);
    BootAreaHoldsSuperblock(p.log);
    BlocksBelow(fsSize, p.log);
    CountTakenBelow(Bits(m.blockBits), Used(p), p.blocks);
    CountTakenBelow(Bits(m.inodeBits), 3, p.inodes);
    BlockSizeInEights(m.sb);
    FormattedIsInv(SystemOf(dev, m), LimitsOf(p));
  }

  lemma AreasInOrder(p: Plan, size: nat, fsSize: nat)
    requires Used(p) <= p.blocks && p.blocks * size <= fsSize
    ensures (p.boot + p.table) * size == p.boot * size + p.table * size
    ensures (p.boot + p.table) * size + p.maps * size <= Used(p) * size <= p.blocks * size
  {
    assert (p.boot + p.table) * size == p.boot * size + p.table * size;
    assert (p.boot + p.table + p.maps) * size == (p.boot + p.table) * size + p.maps * size;
    MulMono(p.boot + p.table + p.maps, Used(p), size);
    MulMono(Used(p), p.blocks, size);
  }

  // ----- unmounting and mounting a system -----

  /** m is what the mount holds of the system. */
  ghost predicate Holds(s: System, m: Mounted) {
    && s.g.bs == BlockSize(m.sb) && s.table == InodeTableOffset(m.sb)
    && s.blocks == Alloc(Bits(m.blockBits), m.sb.freeBlockCount)
    && s.inodes == Alloc(Bits(m.inodeBits), m.sb.freeInodeCount)
    && |m.blockBits| == BitmapBytes(m.sb.blockCount) && |m.inodeBits| == BitmapBytes(m.sb.inodeCount)
  }

  lemma SavedBytes(dev: seq<byte>, m: Mounted, a: nat)
    requires a < |dev| && |m.blockBits| == BitmapBytes(m.sb.blockCount)
    requires SaveMount(dev, m)[a] != dev[a]
    ensures SUPER_OFFSET <= a < SUPER_OFFSET + SUPER_SIZE ||
            BlockBitmapOffset(m.sb) <= a < InodeBitmapOffset(m.sb) + |m.inodeBits|
  {
    hide EncodeSuper, BlockBitmapOffset;
    var d1 := Store(dev, BlockBitmapOffset(m.sb), m.blockBits);
    var d2 := Store(d1, InodeBitmapOffset(m.sb), m.inodeBits);
  }

  lemma SavedOutsideFile(s: System, l: Limits, m: Mounted, j: nat, a: nat)
    requires Grounded(s, l) && Holds(s, m) && Apart(m, l) && a < |s.dev|
    requires j in s.files && EntryOk(s, l, j) && Owns(s.g, s.files[j].core.lay, RecordOf(s, j), a)
    ensures SaveMount(s.dev, m)[a] == s.dev[a]
  {
    hide SaveMount, Stored, Sound, WellPlaced, InodeTableOffset, BlockBitmapOffset, BlockSize, BitmapBytes;
    var lay := s.files[j].core.lay;
    forall p | p in lay
      ensures l.meta * s.g.bs <= lay[p] * s.g.bs
    {
      MulMono(l.meta, lay[p], s.g.bs);
    }
    if SaveMount(s.dev, m)[a] != s.dev[a] {
      SavedBytes(s.dev, m, a);
    }
  }

  /** Saving what the mount holds and mounting the device again gives back the bitmaps, the counts and
      the geometry, and the files are as they were. */
  lemma RemountKeepsFiles(s: System, l: Limits, m: Mounted)
    requires Inv(s, l) && Holds(s, m) && Apart(m, l)
    requires Representable(m.sb) && Acceptable(m.sb)
    ensures ReadMount(SaveMount(s.dev, m)) == Mountable(m)
    ensures var s' := s.(dev := SaveMount(s.dev, m));
      && s'.(files := map[]) == SystemOf(s'.dev, m)
      && Inv(s', l) && View(s') == View(s)
  {
    hide EntryOk, Owns, Seen, SaveMount, ReadMount, Bits, BlockSize, InodeTableOffset, BlockBitmapOffset, BitmapBytes;
    var s' := s.(dev := SaveMount(s.dev, m));
    RoomHere(s, l, m);
    MountRoundTrip(s.dev, m);
    forall j | j in s.files
      ensures EntryOk(s', l, j) && Seen(s', j) == Seen(s, j)
    {
      forall a | 0 <= a < |s.dev| && Owns(s.g, s.files[j].core.lay, RecordOf(s, j), a)
        ensures s'.dev[a] == s.dev[a]
      {
        SavedOutsideFile(s, l, m, j, a);
      }
      FileElsewhere(s, s', l, j);
    }
    SameSystem(s', m);
  }

  lemma RoomHere(s: System, l: Limits, m: Mounted)
    requires Grounded(s, l) && Holds(s, m) && Apart(m, l)
    ensures RoomForMount(m, |s.dev|)
  {}

  lemma SameSystem(s: System, m: Mounted)
    requires Holds(s, m) && s.g.bs == 8 * s.g.p
    ensures s.(files := map[]) == SystemOf(s.dev, m)
  {}

  // ----- from formatting to the next mount -----

  /** No call moves the regions or changes the size of the device or of a bitmap. */
  lemma StepKeepsPlaces(s: System, l: Limits, op: Op)
    requires Inv(s, l) && Callable(s) && Allowed(s, op)
    ensures SamePlaces(s, Step(s, op).0)
  {
    hide EntryOk, Disjoint, Load, Close, ReadAll, WriteAll;
    TakeHealthy(s.inodes, l.inodes);
    if op.Write? {
      var w, mem := WriteStepIs(s, l, op.id, op.data);
    }
  }

  ghost predicate SamePlaces(s: System, t: System) {
    && t.g == s.g && t.table == s.table && |t.dev| == |s.dev|
    && |t.blocks.bits| == |s.blocks.bits| && |t.inodes.bits| == |s.inodes.bits|
  }

  lemma {:induction false} RunKeepsPlaces(s: System, l: Limits, ops: seq<Op>)
    requires Inv(s, l) && RunAllowed(s, ops)
    ensures SamePlaces(s, Run(s, ops).0)
    decreases |ops|
  {
    if ops != [] {
      StepKeepsPlaces(s, l, ops[0]);
      StepMeets(s, l, ops[0]);
      RunKeepsPlaces(Step(s, ops[0]).0, l, ops[1..]);
    }
  }

  /** m' is what the mount that started as m holds when its system has become t. */
  ghost predicate HeldNow(m: Mounted, t: System, m': Mounted, bootLoader: nat, signature: nat) {
    && bootLoader < WORD_LIMIT && signature < WORD_LIMIT
    && m'.sb == m.sb.(freeBlockCount := t.blocks.free, freeInodeCount := t.inodes.free,
                      bootLoaderInode := bootLoader, signature := signature)
    && Bits(m'.blockBits) == t.blocks.bits && Bits(m'.inodeBits) == t.inodes.bits
  }

  lemma ReadIsInOrder(dev: seq<byte>, m: Mounted)
    requires ReadMount(dev) == Mountable(m)
    ensures Representable(m.sb) && Acceptable(m.sb)
  {
    hide DecodeSuper, Representable;
    DecodedIsRepresentable(dev[SUPER_OFFSET..SUPER_OFFSET + SUPER_SIZE]);
  }

  /** What a mount read from the device has a word for every field, and so has what it holds later. */
  lemma HeldIsRepresentable(dev: seq<byte>, m: Mounted, t: System, l: Limits, m': Mounted, bootLoader: nat,
                            signature: nat)
    requires ReadMount(dev) == Mountable(m) && HeldNow(m, t, m', bootLoader, signature)
    requires Healthy(t.blocks, l.blocks) && Healthy(t.inodes, l.inodes)
    requires l.blocks == m.sb.blockCount && l.inodes == m.sb.inodeCount
    ensures Representable(m'.sb) && Acceptable(m'.sb)
  {
    hide ReadMount, Bits, BitmapBytes, BlockSize;
    ReadIsInOrder(dev, m);
    CountZeroIffNoneSet(t.blocks.bits, l.blocks);
    CountZeroIffNoneSet(t.inodes.bits, l.inodes);
    assert SuperWords(m.sb)[3] == m.sb.blockCount && SuperWords(m.sb)[4] == m.sb.inodeCount;
    forall j | 0 <= j < 14
      ensures SuperWords(m'.sb)[j] < WORD_LIMIT
    {
      assert SuperWords(m.sb)[j] < WORD_LIMIT;
    }
  }

  lemma HeldMatches(s: System, m: Mounted, t: System, l: Limits, m': Mounted, bootLoader: nat, signature: nat)
    requires Holds(s, m) && Apart(m, l) && SamePlaces(s, t) && HeldNow(m, t, m', bootLoader, signature)
    ensures Holds(t, m') && Apart(m', l)
  {
    assert BlockSize(m'.sb) == BlockSize(m.sb);
  }

  /** The whole life of a device: format it, mount it, make any run of allowed calls that leaves all files
      closed, unmount it and mount it again. The second mount finds the bitmaps, the counts and the
      geometry the first one left, and every file with the bytes that were written. */
  lemma FormatRunRemount(dev: seq<byte>, fsSize: nat, rootSize: nat, p: Plan, m: Mounted, ops: seq<Op>,
                         m': Mounted, bootLoader: nat, signature: nat)
    requires 1 <= p.log <= 5 && p == PlanFor(fsSize, p.log, rootSize) && Formatted(dev, p, m)
    requires fsSize <= |dev| && fsSize < WORD_LIMIT
    requires RunAllowed(SystemOf(dev, m), ops)
    requires var t := Run(SystemOf(dev, m), ops).0;
      && (forall id :: id in t.files ==> !t.files[id].open)
      && HeldNow(m, t, m', bootLoader, signature)
    ensures var s, t := SystemOf(dev, m), Run(SystemOf(dev, m), ops).0;
      var t' := t.(dev := SaveMount(t.dev, m'));
      && ReadMount(t'.dev) == Mountable(m')
      && SystemOf(t'.dev, m') == t'.(files := map[])
      && Inv(t', LimitsOf(p))
      && RunExpected(map[], ops, Run(s, ops).1)
      && View(t') == View(t) == RunAfter(map[], ops, Run(s, ops).1)
  {
    hide Inv, Formatted, RunAllowed, Run, SaveMount, ReadMount, Apart, Representable, Acceptable, HeldNow, Holds;
    var s, l := SystemOf(dev, m), LimitsOf(p);
    FormatAgrees(dev, fsSize, rootSize, p, m);
    FormattedHolds(dev, p, m);
    RunRefines(s, l, ops);
    RunKeepsPlaces(s, l, ops);
    var t := Run(s, ops).0;
    InvHealthy(t, l);
    HeldIsRepresentable(dev, m, t, l, m', bootLoader, signature);
    HeldMatches(s, m, t, l, m', bootLoader, signature);
    RemountKeepsFiles(t, l, m');
    assert View(s) == map[];
  }

  lemma FormattedHolds(dev: seq<byte>, p: Plan, m: Mounted)
    requires Formatted(dev, p, m)
    ensures Holds(SystemOf(dev, m), m) && ReadMount(dev) == Mountable(m)
    ensures LimitsOf(p).blocks == m.sb.blockCount && LimitsOf(p).inodes == m.sb.inodeCount
  {}

  lemma InvHealthy(s: System, l: Limits)
    requires Inv(s, l)
    ensures Healthy(s.blocks, l.blocks) && Healthy(s.inodes, l.inodes)
  {}
}
