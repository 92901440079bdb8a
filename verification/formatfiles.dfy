/**
 What no call of the library touches: everything in front of the data blocks but the records of inodes that
 are given out. The three files that formatting makes are there, the root table, the bad blocks and the
 journal, so they outlive every run of calls.
 */
module FormatFiles {
  import opened Arith
  import opened Bytes
  import opened Bitmap
  import opened Layouts
  import opened FileSpec
  import opened OnDisk
  import opened Systems
  import opened Superblocks
  import opened Formatting
  import opened Remounting

  // ----- what no call touches -----

  /** The first r inodes are taken, and none of them is a file. */
  predicate Reserved(s: System, r: nat) {
    && 0 < r <= |s.inodes.bits|
    && (forall j :: 0 <= j < r ==> !s.inodes.bits[j])
    && (forall id :: id in s.files ==> id >= r)
  }

  /** Inode 0 always is. */
  lemma ZeroIsReserved(s: System, l: Limits)
    requires Inv(s, l)
    ensures Reserved(s, 1)
  {
    forall id | id in s.files
      ensures id >= 1
    {
      FileIds(s, l, id);
    }
  }

  /** An address in front of the data blocks, in no record of an inode from r on. */
  predicate Untouched(s: System, l: Limits, r: nat, a: nat) {
    a < l.meta * s.g.bs && !(s.table + 64 * r <= a < s.table + 64 * l.inodes)
  }

  lemma OwnsNone(s: System, l: Limits, r: nat, id: nat, lay: Layout, a: nat)
    requires r <= id < l.inodes && InData(lay, l) && Untouched(s, l, r, a)
    ensures !Owns(s.g, lay, RecordOf(s, id), a)
  {
    forall p | p in lay
      ensures !InBlock(s.g, lay[p], a)
    {
      MulMono(l.meta, lay[p], s.g.bs);
    }
  }

  lemma FileIds(s: System, l: Limits, id: nat)
    requires Inv(s, l) && id in s.files
    ensures 0 < id < l.inodes && InData(s.files[id].core.lay, l)
  {
    assert EntryOk(s, l, id);
  }

  lemma StepReserves(s: System, l: Limits, op: Op, r: nat)
    requires Inv(s, l) && Callable(s) && Allowed(s, op) && Reserved(s, r)
    ensures Reserved(Step(s, op).0, r)
  {
    hide EntryOk, Disjoint, WriteAll, Close, Load, ReadAll;
    TakeHealthy(s.inodes, l.inodes);
  }

  lemma StepTouchesNone(s: System, l: Limits, op: Op, r: nat, a: nat)
    requires Inv(s, l) && Callable(s) && Allowed(s, op) && Reserved(s, r)
    requires a < |s.dev| && Untouched(s, l, r, a)
    ensures |Step(s, op).0.dev| == |s.dev| && Step(s, op).0.dev[a] == s.dev[a]
  {
    hide EntryOk, Grounded, Owns, Disjoint, Untouched, Callable, WriteAll, Close, Load, ReadAll, Take;
    match op
    case Write(id, data) =>
      StepMeets(s, l, op);
      var s' := Step(s, op).0;
      var w, mem := WriteStepIs(s, l, id, data);
      WriteConfined(s, l, id, data, s');
      FileIds(s', l, id);
      OwnsNone(s, l, r, id, s'.files[id].core.lay, a);
    case CloseFile(id) =>
      FileInOrder(s, l, id);
      CloseStepIs(s, l, id);
      FileIds(s, l, id);
      OwnsNone(s, l, r, id, s.files[id].core.lay, a);
      CloseConfined(s, l, id, a);
    case _ =>
  }

  /** Over a run of allowed calls. */
  lemma {:induction false} RunTouchesNone(s: System, l: Limits, ops: seq<Op>, r: nat, a: nat)
    requires Inv(s, l) && RunAllowed(s, ops) && Reserved(s, r) && a < |s.dev| && Untouched(s, l, r, a)
    ensures |Run(s, ops).0.dev| == |s.dev| && Run(s, ops).0.dev[a] == s.dev[a]
    decreases |ops|
  {
    hide Inv, Step, Callable, Allowed, Reserved;
    if ops != [] {
      StepMeets(s, l, ops[0]);
      StepTouchesNone(s, l, ops[0], r, a);
      StepReserves(s, l, ops[0], r);
      StepKeepsPlaces(s, l, ops[0]);
      RunTouchesNone(Step(s, ops[0]).0, l, ops[1..], r, a);
    }
  }

  // ----- the files that formatting makes -----

  /** How mkfs and the library see the block size. */
  lemma PlanGeo(dev: seq<byte>, p: Plan, m: Mounted)
    requires Formatted(dev, p, m)
    ensures var g := SystemOf(dev, m).g;
      && g.bs == 8 * g.p && g.bs == Pow2(7 + p.log)
      && SystemOf(dev, m).table == p.boot * g.bs && SystemOf(dev, m).files == map[]
  {
    hide ReadMount, Bits;
    BlockSizeInEights(m.sb);
  }

  /** Where the root table is there, the library can open it as inode 0. */
  lemma RootOpens(g: Geo, dev: seq<byte>, fsSize: nat, p: Plan, rootTable: seq<byte>)
    requires 1 <= p.log <= 5 && p == PlanFor(fsSize, p.log, |rootTable|) && Used(p) <= p.blocks
    requires g.bs == 8 * g.p && g.bs == Pow2(7 + p.log) && RootThere(dev, p, rootTable)
    requires |rootTable| <= 1024 && fsSize < WORD_LIMIT
    ensures Opens(g, dev, p.boot * g.bs, rootTable)
  {
    hide Opens, Pow2, RoundUp, BlocksAt, InodesFor, FirstInodeBlock, SmallThere, BitmapBytes;
    RootOf(fsSize, p.log, |rootTable|, p);
    RootFitsDirect(|rootTable|, p.log);
    BlocksBelow(fsSize, p.log);
    BootAreaHoldsSuperblock(p.log);
    SmallFileOpens(g, dev, p.boot * g.bs, rootTable, p.boot + p.table + p.maps);
  }

  /** The record leads to an empty file that holds no block. */
  ghost predicate OpensEmpty(g: Geo, dev: seq<byte>, rec: nat)
    requires g.bs == 8 * g.p
  {
    && Opens(g, dev, rec, [])
    && forall s :: s in Load(g, dev, rec).lay ==> Load(g, dev, rec).lay[s] == 0
  }

  /** The records of the bad blocks and the journal are those of empty files: the library opens both, and none
      of their blocks has an id. */
  lemma EmptyOpens(g: Geo, dev: seq<byte>, rec: nat)
    requires g.bs == 8 * g.p && rec + 64 <= |dev| && forall a :: rec <= a < rec + 64 ==> dev[a] == 0
    ensures OpensEmpty(g, dev, rec)
  {
    hide Load, Record, RecordStored, Storable;
    NoBlocks(g.bs);
    forall b: nat | b < 64
      ensures dev[rec..rec + 64][b] == Record(SmallTree(1, 0), 0)[b]
    {
      EmptyRecord(1, b);
    }
    assert dev[rec..rec + 64] == Record(SmallTree(1, 0), 0);
    SmallTreeStorable(g, 1, 0, rec, 0, |dev|);
    SmallRecordStored(dev, SmallTree(1, 0), rec, 0);
    ReloadIsPad(g, dev, SmallTree(1, 0), rec, 0);
  }

  /** Where those files are: three records, and the blocks of the root table. */
  predicate OfFormat(p: Plan, size: nat, a: nat) {
    var k := p.boot + p.table + p.maps;
    p.boot * size <= a < p.boot * size + 192 || k * size <= a < (k + p.root) * size
  }

  lemma FormatUntouched(s: System, fsSize: nat, p: Plan, rootSize: nat, a: nat)
    requires 1 <= p.log <= 5 && p == PlanFor(fsSize, p.log, rootSize) && Used(p) <= p.blocks && p.inodes >= 3
    requires s.g.bs == Pow2(7 + p.log) && s.table == p.boot * s.g.bs && OfFormat(p, s.g.bs, a)
    ensures Untouched(s, LimitsOf(p), 3, a)
  {
    hide Pow2, RoundUp, BitmapBytes, BlocksAt, InodesFor, FirstInodeBlock;
    var size, k := s.g.bs, p.boot + p.table + p.maps;
    RootPlaces(fsSize, p, rootSize, size, s.table, k);
    PlanFits(fsSize, p.log, rootSize, p, size);
    assert (p.boot + p.table) * size == s.table + p.table * size;
    MulMono(k, k + p.root, size);
    MulMono(p.boot + p.table, k, size);
  }

  lemma FormatStays(dev: seq<byte>, dev': seq<byte>, fsSize: nat, p: Plan, rootTable: seq<byte>, size: nat)
    requires 1 <= p.log <= 5 && p == PlanFor(fsSize, p.log, |rootTable|) && size == Pow2(7 + p.log)
    requires RootThere(dev, p, rootTable) && EmptyThere(dev, p) && |dev'| == |dev|
    requires forall a: nat :: a < |dev| && OfFormat(p, size, a) ==> dev'[a] == dev[a]
    ensures RootThere(dev', p, rootTable) && EmptyThere(dev', p)
  {
    hide SmallThere, Pow2, RoundUp, BlocksAt, InodesFor, FirstInodeBlock, BitmapBytes;
    RootOf(fsSize, p.log, |rootTable|, p);
    var k := p.boot + p.table + p.maps;
    SmallOnDevice(dev, size, p.boot * size, rootTable, k);
    SmallStays(dev, dev', size, p.boot * size, rootTable, k);
  }

  lemma RunKeepsFormat(dev: seq<byte>, fsSize: nat, rootTable: seq<byte>, p: Plan, m: Mounted, ops: seq<Op>)
    requires 1 <= p.log <= 5 && p == PlanFor(fsSize, p.log, |rootTable|) && Formatted(dev, p, m)
    requires fsSize <= |dev| && fsSize < WORD_LIMIT && RootThere(dev, p, rootTable) && EmptyThere(dev, p)
    requires RunAllowed(SystemOf(dev, m), ops)
    ensures var t := Run(SystemOf(dev, m), ops).0;
      RootThere(t.dev, p, rootTable) && EmptyThere(t.dev, p)
  {
    hide SmallThere, Inv, RunAllowed, Run, SystemOf, Pow2, RoundUp, PlanFor, Untouched, Formatted, OfFormat, Reserved;
    hide RootThere, EmptyThere;
    var s, l := SystemOf(dev, m), LimitsOf(p);
    FormatAgrees(dev, fsSize, |rootTable|, p, m);
    PlanGeo(dev, p, m);
    FormattedUses(dev, fsSize, |rootTable|, p, m);
    RunKeepsPlaces(s, l, ops);
    FormatReserves(dev, p, m);
    forall a: nat | a < |dev| && OfFormat(p, s.g.bs, a)
      ensures Run(s, ops).0.dev[a] == dev[a]
    {
      FormatUntouched(s, fsSize, p, |rootTable|, a);
      RunTouchesNone(s, l, ops, 3, a);
    }
    FormatStays(dev, Run(s, ops).0.dev, fsSize, p, rootTable, s.g.bs);
  }

  lemma FormatReserves(dev: seq<byte>, p: Plan, m: Mounted)
    requires Formatted(dev, p, m) && p.inodes >= 3
    ensures Reserved(SystemOf(dev, m), 3)
  {
    hide ReadMount;
  }

  lemma FormattedUses(dev: seq<byte>, fsSize: nat, rootSize: nat, p: Plan, m: Mounted)
    requires Formatted(dev, p, m) && p == PlanFor(fsSize, p.log, rootSize)
    ensures Used(p) <= p.blocks && p.inodes >= 3 && SystemOf(dev, m).dev == dev
  {}

  /** The library opens inode 0 as the root table, and the inodes of the bad blocks and the journal as empty
      files. */
  ghost predicate FilesOpen(g: Geo, dev: seq<byte>, sb: Super, rootTable: seq<byte>)
    requires g.bs == 8 * g.p
  {
    && Opens(g, dev, InodeTableOffset(sb), rootTable)
    && OpensEmpty(g, dev, InodeTableOffset(sb) + 64 * sb.badBlockInode)
    && OpensEmpty(g, dev, InodeTableOffset(sb) + 64 * sb.journalInode)
  }

  /** What formatting makes outlives every run of calls and the unmounting behind it: the library still opens
      inode 0 as the root table that was written, and the inodes of the bad blocks and the journal as empty
      files. */
  lemma FormatFilesStay(dev: seq<byte>, fsSize: nat, rootTable: seq<byte>, p: Plan, m: Mounted, ops: seq<Op>,
                       m': Mounted, bootLoader: nat, signature: nat)
    requires 1 <= p.log <= 5 && p == PlanFor(fsSize, p.log, |rootTable|) && Formatted(dev, p, m)
    requires fsSize <= |dev| && fsSize < WORD_LIMIT && |rootTable| <= 1024
    requires RootThere(dev, p, rootTable) && EmptyThere(dev, p)
    requires RunAllowed(SystemOf(dev, m), ops)
    requires HeldNow(m, Run(SystemOf(dev, m), ops).0, m', bootLoader, signature)
    ensures FilesOpen(SystemOf(dev, m).g, Run(SystemOf(dev, m), ops).0.dev, m.sb, rootTable)
    ensures FilesOpen(SystemOf(dev, m).g, SaveMount(Run(SystemOf(dev, m), ops).0.dev, m'), m'.sb, rootTable)
  {
    hide SmallThere, Inv, RunAllowed, Run, Pow2, RoundUp, PlanFor, Formatted, Opens, SaveMount, HeldNow, Holds, Apart;
    hide RootThere, EmptyThere, SystemOf, FilesOpen, InodeTableOffset;
    var s, l := SystemOf(dev, m), LimitsOf(p);
    FormatAgrees(dev, fsSize, |rootTable|, p, m);
    FormattedHolds(dev, p, m);
    PlanGeo(dev, p, m);
    FormattedUses(dev, fsSize, |rootTable|, p, m);
    RunKeepsFormat(dev, fsSize, rootTable, p, m, ops);
    RunKeepsPlaces(s, l, ops);
    var t := Run(s, ops).0;
    HeldMatches(s, m, t, l, m', bootLoader, signature);
    SameAreas(dev, p, m, t, m', bootLoader, signature);
    SameTable(s, m, t, m');
    PlanOpens(s.g, t.dev, fsSize, p, rootTable, m.sb);
    SaveKeepsFormat(t, fsSize, p, rootTable, m');
    PlanOpens(s.g, SaveMount(t.dev, m'), fsSize, p, rootTable, m'.sb);
  }

  lemma PlanOpens(g: Geo, dev: seq<byte>, fsSize: nat, p: Plan, rootTable: seq<byte>, sb: Super)
    requires 1 <= p.log <= 5 && p == PlanFor(fsSize, p.log, |rootTable|) && Used(p) <= p.blocks
    requires g.bs == 8 * g.p && g.bs == Pow2(7 + p.log) && RootThere(dev, p, rootTable) && EmptyThere(dev, p)
    requires |rootTable| <= 1024 && fsSize < WORD_LIMIT
    requires InodeTableOffset(sb) == p.boot * g.bs && sb.badBlockInode == 1 && sb.journalInode == 2
    ensures FilesOpen(g, dev, sb, rootTable)
  {
    hide Opens, OpensEmpty, Pow2, RootThere, PlanFor, Used, InodeTableOffset;
    RootOpens(g, dev, fsSize, p, rootTable);
    EmptyOpens(g, dev, InodeTableOffset(sb) + 64);
    EmptyOpens(g, dev, InodeTableOffset(sb) + 128);
  }

  lemma SameTable(s: System, m: Mounted, t: System, m': Mounted)
    requires Holds(s, m) && Holds(t, m') && SamePlaces(s, t)
    ensures InodeTableOffset(m.sb) == s.table == InodeTableOffset(m'.sb)
  {}

  lemma SameAreas(dev: seq<byte>, p: Plan, m: Mounted, t: System, m': Mounted, bootLoader: nat, signature: nat)
    requires Formatted(dev, p, m) && HeldNow(m, t, m', bootLoader, signature)
    ensures m'.sb.bitmapsBlock == p.boot + p.table
    ensures m.sb.badBlockInode == m'.sb.badBlockInode == 1 && m.sb.journalInode == m'.sb.journalInode == 2
    ensures m'.sb.blockCount == p.blocks && m'.sb.inodeCount == p.inodes
  {}

  /** The superblock and the bitmaps that unmounting writes lie elsewhere. */
  lemma SaveKeepsFormat(t: System, fsSize: nat, p: Plan, rootTable: seq<byte>, m: Mounted)
    requires 1 <= p.log <= 5 && p == PlanFor(fsSize, p.log, |rootTable|) && Used(p) <= p.blocks && p.inodes >= 3
    requires t.g.bs == Pow2(7 + p.log) && t.table == p.boot * t.g.bs
    requires RootThere(t.dev, p, rootTable) && EmptyThere(t.dev, p)
    requires Holds(t, m) && m.sb.bitmapsBlock == p.boot + p.table
    requires m.sb.blockCount == p.blocks && m.sb.inodeCount == p.inodes
    ensures RootThere(SaveMount(t.dev, m), p, rootTable) && EmptyThere(SaveMount(t.dev, m), p)
  {
    hide RootThere, EmptyThere, Pow2, RoundUp, PlanFor, SaveMount, BitmapBytes, Bits;
    var size, k := t.g.bs, p.boot + p.table + p.maps;
    RootPlaces(fsSize, p, |rootTable|, size, t.table, k);
    assert BlockBitmapOffset(m.sb) == (p.boot + p.table) * size;
    forall a: nat | a < |t.dev| && OfFormat(p, size, a)
      ensures SaveMount(t.dev, m)[a] == t.dev[a]
    {
      if SaveMount(t.dev, m)[a] != t.dev[a] {
        SavedBytes(t.dev, m, a);
      }
    }
    SavedSize(t.dev, m);
    FormatStays(t.dev, SaveMount(t.dev, m), fsSize, p, rootTable, size);
  }

  lemma SavedSize(dev: seq<byte>, m: Mounted)
    ensures |SaveMount(dev, m)| == |dev|
  {}
}
