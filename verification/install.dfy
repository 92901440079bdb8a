/**
 When the boot loader installer may be called. The library's calls are safe under conditions a caller can
 check; put together they give the exact condition for an installation, first or repeated, and what it
 leaves behind.
 */
module Installing {
  import opened Arith
  import opened Bytes
  import opened Bitmap
  import opened Layouts
  import opened FileSpec
  import opened OnDisk
  import opened Systems
  import opened Pieces
  import opened Reopening
  import opened Inodes
  import opened BootLoaders

  // ----- a write in pieces is allowed when the whole is -----

  /** What an open inode holds differs from the file it stands for only when that has fewer than four blocks. */
  lemma PaddedDiffers(g: Geo, f: File)
    requires Dense(g.p, f.lay, f.n)
    ensures Padded(f) == f <==> f.n >= 4
  {
    PadIsDense(g.p, f.lay, f.n);
  }

  lemma WriteKeepsKind(s: System, l: Limits, id: nat, data: seq<byte>)
    requires Inv(s, l) && Callable(s) && Allowed(s, Write(id, data)) && data != []
    ensures var f, s' := s.files[id].core, Step(s, Write(id, data)).0;
      && id in s'.files && s'.files[id].open && s'.g == s.g
      && (s'.files[id].mem == s'.files[id].core <==> s.files[id].mem == f)
      && s'.files[id].core.cursor == f.cursor + |data|
      && s'.files[id].core.n == LeavesAfter(s.g, f, |data|)
      && (s.files[id].mem != f ==> s'.files[id].core.n == f.n)
      && s.blocks.free == s'.blocks.free + BlocksFor(s.g.p, f.n, s'.files[id].core.n)
      && s'.files[id].core == WriteAll(s.g, Disk(s.dev, s.blocks), f, data).f
      && s'.blocks == WriteAll(s.g, Disk(s.dev, s.blocks), f, data).disk.al
  {
    hide EntryOk, Grounded, WriteAll, Affordable, LeavesAfter, BlocksFor;
    var e, disk := s.files[id], Disk(s.dev, s.blocks);
    FileInOrder(s, l, id);
    EntryIntact(s, l, id);
    WriteGuard(s, l, id, data);
    var w, mem := WriteStepIs(s, l, id, data);
    WriteArrives(s.g, disk, e.core, data, l.blocks);
    if e.mem != e.core {
      PaddedDiffers(s.g, e.core);
      PaddedWrite(s.g, disk, e.core, data);
    }
  }

  /** Two writes one after the other are allowed exactly when the write of both is. */
  lemma WritesAllowedIff(s: System, l: Limits, id: nat, a: seq<byte>, b: seq<byte>)
    requires Inv(s, l) && Callable(s) && id in s.files && s.files[id].open && a != []
    ensures Allowed(s, Write(id, a + b)) <==>
            Allowed(s, Write(id, a)) && Allowed(Step(s, Write(id, a)).0, Write(id, b))
  {
    hide EntryOk, Grounded, WriteAll, Affordable, LeavesAfter, BlocksFor, Step, Inv;
    FileInOrder(s, l, id);
    var e, disk := s.files[id], Disk(s.dev, s.blocks);
    EntryIntact(s, l, id);
    if Allowed(s, Write(id, a + b)) {
      WriteGuard(s, l, id, a + b);
      AffordableLess(s.g, s.blocks, e.core, |a|, |b|);
    }
    if Allowed(s, Write(id, a)) {
      WriteKeepsKind(s, l, id, a);
      var s' := Step(s, Write(id, a)).0;
      var f' := s'.files[id].core;
      LeavesMono(s.g, e.core.cursor + |a|, e.core.cursor + |a| + |b|);
      LeavesGrow(s.g, e.core, |a|, |a| + |b|);
      if Allowed(s, Write(id, a + b)) {
        AffordableAgain(s.g, disk, e.core, a, |b|, l.blocks);
        MulMono(e.core.n, f'.n, s.g.bs);
      } else if Allowed(s', Write(id, b)) && e.mem == e.core {
        StepMeets(s, l, Write(id, a));
        WriteGuard(s', l, id, b);
        AffordableBack(s.g, s.blocks, e.core, s'.blocks, f', |a| + |b|, |a|);
      }
    }
  }

  lemma LeavesGrow(g: Geo, f: File, a: nat, b: nat)
    requires LeavesFor(g, f.cursor + a) <= LeavesFor(g, f.cursor + b)
    ensures f.n <= LeavesAfter(g, f, a) <= LeavesAfter(g, f, b)
  {}

  /** The loop of the installer can be run exactly when the source could be written at once. */
  lemma {:induction false} TransferAllowedIff(s: System, l: Limits, id: nat, source: seq<byte>)
    requires Inv(s, l) && Callable(s) && id in s.files && s.files[id].open
    ensures RunAllowed(s, Transfer(id, source)) <==> Allowed(s, Write(id, source))
    decreases |source|
  {
    hide EntryOk, Grounded, Step, Inv, Allowed, Callable;
    var ops := Transfer(id, source);
    if source == [] {
      NothingAllowed(s, l, id);
      assert ops == [CloseFile(id)] && ops[1..] == [];
      CloseCallable(s, l, id);
    } else {
      var a, b := Chunk(source), source[|Chunk(source)|..];
      assert source == a + b;
      assert ops[0] == Write(id, a) && ops[1..] == Transfer(id, b);
      WritesAllowedIff(s, l, id, a, b);
      if Allowed(s, Write(id, a)) {
        StepMeets(s, l, Write(id, a));
        WriteKeepsKind(s, l, id, a);
        var s' := Step(s, Write(id, a)).0;
        InvCallable(s', l);
        TransferAllowedIff(s', l, id, b);
      }
    }
  }

  lemma NothingAllowed(s: System, l: Limits, id: nat)
    requires Inv(s, l) && id in s.files && s.files[id].open
    ensures Allowed(s, Write(id, []))
  {
    assert EntryOk(s, l, id);
  }

  lemma CloseCallable(s: System, l: Limits, id: nat)
    requires Inv(s, l) && Callable(s) && id in s.files && s.files[id].open
    ensures Allowed(s, CloseFile(id)) && Callable(Step(s, CloseFile(id)).0)
  {
    StepMeets(s, l, CloseFile(id));
    InvCallable(Step(s, CloseFile(id)).0, l);
  }

  // ----- the exact condition -----

  /** What can be checked before an installation. A first one needs an inode and room for the file. A
      repeated one needs a boot loader that is a closed file; the source fits in the blocks that has, or
      it has four and there is room for what the source adds. */
  predicate Installable(s: System, bootLoader: nat, source: seq<byte>) {
    if bootLoader == 0 then Room(s, |source|)
    else
      && bootLoader in s.files && !s.files[bootLoader].open && |source| < WORD_LIMIT
      && (var f := s.files[bootLoader].core.(cursor := 0);
          |source| <= f.n * s.g.bs || (f.n >= 4 && Affordable(s.g, s.blocks, f, |source|)))
  }

  lemma OpenedAllows(s: System, l: Limits, id: nat, source: seq<byte>)
    requires Inv(s, l) && Callable(s) && id != 0 && id in s.files && !s.files[id].open
    ensures Allowed(Step(s, OpenFile(id)).0, Write(id, source)) <==> Installable(s, id, source)
  {
    hide Inv, Affordable, Load;
    TargetIs(s, l, id);
    PaddedDiffers(s.g, s.files[id].core.(cursor := 0));
  }

  lemma CreatedAllows(s: System, l: Limits, source: seq<byte>)
    requires Inv(s, l) && Callable(s) && s.inodes.free > 0
    ensures Allowed(Step(s, Create).0, Write(Take(s.inodes).id, source)) <==> Installable(s, 0, source)
  {
    hide Inv, Take;
    NothingIsAffordable(s.g, s.blocks, EMPTY) by { EmptyIsDense(s.g.p); }
    assert LeavesAfter(s.g, EMPTY, |source|) == LeavesFor(s.g, |source|);
  }

  /** Every call of the installer is allowed if and only if it is called under this condition. */
  lemma InstallAllowedIff(s: System, l: Limits, bootLoader: nat, source: seq<byte>)
    requires Inv(s, l)
    ensures RunAllowed(s, InstallOps(s, bootLoader, source)) <==> Installable(s, bootLoader, source)
  {
    hide Inv, Callable, Step, Take, Room, View, Transfer;
    InvCallable(s, l);
    var ops, id := InstallOps(s, bootLoader, source), Target(s, bootLoader);
    assert ops[1..] == Transfer(id, source);
    if Allowed(s, ops[0]) {
      StepMeets(s, l, ops[0]);
      var s' := Step(s, ops[0]).0;
      InvCallable(s', l);
      FirstCallOpens(s, bootLoader, ops[0]);
      TransferAllowedIff(s', l, id, source);
      if bootLoader != 0 {
        OpenedAllows(s, l, bootLoader, source);
      } else {
        CreatedAllows(s, l, source);
      }
    } else {
      NotInstallable(s, bootLoader, source);
    }
  }

  lemma FirstCallOpens(s: System, bootLoader: nat, op: Op)
    requires op == if bootLoader != 0 then OpenFile(bootLoader) else Create
    requires Callable(s) && Allowed(s, op)
    ensures var s', id := Step(s, op).0, Target(s, bootLoader);
      id in s'.files && s'.files[id].open
  {}

  lemma NotInstallable(s: System, bootLoader: nat, source: seq<byte>)
    requires !Allowed(s, if bootLoader != 0 then OpenFile(bootLoader) else Create)
    ensures !Installable(s, bootLoader, source)
  {}

  // ----- what a run of the installer leaves -----

  lemma InstallSteps(s: System, l: Limits, bootLoader: nat, source: seq<byte>)
    requires Inv(s, l) && RunAllowed(s, InstallOps(s, bootLoader, source))
    ensures var op := if bootLoader != 0 then OpenFile(bootLoader) else Create;
      var rest := Transfer(Target(s, bootLoader), source);
      && Able(s, l, op) && Inv(Step(s, op).0, l) && RunAllowed(Step(s, op).0, rest)
      && Run(s, InstallOps(s, bootLoader, source)).0 == Run(Step(s, op).0, rest).0
  {
    hide Inv, Step, Callable, Allowed, Expected, After, Take;
    var ops := InstallOps(s, bootLoader, source);
    assert ops[1..] == Transfer(Target(s, bootLoader), source);
    StepMeets(s, l, ops[0]);
  }

  /** With an inode free and room for the file, a first installation can be made. */
  lemma FirstInstallAllowed(s: System, l: Limits, source: seq<byte>)
    requires Inv(s, l) && Room(s, |source|)
    ensures RunAllowed(s, InstallOps(s, 0, source))
  {
    InstallAllowedIff(s, l, 0, source);
  }

  /** The installed boot loader is the source, laid over what the old one had behind it, and closed; no
      other file changes. */
  lemma InstallGives(s: System, l: Limits, bootLoader: nat, source: seq<byte>) returns (t: System)
    requires Inv(s, l) && Installable(s, bootLoader, source)
    ensures RunAllowed(s, InstallOps(s, bootLoader, source)) && t == Run(s, InstallOps(s, bootLoader, source)).0
    ensures Inv(t, l)
    ensures bootLoader != 0 ==> bootLoader in View(s)
    ensures var was := if bootLoader != 0 then View(s)[bootLoader].content else [];
      View(t) == View(s)[Target(s, bootLoader) := Simple(Overwrite(was, 0, source), |source|, false)]
  {
    hide Inv, Take, Step, Callable, Allowed, View, Transfer, Installable;
    var id, ops := Target(s, bootLoader), InstallOps(s, bootLoader, source);
    InstallAllowedIff(s, l, bootLoader, source);
    t := Run(s, ops).0;
    InstallSteps(s, l, bootLoader, source);
    RunRefines(s, l, ops);
    var a, outs := View(s), Run(s, ops).1;
    OpsOf(s, bootLoader, source);
    FirstOutcome(s, ops);
    StepMeets(s, l, ops[0]);
    FirstCall(s, bootLoader, ops[0], outs[0]);
    var b := After(a, ops[0], outs[0]);
    TransferGives(b, id, source, outs[1..]);
  }

  lemma OpsOf(s: System, bootLoader: nat, source: seq<byte>)
    ensures var ops := InstallOps(s, bootLoader, source);
      && ops != [] && ops[0] == (if bootLoader != 0 then OpenFile(bootLoader) else Create)
      && ops[1..] == Writes(Target(s, bootLoader), Chunks(source)) + [CloseFile(Target(s, bootLoader))]
  {
    assert InstallOps(s, bootLoader, source)[1..] == Transfer(Target(s, bootLoader), source);
  }

  lemma FirstOutcome(s: System, ops: seq<Op>)
    requires RunAllowed(s, ops) && ops != []
    ensures Run(s, ops).1 != [] && Run(s, ops).1[0] == Step(s, ops[0]).1
  {}

  /** Opened or created, the file is there with its cursor at the start. */
  lemma FirstCall(s: System, bootLoader: nat, op: Op, out: Out)
    requires op == if bootLoader != 0 then OpenFile(bootLoader) else Create
    requires Callable(s) && Allowed(s, op) && out == Step(s, op).1 && Expected(View(s), op, out)
    ensures bootLoader != 0 ==> bootLoader in View(s)
    ensures var was := if bootLoader != 0 then View(s)[bootLoader].content else [];
      After(View(s), op, out) == View(s)[Target(s, bootLoader) := Simple(was, 0, true)]
  {}

  lemma TransferGives(b: map<nat, Simple>, id: nat, source: seq<byte>, outs: seq<Out>)
    requires RunExpected(b, Writes(id, Chunks(source)) + [CloseFile(id)], outs)
    requires id in b && b[id].open && b[id].cursor == 0
    ensures RunAfter(b, Writes(id, Chunks(source)) + [CloseFile(id)], outs) ==
            b[id := Simple(Overwrite(b[id].content, 0, source), |source|, false)]
  {
    var xs, ys := Writes(id, Chunks(source)), [CloseFile(id)];
    ChunksMakeSource(source);
    RunSplits(b, xs, ys, outs);
    WritesOverwrite(b, id, Chunks(source), outs[..|xs|]);
    RunAfterSplits(b, xs, ys, outs);
    assert ys[1..] == [];
  }

  lemma {:induction false} RunAfterSplits(a: map<nat, Simple>, xs: seq<Op>, ys: seq<Op>, outs: seq<Out>)
    requires RunExpected(a, xs + ys, outs)
    requires RunExpected(a, xs, outs[..|xs|])
    requires RunExpected(RunAfter(a, xs, outs[..|xs|]), ys, outs[|xs|..])
    ensures RunAfter(a, xs + ys, outs) == RunAfter(RunAfter(a, xs, outs[..|xs|]), ys, outs[|xs|..])
    decreases |xs|
  {
    if xs == [] {
      assert xs + ys == ys && outs[0..] == outs;
    } else {
      assert (xs + ys)[1..] == xs[1..] + ys;
      assert outs[..|xs|][1..] == outs[1..][..|xs| - 1] && outs[1..][|xs| - 1..] == outs[|xs|..];
      RunAfterSplits(After(a, xs[0], outs[0]), xs[1..], ys, outs[1..]);
    }
  }

  /** The boot loader installed is the source, and nothing else, if and only if it is the first one or the old
      one was not longer. */
  lemma InstalledIsSourceIff(s: System, l: Limits, bootLoader: nat, source: seq<byte>)
    requires Inv(s, l) && Installable(s, bootLoader, source)
    ensures RunAllowed(s, InstallOps(s, bootLoader, source))
    ensures bootLoader != 0 ==> bootLoader in View(s)
    ensures var v, id := View(Run(s, InstallOps(s, bootLoader, source)).0), Target(s, bootLoader);
      && id in v
      && (v[id].content == source <==> bootLoader == 0 || |View(s)[bootLoader].content| <= |source|)
  {
    hide Inv, Installable, RunAllowed, Run, View, Take;
    var t := InstallGives(s, l, bootLoader, source);
  }

  // ----- the installer in memory makes that run -----

  lemma TransferSteps(s: System, l: Limits, id: nat, source: seq<byte>)
    requires Inv(s, l) && RunAllowed(s, Transfer(id, source))
    ensures source != [] ==>
      var op := Write(id, Chunk(source));
      var rest := Transfer(id, source[|Chunk(source)|..]);
      && Able(s, l, op) && Inv(Step(s, op).0, l) && RunAllowed(Step(s, op).0, rest)
      && Run(s, Transfer(id, source)).0 == Run(Step(s, op).0, rest).0
    ensures source == [] ==> Able(s, l, CloseFile(id)) && Run(s, Transfer(id, source)).0 == Step(s, CloseFile(id)).0
  {
    hide Inv, Step, Callable, Allowed, Expected, After;
    var ops := Transfer(id, source);
    if source != [] {
      assert ops[0] == Write(id, Chunk(source));
      assert ops[1..] == Transfer(id, source[|Chunk(source)|..]);
      StepMeets(s, l, ops[0]);
    } else {
      assert ops == [CloseFile(id)] && ops[1..] == [];
    }
  }

  /** The transfer is one write of the source, and a close. */
  lemma {:induction false} TransferIsRun(s: System, l: Limits, id: nat, source: seq<byte>)
    requires Inv(s, l) && RunAllowed(s, Transfer(id, source)) && id in s.files && s.files[id].open
    ensures var w, t := WriteAll(s.g, Disk(s.dev, s.blocks), s.files[id].mem, source), Run(s, Transfer(id, source)).0;
      && w.written == |source|
      && t == s.(dev := Close(s.g, w.disk.dev, w.f.lay, RecordOf(s, id), w.f.size), blocks := w.disk.al,
                 files := t.files)
    decreases |source|
  {
    hide Inv, RunAllowed, Run, Callable, Allowed, WriteAll, Close, Reachable, Transfer;
    TransferSteps(s, l, id, source);
    var mem, disk := s.files[id].mem, Disk(s.dev, s.blocks);
    if source == [] {
      WriteNothing(s.g, disk, mem);
    } else {
      var a, b := Chunk(source), source[|Chunk(source)|..];
      assert source == a + b;
      MemReaches(s, l, id);
      WritePieces(s.g, disk, mem, a, b, l.blocks);
      var v, core := WriteStepIs(s, l, id, a);
      TransferIsRun(Step(s, Write(id, a)).0, l, id, b);
    }
  }

  lemma MemReaches(s: System, l: Limits, id: nat)
    requires Inv(s, l) && id in s.files
    ensures Reachable(s.g, Disk(s.dev, s.blocks), s.files[id].mem, l.blocks)
  {
    FileInOrder(s, l, id);
    EntryIntact(s, l, id);
    PaddedReaches(s.g, Disk(s.dev, s.blocks), s.files[id].core, l.blocks);
  }

  /** Called under its condition, the installer succeeds and makes the run of the allowed calls. */
  lemma InstallIsRun(s: System, l: Limits, bootLoader: nat, source: seq<byte>)
    requires Inv(s, l) && Callable(s) && Installable(s, bootLoader, source)
    ensures RunAllowed(s, InstallOps(s, bootLoader, source))
    ensures bootLoader != 0 ==> bootLoader in s.files
    ensures var o, t := InstallOutcome(s, bootLoader, source), Run(s, InstallOps(s, bootLoader, source)).0;
      && o.result == 0
      && t == System(s.g, o.dev, o.blocks, o.inodes, s.table, t.files)
  {
    hide Inv, Installable, RunAllowed, Run, WriteAll, Close, Load, Transfer, Take;
    InstallAllowedIff(s, l, bootLoader, source);
    InstallSteps(s, l, bootLoader, source);
    var op := if bootLoader != 0 then OpenFile(bootLoader) else Create;
    FirstCallOpens(s, bootLoader, op);
    TransferIsRun(Step(s, op).0, l, Target(s, bootLoader), source);
    NewIdIsNotZero(s, l);
  }

  lemma NewIdIsNotZero(s: System, l: Limits)
    requires Inv(s, l)
    ensures Take(s.inodes).id == 0 <==> s.inodes.free == 0
  {
    TakeHealthy(s.inodes, l.inodes);
  }

  /** No index block has id 0. */
  ghost predicate IndexSound(lay: Layout) {
    forall p :: p in lay && !p.Leaf? ==> lay[p] != 0
  }

  /** Exactly when it is safe to call the installer: it reports success, with every byte of the source in a
      block of the file and every index block at a place of its own, if and only if it is called under its
      condition. */
  lemma InstallSafeIff(s: System, l: Limits, bootLoader: nat, source: seq<byte>)
    requires Inv(s, l) && Callable(s) && |source| < WORD_LIMIT
    requires bootLoader != 0 ==> bootLoader in s.files && !s.files[bootLoader].open
    ensures var o := InstallOutcome(s, bootLoader, source);
      o.result == 0 && HasBlocks(s.g, o.f.lay, 0, |source|) && IndexSound(o.f.lay) <==>
      Installable(s, bootLoader, source)
  {
    hide Inv, Load, WriteAll, Close, Take, HasBlocks, IndexSound, Intact, Affordable;
    var disk := Disk(s.dev, s.blocks);
    NewIdIsNotZero(s, l);
    if bootLoader == 0 {
      NewFileIntact(s, l);
      WriteSafeIff(s.g, disk, EMPTY, source, l.blocks);
      RoomIsAffordable(s, source);
    } else {
      TargetIs(s, l, bootLoader);
      var f := s.files[bootLoader].core.(cursor := 0);
      IntactIsReady(s.g, disk, f, l.blocks);
      PaddedDiffers(s.g, f);
      if f.n >= 4 {
        WriteSafeIff(s.g, disk, f, source, l.blocks);
        if |source| <= f.n * s.g.bs {
          WithinIsAffordable(s.g, s.blocks, f, |source|);
        }
      } else if |source| <= f.n * s.g.bs {
        OwnPart(s.g, disk, f, source, l.blocks);
        ReopenedWriteIff(s.g, disk, f, source, l.blocks);
        ShortHasNoIndex(s.g, f);
      } else {
        ReopenedWriteIff(s.g, disk, f, source, l.blocks);
      }
    }
  }

  lemma RoomIsAffordable(s: System, source: seq<byte>)
    ensures Room(s, |source|) <==>
            s.inodes.free > 0 && |source| < WORD_LIMIT && Affordable(s.g, s.blocks, EMPTY, |source|)
  {
    assert LeavesAfter(s.g, EMPTY, |source|) == LeavesFor(s.g, |source|);
  }

  lemma ShortHasNoIndex(g: Geo, f: File)
    requires WellPlaced(g, f) && f.n < 4
    ensures IndexSound(Pad(f.lay))
  {
    PadKeepsIds(f.lay);
  }

  /** The same for a write to a tree that is in order. */
  lemma WriteSafeIff(g: Geo, disk: Disk, f: File, data: seq<byte>, c: nat)
    requires Intact(g, disk, f, c)
    ensures var w := WriteAll(g, disk, f, data);
      w.written == |data| && HasBlocks(g, w.f.lay, f.cursor, f.cursor + |data|) && IndexSound(w.f.lay) <==>
      Affordable(g, disk.al, f, |data|)
  {
    hide Affordable, WriteAll, HasBlocks, IndexSound, Intact;
    IntactIsReady(g, disk, f, c);
    WriteGrew(g, disk, f, data, c);
    var w := WriteAll(g, disk, f, data);
    if data == [] {
      WriteNothing(g, disk, f);
      NothingIsAffordable(g, disk.al, f);
      SoundIndex(g, disk, f, c);
      SoundHasBlocks(g, f, disk.al, f.cursor, f.cursor);
    } else if Affordable(g, disk.al, f, |data|) {
      WriteComplete(g, disk, f, data, c);
      SoundIndex(g, w.disk, w.f, c);
      SoundHasBlocks(g, w.f, w.disk.al, f.cursor, f.cursor + |data|);
    } else {
      UnaffordableWrite(g, disk, f, data, c);
      if HasZero(w.f.lay) {
        ZeroIndex(w.f.lay, w.disk.al);
      }
    }
  }

  lemma SoundIndex(g: Geo, disk: Disk, f: File, c: nat)
    requires Intact(g, disk, f, c)
    ensures IndexSound(f.lay)
  {}

  lemma ZeroIndex(lay: Layout, al: Alloc)
    requires HasZero(lay) && LeavesSound(lay, al)
    ensures !IndexSound(lay)
  {
    forall p | p in lay && p.Leaf?
      ensures lay[p] != 0
    {
      assert p == Leaf(p.k);
    }
  }

  /** The installer, called under its condition: it succeeds, the boot loader is the source laid over what the
      old one had behind it, and all other files are as before. */
  method InstallBootLoader(mount: Mount, source: seq<byte>, ghost s: System, ghost l: Limits)
    returns (result: int, ghost t: System)
    requires mount.Sane() && mount.blockBitmap != mount.inodeBitmap && s == SystemNow(mount, s.files)
    requires Inv(s, l) && Installable(s, mount.bootLoaderInode, source)
    modifies mount, mount.device, mount.blockBitmap, mount.inodeBitmap
    ensures result == 0 && t == SystemNow(mount, t.files) && Inv(t, l)
    ensures old(mount.bootLoaderInode) != 0 ==> old(mount.bootLoaderInode) in View(s)
    ensures var b := old(mount.bootLoaderInode);
      var was := if b != 0 then View(s)[b].content else [];
      View(t) == View(s)[Target(s, b) := Simple(Overwrite(was, 0, source), |source|, false)]
    ensures mount.bootLoaderInode ==
      if old(mount.bootLoaderInode) != 0 || Target(s, 0) < mount.sb.inodeCount
      then Target(s, old(mount.bootLoaderInode)) else 0
  {
    hide Inv, InstallOutcome, RunAllowed, Run, View, Take, Room, Affordable, Callable;
    InvCallable(s, l);
    ghost var b := mount.bootLoaderInode;
    InstallIsRun(s, l, b, source);
    t := InstallGives(s, l, b, source);
    result := Install(mount, source, s, l);
  }
}
