/**
 The boot loader installer: the library's functions put together, on a device that may hold other files.

 Each call on the nodes in memory is one `Step` of the system, so what Systems proves about steps holds
 for the program: the installed file is, byte for byte, the one that was given, and no other file changes.
 */
module BootLoaders {
  import opened Bytes
  import opened Bitmap
  import opened Layouts
  import opened FileSpec
  import opened OnDisk
  import opened Systems
  import opened Inodes
  import opened Closing
  import opened Opening
  import opened Pieces
  import opened Reopening

  const BUFFER_SIZE: nat := 4096

  /** The system a mount is, when its files are these. */
  ghost function SystemNow(mount: Mount, files: map<nat, Entry>): System
    reads mount.device, mount`freeBlockCount, mount.blockBitmap, mount`freeInodeCount, mount.inodeBitmap
  {
    System(mount.Geom(), mount.device.bytes, mount.Blocks(), mount.InodeIds(), mount.inodeTableOffset, files)
  }

  /** The call can be made on s, which is in order. */
  ghost predicate Able(s: System, l: Limits, op: Op) {
    Inv(s, l) && Callable(s) && Allowed(s, op)
  }

  /** t is s after the call. */
  ghost predicate Becomes(s: System, op: Op, t: System) {
    Callable(s) && Allowed(s, op) && t == Step(s, op).0
  }

  /** udbfs_set_boot_loader_inode. */
  method SetBootLoaderInode(mount: Mount, inodeId: nat) returns (result: int)
    modifies mount`bootLoaderInode
    ensures result == if inodeId < mount.sb.inodeCount then 0 else 1
    ensures mount.bootLoaderInode == if result == 0 then inodeId else old(mount.bootLoaderInode)
  {
    if inodeId < mount.sb.inodeCount {
      mount.bootLoaderInode := inodeId;
      return 0;
    }
    return 1;
  }

  /** The inode in memory is the open file e. */
  ghost predicate IsFile(inode: Inode, e: Entry)
    reads inode`view, inode`cursor, inode`size
  {
    e.open && e.mem == inode.TheFile(e.mem.n)
  }

  /** udbfs_create_inode as a step of the system s. */
  method CreateFile(mount: Mount, ghost s: System, ghost l: Limits) returns (inode: Inode, ghost e: Entry)
    requires mount.Sane() && mount.blockBitmap != mount.inodeBitmap && s == SystemNow(mount, s.files)
    requires Able(s, l, Create)
    modifies mount`freeInodeCount, mount.inodeBitmap, mount`openedInodes
    ensures fresh(inode) && inode.mount == mount && inode.Valid() && inode.view.nodes == map[]
    ensures IsFile(inode, e) && inode.id == Take(s.inodes).id
    ensures inode.physicalOffset == mount.inodeTableOffset + RECORD_SIZE * inode.id
    ensures Becomes(s, Create, SystemNow(mount, s.files[inode.id := e]))
  {
    TakeHealthy(mount.InodeIds(), l.inodes);
    inode := CreateInode(mount);
    e := Entry(EMPTY, EMPTY, true);
  }

  lemma EntryPlaced(s: System, l: Limits, id: nat)
    requires Inv(s, l) && id in s.files
    ensures WellPlaced(s.g, s.files[id].core) && WellPlaced(s.g, s.files[id].mem) && id < l.inodes
  {
    assert EntryOk(s, l, id);
    PaddedPlaced(s.g, s.files[id].core);
  }

  /** udbfs_write_to_inode as a step of the system s. */
  method WriteFile(inode: Inode, data: seq<byte>, ghost s: System, ghost l: Limits)
    returns (written: nat, ghost e: Entry)
    requires inode.mount.Sane() && inode.Valid() && s == SystemNow(inode.mount, s.files)
    requires inode.id in s.files && IsFile(inode, s.files[inode.id])
    requires Able(s, l, Write(inode.id, data))
    requires inode.mount.blockBitmap != inode.mount.inodeBitmap
    modifies inode`block, inode`indBlock, inode`bindBlock, inode`tindBlock, inode`view, inode.view.nodes.Values
    modifies inode`cursor, inode`size
    modifies inode.mount`freeBlockCount, inode.mount.blockBitmap, inode.mount.device
    ensures inode.Valid() && fresh(inode.view.nodes.Values - old(inode.view.nodes.Values))
    ensures IsFile(inode, e) && written == |data|
    ensures Becomes(s, Write(inode.id, data), SystemNow(inode.mount, s.files[inode.id := e]))
  {
    hide Inode.Valid, EntryOk, Grounded, Callable, Allowed, WriteAll;
    EntryPlaced(s, l, inode.id);
    InodeBitmapApart(inode);
    WriteMeets(s, l, inode.id, data);
    ghost var n;
    written, n := inode.WriteToInode(data, s.files[inode.id].mem.n);
    e := Step(s, Write(inode.id, data)).0.files[inode.id];
  }

  /** The mount and its inode bitmap are no nodes of a tree. */
  lemma InodeBitmapApart(inode: Inode)
    requires inode.Valid()
    ensures inode.mount !in inode.view.nodes.Values && inode.mount.inodeBitmap !in inode.view.nodes.Values
    ensures inode !in inode.view.nodes.Values
  {
    inode.NodesApart();
    inode.BufferApart(inode.mount.inodeBitmap);
  }

  /** udbfs_read_from_inode as a step of the system s: the bytes in the buffer are those the step gives. */
  method ReadFile(inode: Inode, buffer: array<byte>, size: nat, ghost s: System, ghost l: Limits)
    returns (done: nat, ghost e: Entry)
    requires inode.mount.Sane() && inode.Valid() && s == SystemNow(inode.mount, s.files)
    requires inode.id in s.files && IsFile(inode, s.files[inode.id])
    requires Able(s, l, Read(inode.id, size)) && size <= buffer.Length
    requires buffer != inode.mount.blockBitmap && buffer != inode.mount.inodeBitmap
    modifies buffer, inode`cursor
    ensures inode.Valid() && IsFile(inode, e)
    ensures Becomes(s, Read(inode.id, size), SystemNow(inode.mount, s.files[inode.id := e]))
    ensures done <= size && Step(s, Read(inode.id, size)).1 == Got(buffer[..done])
  {
    hide Inode.Valid, EntryOk, Grounded, Callable, Disjoint, ReadAll;
    EntryPlaced(s, l, inode.id);
    InodeBitmapApart(inode);
    ReadMeets(s, l, inode.id, size);
    done := inode.ReadFromInode(buffer, size, s.files[inode.id].mem.n);
    e := Step(s, Read(inode.id, size)).0.files[inode.id];
    ReadFits(s.g, s.dev, s.files[inode.id].mem, size);
  }

  lemma ReadFits(g: Geo, dev: seq<byte>, f: File, len: nat)
    requires f.cursor <= f.size
    ensures |ReadAll(g, dev, f, len)| <= len
  {}

  /** udbfs_close_inode as a step of the system s. */
  method CloseNow(inode: Inode, ghost s: System, ghost l: Limits)
    requires inode.mount.Sane() && inode.Valid() && s == SystemNow(inode.mount, s.files)
    requires inode.id in s.files && IsFile(inode, s.files[inode.id])
    requires Able(s, l, CloseFile(inode.id))
    requires inode.physicalOffset == inode.mount.inodeTableOffset + RECORD_SIZE * inode.id
    modifies inode.mount.device, inode.mount`openedInodes
    ensures Becomes(s, CloseFile(inode.id),
                    SystemNow(inode.mount, s.files[inode.id := s.files[inode.id].(open := false)]))
  {
    hide Inode.Valid, Inv, Callable, Close;
    CloseInode(inode);
  }

  /** udbfs_open_inode as a step of the system s. */
  method OpenNow(mount: Mount, id: nat, ghost s: System, ghost l: Limits) returns (inode: Inode, ghost e: Entry)
    requires mount.Sane() && s == SystemNow(mount, s.files)
    requires Able(s, l, OpenFile(id))
    modifies mount`openedInodes, mount.device
    ensures fresh(inode) && inode.mount == mount && inode.Valid() && inode.id == id
    ensures fresh(inode.view.nodes.Values)
    ensures IsFile(inode, e) && inode.physicalOffset == mount.inodeTableOffset + RECORD_SIZE * id
    ensures Becomes(s, OpenFile(id), SystemNow(mount, s.files[id := e]))
  {
    hide Load, Inv, Inode.Valid;
    var entry := OpenInode(mount, id);
    inode := entry;
    e := Step(s, OpenFile(id)).0.files[id];
  }

  // ----- the installer -----

  /** What one fread returns of the source. */
  function Chunk(source: seq<byte>): (s: seq<byte>)
    ensures |s| <= |source| && s == source[..|s|] && (source != [] ==> s != [])
  {
    if |source| < BUFFER_SIZE then source else source[..BUFFER_SIZE]
  }

  function Chunks(source: seq<byte>): seq<seq<byte>>
    decreases |source|
  {
    if source == [] then [] else [Chunk(source)] + Chunks(source[|Chunk(source)|..])
  }

  lemma {:induction false} ChunksMakeSource(source: seq<byte>)
    ensures Concat(Chunks(source)) == source
    decreases |source|
  {
    if source != [] {
      ChunksMakeSource(source[|Chunk(source)|..]);
      assert source == Chunk(source) + source[|Chunk(source)|..];
    }
  }

  /** The inode the boot loader goes to: the one there is, or a new one. */
  function Target(s: System, bootLoader: nat): nat {
    if bootLoader != 0 then bootLoader else Take(s.inodes).id
  }

  function Transfer(id: nat, source: seq<byte>): seq<Op> {
    Writes(id, Chunks(source)) + [CloseFile(id)]
  }

  /** The calls of the installer. */
  function InstallOps(s: System, bootLoader: nat, source: seq<byte>): seq<Op> {
    [if bootLoader != 0 then OpenFile(bootLoader) else Create] + Transfer(Target(s, bootLoader), source)
  }

  // ----- what the installer does, whether it should or not -----

  datatype Transferred = Transferred(disk: Disk, f: File, ok: bool)

  /** The transfer loop: one chunk after the other, up to the first that is not written in full. */
  function TransferAll(g: Geo, disk: Disk, f: File, source: seq<byte>): Transferred
    decreases |source|
  {
    if source == [] then Transferred(disk, f, true)
    else
      var w := WriteAll(g, disk, f, Chunk(source));
      if w.written != |Chunk(source)| then Transferred(w.disk, w.f, false)
      else TransferAll(g, w.disk, w.f, source[|Chunk(source)|..])
  }

  /** The size of the buffer makes no difference: the loop does what one write of the whole source does. */
  lemma {:induction false} TransferIsWrite(g: Geo, disk: Disk, f: File, source: seq<byte>, c: nat)
    requires Reachable(g, disk, f, c)
    ensures var w := WriteAll(g, disk, f, source);
      TransferAll(g, disk, f, source) == Transferred(w.disk, w.f, w.written == |source|)
    decreases |source|
  {
    hide Reachable, WriteAll;
    if source == [] {
      WriteNothing(g, disk, f);
    } else {
      var a, b := Chunk(source), source[|Chunk(source)|..];
      assert source == a + b;
      WritePieces(g, disk, f, a, b, c);
      WriteReaches(g, disk, f, a, c);
      var w := WriteAll(g, disk, f, a);
      if w.written == |a| {
        TransferIsWrite(g, w.disk, w.f, b, c);
      }
    }
  }

  datatype Installed = Installed(result: int, dev: seq<byte>, blocks: Alloc, inodes: Alloc, f: File)

  /** The file the installer starts from: what is on the device, or an empty one. */
  function TargetFile(s: System, bootLoader: nat): File
    requires Callable(s) && (bootLoader != 0 ==> bootLoader in s.files)
  {
    if bootLoader != 0 then OpenStep(s, bootLoader).0.files[bootLoader].mem else EMPTY
  }

  /** The installer: without an inode for the file it gives up, else it opens or creates the file, writes
      the source and closes the file, also when the write has stopped early. */
  function InstallOutcome(s: System, bootLoader: nat, source: seq<byte>): Installed
    requires Callable(s) && (bootLoader != 0 ==> bootLoader in s.files)
  {
    if bootLoader == 0 && Take(s.inodes).id == 0 then Installed(-1, s.dev, s.blocks, Take(s.inodes).al, EMPTY)
    else
      var w := WriteAll(s.g, Disk(s.dev, s.blocks), TargetFile(s, bootLoader), source);
      Installed(if w.written == |source| then 0 else -1,
                Close(s.g, w.disk.dev, w.f.lay, RecordOf(s, Target(s, bootLoader)), w.f.size), w.disk.al,
                if bootLoader == 0 then Take(s.inodes).al else s.inodes, w.f)
  }

  /** The transfer loop of the installer and the close behind it. */
  method TransferAndClose(target: Inode, source: seq<byte>, ghost n: nat, ghost c: nat) returns (result: int)
    requires target.mount.Sane() && target.Valid()
    requires Reachable(target.mount.Geom(), target.TheDisk(), target.TheFile(n), c)
    requires target.mount.blockBitmap != target.mount.inodeBitmap
    modifies target`block, target`indBlock, target`bindBlock, target`tindBlock, target`view, target.view.nodes.Values
    modifies target`cursor, target`size
    modifies target.mount`freeBlockCount, target.mount.blockBitmap, target.mount.device, target.mount`openedInodes
    ensures var w := WriteAll(target.mount.Geom(), old(target.TheDisk()), old(target.TheFile(n)), source);
      && result == (if w.written == |source| then 0 else -1)
      && target.mount.device.bytes ==
         Close(target.mount.Geom(), w.disk.dev, w.f.lay, target.physicalOffset, w.f.size)
      && target.mount.Blocks() == w.disk.al
    ensures target.mount.InodeIds() == old(target.mount.InodeIds())
  {
    hide Inode.Valid, Reachable, WriteAll;
    ghost var g := target.mount.Geom();
    ghost var done := TransferAll(g, target.TheDisk(), target.TheFile(n), source);
    TransferIsWrite(g, target.TheDisk(), target.TheFile(n), source, c);
    result := 0;
    ghost var m := n;
    var left := source;
    while left != []
      invariant target.Valid()
      invariant fresh(target.view.nodes.Values - old(target.view.nodes.Values))
      invariant Reachable(g, target.TheDisk(), target.TheFile(m), c)
      invariant TransferAll(g, target.TheDisk(), target.TheFile(m), left) == done && result == 0
      invariant target.mount.InodeIds() == old(target.mount.InodeIds())
      decreases |left|
    {
      InodeBitmapApart(target);
      ReachesPlaced(g, target.TheDisk(), target.TheFile(m), c);
      var buffer := Chunk(left);
      WriteReaches(g, target.TheDisk(), target.TheFile(m), buffer, c);
      var written;
      written, m := target.WriteToInode(buffer, m);
      if written != |buffer| {
        result := -1;
        break;
      }
      left := left[|buffer|..];
    }
    assert done == Transferred(target.TheDisk(), target.TheFile(m), result == 0);
    CloseInode(target);
  }

  lemma ReachesPlaced(g: Geo, disk: Disk, f: File, c: nat)
    requires Reachable(g, disk, f, c)
    ensures WellPlaced(g, f)
  {}

  /** udbfs-install-bootloader on a mounted device whose boot loader, if it has one, is a closed file: the
      file goes to the inode of the boot loader there is, or to a new one, and is closed again. */
  method Install(mount: Mount, source: seq<byte>, ghost s: System, ghost l: Limits) returns (result: int)
    requires mount.Sane() && mount.blockBitmap != mount.inodeBitmap && s == SystemNow(mount, s.files)
    requires Inv(s, l) && Callable(s)
    requires mount.bootLoaderInode != 0 ==> mount.bootLoaderInode in s.files && !s.files[mount.bootLoaderInode].open
    modifies mount, mount.device, mount.blockBitmap, mount.inodeBitmap
    ensures Installed(result, mount.device.bytes, mount.Blocks(), mount.InodeIds(),
                      InstallOutcome(s, old(mount.bootLoaderInode), source).f) ==
            InstallOutcome(s, old(mount.bootLoaderInode), source)
    ensures var id := Take(s.inodes).id;
      mount.bootLoaderInode ==
      if old(mount.bootLoaderInode) != 0 then old(mount.bootLoaderInode)
      else if id < mount.sb.inodeCount then id else 0
  {
    hide Inode.Valid, Inv, Callable, Take, WriteAll, Reachable, TargetFile, Target, RecordOf, Close;
    ghost var b := mount.bootLoaderInode;
    TargetReaches(s, l, b);
    var target := OpenOrCreate(mount, s, l);
    if target == null {
      return -1;
    }
    InodeBitmapApart(target);
    result := TransferAndClose(target, source, TargetFile(s, b).n, l.blocks);
  }

  /** The inode the installer writes to. */
  method OpenOrCreate(mount: Mount, ghost s: System, ghost l: Limits) returns (target: Inode?)
    requires mount.Sane() && mount.blockBitmap != mount.inodeBitmap && s == SystemNow(mount, s.files)
    requires Inv(s, l) && Callable(s)
    requires mount.bootLoaderInode != 0 ==> mount.bootLoaderInode in s.files && !s.files[mount.bootLoaderInode].open
    modifies mount, mount.device, mount.inodeBitmap
    ensures mount.device.bytes == s.dev && mount.Blocks() == s.blocks
    ensures mount.InodeIds() == if old(mount.bootLoaderInode) == 0 then Take(s.inodes).al else s.inodes
    ensures target == null <==> old(mount.bootLoaderInode) == 0 && Take(s.inodes).id == 0
    ensures target != null ==>
      && fresh(target) && target.mount == mount && target.Valid() && fresh(target.view.nodes.Values)
      && target.TheFile(TargetFile(s, old(mount.bootLoaderInode)).n) == TargetFile(s, old(mount.bootLoaderInode))
      && target.physicalOffset == RecordOf(s, Target(s, old(mount.bootLoaderInode)))
    ensures var id := Take(s.inodes).id;
      mount.bootLoaderInode ==
      if old(mount.bootLoaderInode) != 0 then old(mount.bootLoaderInode)
      else if id != 0 && id < mount.sb.inodeCount then id else 0
  {
    hide Inode.Valid, Inv, Take, Load;
    if mount.bootLoaderInode != 0 {
      target := OpenTarget(mount, mount.bootLoaderInode);
    } else {
      target := CreateTarget(mount);
    }
  }

  /** A new file for the boot loader, if there is an inode for it. */
  method CreateTarget(mount: Mount) returns (inode: Inode?)
    requires mount.Sane() && mount.blockBitmap != mount.inodeBitmap
    modifies mount, mount.inodeBitmap
    ensures mount.InodeIds() == Take(old(mount.InodeIds())).al && mount.Blocks() == old(mount.Blocks())
    ensures inode == null <==> Take(old(mount.InodeIds())).id == 0
    ensures inode == null ==> mount.bootLoaderInode == old(mount.bootLoaderInode)
    ensures inode != null ==>
      && fresh(inode) && inode.mount == mount && inode.Valid() && fresh(inode.view.nodes.Values)
      && inode.TheFile(0) == EMPTY
      && inode.physicalOffset == mount.inodeTableOffset + RECORD_SIZE * Take(old(mount.InodeIds())).id
      && mount.bootLoaderInode ==
         if Take(old(mount.InodeIds())).id < mount.sb.inodeCount then Take(old(mount.InodeIds())).id
         else old(mount.bootLoaderInode)
  {
    hide Take;
    inode := CreateInode(mount);
    if inode != null {
      assert inode.view.nodes == map[];
      var _ := SetBootLoaderInode(mount, inode.id);
    }
  }

  /** A record that is on the device can be opened. */
  method OpenTarget(mount: Mount, id: nat) returns (inode: Inode)
    requires mount.Sane() && mount.inodeTableOffset + RECORD_SIZE * id + RECORD_SIZE <= |mount.device.bytes|
    modifies mount`openedInodes, mount.device
    ensures mount.device.bytes == old(mount.device.bytes)
    ensures fresh(inode) && inode.mount == mount && inode.Valid() && fresh(inode.view.nodes.Values)
    ensures inode.physicalOffset == mount.inodeTableOffset + RECORD_SIZE * id && inode.cursor == 0
    ensures inode.size == Word(mount.device.bytes, inode.physicalOffset)
    ensures inode.view.lay == Load(mount.Geom(), mount.device.bytes, inode.physicalOffset).lay
  {
    hide Load, Word, Inode.Valid;
    var entry := OpenInode(mount, id);
    inode := entry;
  }

  /** A closed file comes back padded. */
  lemma TargetIs(s: System, l: Limits, bootLoader: nat)
    requires Inv(s, l) && Callable(s) && bootLoader != 0 && bootLoader in s.files && !s.files[bootLoader].open
    ensures var f := s.files[bootLoader].core.(cursor := 0);
      && TargetFile(s, bootLoader) == Padded(f)
      && Intact(s.g, Disk(s.dev, s.blocks), f, l.blocks)
  {
    hide Load, Stored, Inv;
    FileInOrder(s, l, bootLoader);
    EntryStorable(s, l, bootLoader);
    EntryIntact(s, l, bootLoader);
    var f := s.files[bootLoader].core;
    ReloadIsPad(s.g, s.dev, f.lay, RecordOf(s, bootLoader), f.size);
  }

  lemma TargetReaches(s: System, l: Limits, bootLoader: nat)
    requires Inv(s, l) && Callable(s)
    requires bootLoader != 0 ==> bootLoader in s.files && !s.files[bootLoader].open
    ensures Reachable(s.g, Disk(s.dev, s.blocks), TargetFile(s, bootLoader), l.blocks)
  {
    if bootLoader != 0 {
      TargetIs(s, l, bootLoader);
      PaddedReaches(s.g, Disk(s.dev, s.blocks), s.files[bootLoader].core.(cursor := 0), l.blocks);
    } else {
      NewFileIntact(s, l);
      IntactReaches(s.g, Disk(s.dev, s.blocks), EMPTY, l.blocks);
    }
  }

  lemma NewFileIntact(s: System, l: Limits)
    requires Inv(s, l)
    ensures Intact(s.g, Disk(s.dev, s.blocks), EMPTY, l.blocks)
  {
    EmptyIsDense(s.g.p);
  }
}
