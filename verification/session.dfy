/**
 Several open files on one mount, in memory: writing one leaves the nodes of another alone, and what was
 written comes back through a new inode after the first has been closed.
 */
module Sessions {
  import opened Bytes
  import opened Bitmap
  import opened FileSpec
  import opened OnDisk
  import opened Systems
  import opened Inodes
  import opened BootLoaders

  /** The trees in memory have no node in common. */
  ghost predicate Unrelated(a: Inode, b: Inode)
    reads a`view, b`view
  {
    a != b && a.view.nodes.Values !! b.view.nodes.Values
  }

  /** The inode is an open file of the system. */
  ghost predicate IsOpenFile(inode: Inode, s: System)
    reads inode`id, inode`view, inode`cursor, inode`size
  {
    inode.id in s.files && IsFile(inode, s.files[inode.id])
  }

  /** Writing one open file keeps another one valid: its tree, its cursor and its size are untouched. */
  method WriteBeside(inode: Inode, other: Inode, data: seq<byte>, ghost s: System, ghost l: Limits)
    returns (written: nat, ghost t: System)
    requires inode.mount.Sane() && inode.Valid() && s == SystemNow(inode.mount, s.files) && IsOpenFile(inode, s)
    requires inode.mount.blockBitmap != inode.mount.inodeBitmap
    requires other.mount == inode.mount && other.Valid() && IsOpenFile(other, s)
    requires Unrelated(inode, other) && other.id != inode.id
    requires Able(s, l, Write(inode.id, data))
    modifies inode`block, inode`indBlock, inode`bindBlock, inode`tindBlock, inode`view, inode.view.nodes.Values
    modifies inode`cursor, inode`size
    modifies inode.mount`freeBlockCount, inode.mount.blockBitmap, inode.mount.device
    ensures Becomes(s, Write(inode.id, data), t) && t == SystemNow(inode.mount, t.files)
    ensures inode.Valid() && IsOpenFile(inode, t) && written == |data|
    ensures other.Valid() && other.view == old(other.view) && IsOpenFile(other, t)
    ensures Unrelated(inode, other)
  {
    hide Inode.Valid, Able, Becomes;
    InodesApart(inode, other);
    InodesApart(other, inode);
    InodesApart(inode, inode);
    NodesAlone(other);
    NodesAlone(inode);
    ghost var e;
    written, e := WriteFile(inode, data, s, l);
    t := SystemNow(inode.mount, s.files[inode.id := e]);
  }

  /** An inode is no node of a tree. */
  lemma InodesApart(inode: Inode, other: Inode)
    requires inode.Valid()
    ensures other !in inode.view.nodes.Values
  {
    NotANode(inode.view, inode.mount.sizes.bs, other);
  }

  /** Neither is the mount, nor what belongs to it. */
  lemma NodesAlone(inode: Inode)
    requires inode.Valid()
    ensures inode.mount !in inode.view.nodes.Values && inode.mount.device !in inode.view.nodes.Values
    ensures inode.mount.blockBitmap !in inode.view.nodes.Values && inode.mount.inodeBitmap !in inode.view.nodes.Values
  {
    inode.NodesApart();
    inode.BufferApart(inode.mount.blockBitmap);
    inode.BufferApart(inode.mount.inodeBitmap);
  }

  /** One call of a run, and the rest. */
  lemma FirstStep(s: System, l: Limits, op: Op, rest: seq<Op>)
    requires Inv(s, l) && RunAllowed(s, [op] + rest)
    ensures Able(s, l, op) && Inv(Step(s, op).0, l) && RunAllowed(Step(s, op).0, rest)
    ensures Expected(View(s), op, Step(s, op).1)
    ensures View(Step(s, op).0) == After(View(s), op, Step(s, op).1)
  {
    assert ([op] + rest)[0] == op && ([op] + rest)[1..] == rest;
    StepMeets(s, l, op);
  }

  /** The calls of the method below. */
  function StoreOps(id: nat, data: seq<byte>): seq<Op> {
    [Write(id, data)] + FetchOps(id, data)
  }

  function FetchOps(id: nat, data: seq<byte>): seq<Op> {
    [CloseFile(id)] + ([OpenFile(id)] + ([Read(id, |data|)] + []))
  }

  lemma StoreAllowed(s: System, l: Limits, data: seq<byte>)
    requires Inv(s, l) && Room(s, |data|)
    ensures RunAllowed(s, [Create] + StoreOps(Take(s.inodes).id, data))
  {
    var id := Take(s.inodes).id;
    assert Concat([data]) == data;
    assert Writes(id, [data]) == [Write(id, data)];
    SessionAllowed(s, l, [data], |data|);
    assert Session(id, [data], |data|) == [Create] + StoreOps(id, data);
  }

  /** Creates a file and writes the data. */
  method CreateAndWrite(mount: Mount, data: seq<byte>, ghost s: System, ghost l: Limits)
    returns (inode: Inode, ghost t: System)
    requires mount.Sane() && mount.blockBitmap != mount.inodeBitmap && s == SystemNow(mount, s.files)
    requires Inv(s, l) && Room(s, |data|)
    modifies mount, mount.device, mount.blockBitmap, mount.inodeBitmap
    ensures fresh(inode) && inode.mount == mount && inode.Valid() && inode.id == Take(s.inodes).id
    ensures inode.physicalOffset == mount.inodeTableOffset + RECORD_SIZE * inode.id
    ensures Inv(t, l) && t == SystemNow(mount, t.files) && inode.id in t.files && IsFile(inode, t.files[inode.id])
    ensures RunAllowed(t, FetchOps(inode.id, data))
    ensures inode.id in View(t) && View(t)[inode.id].content == data
  {
    hide Inode.Valid, Inv, RunAllowed, Step, Room, Able, View, FetchOps;
    ghost var id := Take(s.inodes).id;
    StoreAllowed(s, l, data);
    FirstStep(s, l, Create, StoreOps(id, data));
    ghost var e;
    inode, e := CreateFile(mount, s, l);
    t := SystemNow(mount, s.files[id := e]);
    CreatedIs(s, t, id);
    FirstStep(t, l, Write(id, data), FetchOps(id, data));
    ghost var before := View(t);
    InodeBitmapApart(inode);
    var written;
    written, e := WriteFile(inode, data, t, l);
    t := SystemNow(mount, t.files[id := e]);
    OverwriteAtEnd([], data);
  }

  lemma CreatedIs(s: System, t: System, id: nat)
    requires Becomes(s, Create, t) && id == Take(s.inodes).id
    ensures Step(s, Create).1 == Made(id)
  {}

  /** Closes the file, opens it again and reads it. */
  method CloseAndFetch(inode: Inode, data: seq<byte>, ghost s: System, ghost l: Limits) returns (buffer: array<byte>)
    requires inode.mount.Sane() && inode.Valid() && s == SystemNow(inode.mount, s.files)
    requires inode.physicalOffset == inode.mount.inodeTableOffset + RECORD_SIZE * inode.id
    requires Inv(s, l) && inode.id in s.files && IsFile(inode, s.files[inode.id])
    requires RunAllowed(s, FetchOps(inode.id, data))
    requires inode.id in View(s) && View(s)[inode.id].content == data
    modifies inode.mount.device, inode.mount`openedInodes
    ensures fresh(buffer) && buffer[..] == data
  {
    hide Inode.Valid, Inv, RunAllowed, Step, Able, View;
    var mount, id := inode.mount, inode.id;
    ghost var e;
    FirstStep(s, l, CloseFile(id), [OpenFile(id)] + ([Read(id, |data|)] + []));
    CloseNow(inode, s, l);
    ghost var t := SystemNow(mount, s.files[id := s.files[id].(open := false)]);
    FirstStep(t, l, OpenFile(id), [Read(id, |data|)] + []);
    var again;
    again, e := OpenNow(mount, id, t, l);
    t := SystemNow(mount, t.files[id := e]);
    buffer := Fetch(again, data, t, l);
  }

  /** Reads a file that holds the data from its start. */
  method Fetch(inode: Inode, data: seq<byte>, ghost s: System, ghost l: Limits) returns (buffer: array<byte>)
    requires inode.mount.Sane() && inode.Valid() && s == SystemNow(inode.mount, s.files) && IsOpenFile(inode, s)
    requires Inv(s, l) && RunAllowed(s, [Read(inode.id, |data|)] + [])
    requires inode.id in View(s) && View(s)[inode.id].content == data && View(s)[inode.id].cursor == 0
    modifies inode`cursor
    ensures fresh(buffer) && buffer[..] == data
  {
    hide Inode.Valid, Inv, RunAllowed, Step, Able, View;
    FirstStep(s, l, Read(inode.id, |data|), []);
    buffer := new byte[|data|](_ => 0);
    var done;
    ghost var e;
    done, e := ReadFile(inode, buffer, |data|, s, l);
    assert data[0..|data|] == data;
  }

  /** What is stored is fetched: created, written, closed, opened and read through another inode, the
      bytes are the same. */
  method StoreAndFetch(mount: Mount, data: seq<byte>, ghost s: System, ghost l: Limits) returns (buffer: array<byte>)
    requires mount.Sane() && mount.blockBitmap != mount.inodeBitmap && s == SystemNow(mount, s.files)
    requires Inv(s, l) && Room(s, |data|)
    modifies mount, mount.device, mount.blockBitmap, mount.inodeBitmap
    ensures fresh(buffer) && buffer[..] == data
  {
    hide Inode.Valid, Inv, RunAllowed, Room, IsFile, View;
    var inode;
    ghost var t;
    inode, t := CreateAndWrite(mount, data, s, l);
    buffer := CloseAndFetch(inode, data, t, l);
  }
}
