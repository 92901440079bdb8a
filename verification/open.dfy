/**
 Opening an inode: the record is read, then the tree is rebuilt from the ids in the index blocks.
 A node is hooked into its link point as soon as it has been read, before its own slots are filled.

 The slots of a new node are null here until they are filled. In the library they are memory as the
 allocator returns it, so after a load that fails midway the slots behind the failure hold anything; what
 OpenInode says about the tree then holds for the slots that were reached.
 */
module Opening {
  import opened Seqs
  import opened Arith
  import opened Bytes
  import opened Layouts
  import opened FileSpec
  import opened Trees
  import opened OnDisk
  import opened Inodes
  import opened Closing

  /** Positions keep their nodes. */
  ghost predicate NodesKept(v: View, w: View) {
    forall s :: s in v.nodes ==> s in w.nodes && w.nodes[s] == v.nodes[s]
  }

  lemma KeptAll(v: View)
    ensures NodesKept(v, v)
  {}

  lemma KeptStep(u: View, v: View, w: View, s: Pos)
    requires NodesKept(u, v) && NodesKept(v, w)
    ensures NodesKept(u, w)
    ensures s in v.nodes ==> s in w.nodes && w.nodes[s] == v.nodes[s]
  {}

  /** udbfslib_load_block: a data block for slot i of indirect block m. */
  method LoadBlock(inode: Inode, node: IndBlock, i: nat, id: nat, fileOffset: nat, ghost m: nat)
    requires inode.Valid() && inode.IsAt(node, Ind(m)) && i < inode.mount.links
    requires Child(inode.mount.links, Ind(m), i) !in inode.view.lay
    requires fileOffset == Mul(LeafPos(inode.mount.links, m, i), inode.mount.sizes.bs)
    modifies node`block, inode`view
    ensures inode.Valid() && NodesKept(old(inode.view), inode.view)
    ensures fresh(inode.view.nodes.Values - old(inode.view.nodes.Values))
    ensures inode.view.lay == old(inode.view.lay)[Child(inode.mount.links, Ind(m), i) := id]
  {
    hide Linked, AllHold, LeafPos, Mul;
    ghost var k := LeafPos(inode.mount.links, m, i);
    inode.IndLeads(node, m, i);
    var b := new Block();
    b.id := id;
    b.deviceOffset := inode.mount.sizes.bs * b.id;
    b.offsetStart := fileOffset;
    b.offsetEnd := fileOffset + inode.mount.sizes.bs;
    MulIs(id, inode.mount.sizes.bs);
    inode.HookLeaf(node, i, b, Ind(m), Leaf(k));
  }

  /** Word i of an index block, as it was read into memory. */
  lemma BlockWord(dev: seq<byte>, at: nat, size: nat, tmp: seq<byte>, i: nat)
    requires at + size <= |dev| && tmp == dev[at..at + size] && 8 * i + 8 <= size
    ensures |tmp| == size && Decode(tmp[8 * i..8 * i + 8]) == Word(dev, at + 8 * i)
  {
    SliceOfSlice(dev, at, at + size, 8 * i, 8 * i + 8);
  }

  /** The device has a block with this id. */
  ghost predicate OnDevice(inode: Inode, id: nat)
    reads inode.mount.device
  {
    id * inode.mount.sizes.bs + inode.mount.sizes.bs <= |inode.mount.device.bytes|
  }

  /** The block with this id was read into tmp. */
  ghost predicate WasRead(inode: Inode, id: nat, tmp: seq<byte>)
    reads inode.mount.device
  {
    var bs := inode.mount.sizes.bs;
    OnDevice(inode, id) && tmp == inode.mount.device.bytes[id * bs..id * bs + bs]
  }

  /** What loading slot i of s does to the tree. */
  ghost function SlotLoaded(inode: Inode, s: Pos, i: nat, x: nat, acc: Layout): Loaded
    requires !s.Leaf? && inode.mount.Sane()
    reads inode.mount.device
  {
    if x == 0 then Loaded(true, acc)
    else LoadAt(inode.mount.Geom(), inode.mount.device.bytes, Child(inode.mount.links, s, i), x, acc)
  }

  /** The words of a block that was read are the ids in its slots. */
  lemma SlotWord(inode: Inode, id: nat, tmp: seq<byte>, i: nat)
    requires inode.mount.Sane() && WasRead(inode, id, tmp) && i < inode.mount.links
    ensures 8 * i + 8 <= |tmp| && OnDevice(inode, id)
    ensures Decode(tmp[8 * i..8 * i + 8]) == Word(inode.mount.device.bytes, SlotAddress(inode.mount.Geom(), id, i))
  {
    hide Decode, Word;
    BlockWord(inode.mount.device.bytes, id * inode.mount.sizes.bs, inode.mount.sizes.bs, tmp, i);
  }

  lemma SlotStep(inode: Inode, s: Pos, id: nat, i: nat, x: nat, acc: Layout)
    requires !s.Leaf? && inode.mount.Sane() && i < inode.mount.links && OnDevice(inode, id)
    requires x == Word(inode.mount.device.bytes, SlotAddress(inode.mount.Geom(), id, i))
    requires EmptyFrom(inode.mount.links, acc, s, i)
    ensures var r := SlotLoaded(inode, s, i, x, acc);
      && SlotsLeft(inode, s, id, i, acc) == (if !r.ok then r else SlotsLeft(inode, s, id, i + 1, r.lay))
      && EmptyFrom(inode.mount.links, r.lay, s, i + 1)
      && Child(inode.mount.links, s, i) !in acc
  {
    hide Word, SlotAddress, LoadAt, LoadSlots;
    LoadStep(inode.mount.Geom(), inode.mount.device.bytes, s, id, i, acc, x, SlotLoaded(inode, s, i, x, acc));
  }

  /** Word i of a block that was read; slot i of s, which it belongs to, and what is left to load. */
  method NextSlot(inode: Inode, tmp: seq<byte>, i: nat, ghost s: Pos, ghost id: nat, ghost all: Loaded)
    returns (x: nat, ghost r: Loaded)
    requires !s.Leaf? && inode.mount.Sane() && WasRead(inode, id, tmp) && i < inode.mount.links
    requires EmptyFrom(inode.mount.links, inode.view.lay, s, i)
    requires all == SlotsLeft(inode, s, id, i, inode.view.lay)
    ensures r == SlotLoaded(inode, s, i, x, inode.view.lay)
    ensures !r.ok ==> all == r
    ensures r.ok ==> all == SlotsLeft(inode, s, id, i + 1, r.lay)
    ensures EmptyFrom(inode.mount.links, r.lay, s, i + 1)
    ensures Child(inode.mount.links, s, i) !in inode.view.lay
  {
    hide SlotsLeft, WasRead, OnDevice, EmptyFrom, SlotLoaded, Decode, Word, SlotAddress;
    SlotWord(inode, id, tmp, i);
    x := Decode(tmp[8 * i..8 * i + 8]);
    SlotStep(inode, s, id, i, x, inode.view.lay);
    r := SlotLoaded(inode, s, i, x, inode.view.lay);
  }

  /** What loading the slots of s from i on gives. */
  ghost function SlotsLeft(inode: Inode, s: Pos, id: nat, i: nat, acc: Layout): Loaded
    requires !s.Leaf? && inode.mount.Sane()
    reads inode.mount.device
  {
    if OnDevice(inode, id)
    then LoadSlots(inode.mount.Geom(), inode.mount.device.bytes, s, id, i, acc) else Loaded(false, acc)
  }

  lemma NoSlotsLeft(inode: Inode, s: Pos, id: nat, tmp: seq<byte>, acc: Layout)
    requires !s.Leaf? && inode.mount.Sane() && WasRead(inode, id, tmp)
    ensures SlotsLeft(inode, s, id, inode.mount.links, acc) == Loaded(true, acc)
  {
    LoadEnds(inode.mount.Geom(), inode.mount.device.bytes, s, id, acc);
  }

  /** The loop of udbfslib_load_ind_block. */
  method FillInd(inode: Inode, node: IndBlock, id: nat, tmp: seq<byte>, offset: nat, ghost m: nat) returns (ok: bool)
    requires inode.mount.Sane() && inode.Valid() && inode.IsAt(node, Ind(m)) && WasRead(inode, id, tmp)
    requires EmptyFrom(inode.mount.links, inode.view.lay, Ind(m), 0)
    requires offset == Mul(LeafPos(inode.mount.links, m, 0), inode.mount.sizes.bs)
    modifies node`block, inode`view
    ensures inode.Valid() && NodesKept(old(inode.view), inode.view)
    ensures fresh(inode.view.nodes.Values - old(inode.view.nodes.Values))
    ensures Loaded(ok, inode.view.lay) == SlotsLeft(inode, Ind(m), id, 0, old(inode.view.lay))
  {
    hide Inode.Valid, NodesKept, SlotsLeft, WasRead, LeafPos, Mul, EmptyFrom;
    ghost var g := inode.mount.Geom();
    ghost var all := SlotsLeft(inode, Ind(m), id, 0, inode.view.lay);
    var offsetModifier: nat := offset;
    var i: nat := 0;
    KeptAll(inode.view);
    ShapeOfValid(inode);
    while i < inode.mount.links
      invariant i <= inode.mount.links && inode.Valid()
      invariant fresh(inode.view.nodes.Values - old(inode.view.nodes.Values))
      invariant inode.IsAt(node, Ind(m)) && NodesKept(old(inode.view), inode.view)
      invariant EmptyFrom(g.p, inode.view.lay, Ind(m), i)
      invariant all == SlotsLeft(inode, Ind(m), id, i, inode.view.lay)
      invariant offsetModifier == Mul(LeafPos(g.p, m, i), g.bs)
    {
      NextLeafOffset(g, m, i);
      var x;
      ghost var r;
      x, r := NextSlot(inode, tmp, i, Ind(m), id, all);
      if x != 0 {
        ghost var v := inode.view;
        LoadBlock(inode, node, i, x, offsetModifier, m);
        KeptStep(old(inode.view), v, inode.view, Ind(m));
      }
      offsetModifier := offsetModifier + inode.mount.sizes.bs;
      i := i + 1;
    }
    NoSlotsLeft(inode, Ind(m), id, tmp, inode.view.lay);
    ok := true;
  }

  lemma NextLeafOffset(g: Geo, m: nat, i: nat)
    ensures Mul(LeafPos(g.p, m, i + 1), g.bs) == Mul(LeafPos(g.p, m, i), g.bs) + g.bs
  {
    assert LeafPos(g.p, m, i + 1) - 1 == LeafPos(g.p, m, i);
  }

  /** Reads the block with this id. */
  method ReadBlock(inode: Inode, id: nat) returns (ok: bool, tmp: seq<byte>)
    ensures ok <==> OnDevice(inode, id)
    ensures ok ==> WasRead(inode, id, tmp)
  {
    ok, tmp := inode.mount.device.Read(id * inode.mount.sizes.bs, inode.mount.sizes.bs);
  }

  /** A new index block has no slots filled. */
  lemma HookedIsEmpty(inode: Inode, v: View, s: Pos, o: object, id: nat, e: Extent)
    requires inode.Shape() && !s.Leaf? && Added(inode.mount.links, v, inode.view, s, o, id, e)
    requires Linked(inode.mount.links, v)
    ensures EmptyFrom(inode.mount.links, inode.view.lay, s, 0)
    ensures NodesKept(v, inode.view) && inode.IsAt(o, s)
    ensures forall bs :: ExtentsRight(v, bs) ==> ExtentsRight(inode.view, bs)
    ensures inode.view.lay == v.lay[s := id] && inode.view.nodes.Values <= v.nodes.Values + {o}
  {
    NewIsEmpty(inode.mount.links, v.lay, s, id);
  }

  /** Loading an index block: nothing for id 0, a failure for a block that is not on the device, else the
      block and then its slots. */
  lemma LoadNodeIs(inode: Inode, s: Pos, id: nat, acc: Layout)
    requires !s.Leaf? && inode.mount.Sane()
    ensures LoadAt(inode.mount.Geom(), inode.mount.device.bytes, s, id, acc) ==
      if id == 0 then Loaded(true, acc)
      else if !OnDevice(inode, id) then Loaded(false, acc)
      else SlotsLeft(inode, s, id, 0, acc[s := id])
  {}

  /** udbfslib_load_ind_block for slot j of a bi-indirect block. */
  method LoadIndBlock(inode: Inode, node: BindBlock, j: nat, id: nat, offset: nat, ghost b: nat) returns (ok: bool)
    requires inode.Valid() && inode.IsAt(node, Bind(b)) && j < inode.mount.links
    requires Child(inode.mount.links, Bind(b), j) !in inode.view.lay
    requires offset == Mul(LeafPos(inode.mount.links, IndPos(inode.mount.links, b, j), 0), inode.mount.sizes.bs)
    modifies node`indblock, inode`view
    ensures inode.Valid() && NodesKept(old(inode.view), inode.view)
    ensures fresh(inode.view.nodes.Values - old(inode.view.nodes.Values))
    ensures Loaded(ok, inode.view.lay) ==
            LoadAt(inode.mount.Geom(), inode.mount.device.bytes, Child(inode.mount.links, Bind(b), j), id,
                   old(inode.view.lay))
  {
    hide NodesKept, Linked, AllHold, LeafPos, IndPos, Mul, LoadSlots, EmptyFrom, Added, ExtentsRight, LoadAt,
      SlotsLeft, WasRead;
    KeptAll(inode.view);
    LoadNodeIs(inode, Ind(IndPos(inode.mount.links, b, j)), id, inode.view.lay);
    if id == 0 {
      return true;
    }
    ghost var m := IndPos(inode.mount.links, b, j);
    var indBlock := new IndBlock(inode.mount.links, id, id * inode.mount.sizes.bs);
    var tmp;
    ok, tmp := ReadBlock(inode, id);
    if !ok {
      return false;
    }
    inode.BindLeads(node, b, j);
    inode.HookInd(node, j, indBlock, Bind(b), Ind(m), id);
    HookedIsEmpty(inode, old(inode.view), Ind(m), indBlock, id, Extent(0, 0, 0));
    ghost var v := inode.view;
    ok := FillInd(inode, indBlock, id, tmp, offset, m);
    KeptStep(old(inode.view), v, inode.view, Tind);
  }

  /** The loop of udbfslib_load_bind_block. */
  method FillBind(inode: Inode, node: BindBlock, id: nat, tmp: seq<byte>, offset: nat, ghost b: nat) returns (ok: bool)
    requires inode.mount.Sane() && inode.Valid() && inode.IsAt(node, Bind(b)) && WasRead(inode, id, tmp)
    requires EmptyFrom(inode.mount.links, inode.view.lay, Bind(b), 0)
    requires offset == Mul(BindStart(inode.mount.links, b), inode.mount.sizes.bs)
    modifies node`indblock, inode`view
    ensures inode.Valid() && NodesKept(old(inode.view), inode.view)
    ensures fresh(inode.view.nodes.Values - old(inode.view.nodes.Values))
    ensures Loaded(ok, inode.view.lay) == SlotsLeft(inode, Bind(b), id, 0, old(inode.view.lay))
  {
    hide Inode.Valid, NodesKept, SlotsLeft, WasRead, LeafPos, IndPos, Mul, BindStart, EmptyFrom;
    ghost var g := inode.mount.Geom();
    ghost var all := SlotsLeft(inode, Bind(b), id, 0, inode.view.lay);
    FirstIndOffset(inode, b);
    var offsetModifier: nat := offset;
    var j: nat := 0;
    KeptAll(inode.view);
    ShapeOfValid(inode);
    while j < inode.mount.links
      invariant j <= inode.mount.links && inode.Valid()
      invariant fresh(inode.view.nodes.Values - old(inode.view.nodes.Values))
      invariant inode.IsAt(node, Bind(b)) && NodesKept(old(inode.view), inode.view)
      invariant EmptyFrom(g.p, inode.view.lay, Bind(b), j)
      invariant all == SlotsLeft(inode, Bind(b), id, j, inode.view.lay)
      invariant offsetModifier == IndOffset(inode, b, j)
    {
      NextIndOffset(inode, b, j);
      var x;
      ghost var r;
      x, r := NextSlot(inode, tmp, j, Bind(b), id, all);
      if x != 0 {
        ghost var v := inode.view;
        ok := LoadIndBlock(inode, node, j, x, offsetModifier, b);
        KeptStep(old(inode.view), v, inode.view, Bind(b));
        if !ok {
          return false;
        }
      }
      offsetModifier := offsetModifier + inode.mount.sizes.ind;
      j := j + 1;
    }
    NoSlotsLeft(inode, Bind(b), id, tmp, inode.view.lay);
    ok := true;
  }

  /** File offset of the first leaf under slot j of bi-indirect block b. */
  ghost function IndOffset(inode: Inode, b: nat, j: nat): nat {
    Mul(LeafPos(inode.mount.links, IndPos(inode.mount.links, b, j), 0), inode.mount.sizes.bs)
  }

  lemma FirstIndOffset(inode: Inode, b: nat)
    ensures IndOffset(inode, b, 0) == Mul(BindStart(inode.mount.links, b), inode.mount.sizes.bs)
  {
    BindStartIsFirst(inode.mount.links, b);
  }

  lemma NextIndOffset(inode: Inode, b: nat, j: nat)
    requires inode.mount.Sane() && j < inode.mount.links
    ensures IndOffset(inode, b, j + 1) == IndOffset(inode, b, j) + inode.mount.sizes.ind
  {
    NextIndOf(inode.mount.links, b, j);
    NextInd(inode.mount.links, inode.mount.sizes.bs, IndPos(inode.mount.links, b, j));
  }

  /** udbfslib_load_bind_block for slot i of the tri-indirect block. */
  method LoadBindBlock(inode: Inode, node: TindBlock, i: nat, id: nat, offset: nat) returns (ok: bool)
    requires inode.Valid() && inode.IsAt(node, Tind) && i < inode.mount.links
    requires Child(inode.mount.links, Tind, i) !in inode.view.lay
    requires offset == Mul(BindStart(inode.mount.links, 1 + i), inode.mount.sizes.bs)
    modifies node`bindblock, inode`view
    ensures inode.Valid() && NodesKept(old(inode.view), inode.view)
    ensures fresh(inode.view.nodes.Values - old(inode.view.nodes.Values))
    ensures Loaded(ok, inode.view.lay) ==
            LoadAt(inode.mount.Geom(), inode.mount.device.bytes, Child(inode.mount.links, Tind, i), id,
                   old(inode.view.lay))
  {
    hide NodesKept, Linked, AllHold, BindStart, Mul, LoadSlots, EmptyFrom, Added, ExtentsRight, LoadAt,
      SlotsLeft, WasRead;
    LoadNodeIs(inode, Bind(1 + i), id, inode.view.lay);
    KeptAll(inode.view);
    if id == 0 {
      return true;
    }
    var bindBlock := new BindBlock(inode.mount.links, id, id * inode.mount.sizes.bs);
    var tmp;
    ok, tmp := ReadBlock(inode, id);
    if !ok {
      return false;
    }
    inode.TindLeads(node, i);
    inode.HookBind(node, i, bindBlock, Tind, Bind(1 + i), id);
    HookedIsEmpty(inode, old(inode.view), Bind(1 + i), bindBlock, id, Extent(0, 0, 0));
    ghost var v := inode.view;
    ok := FillBind(inode, bindBlock, id, tmp, offset, 1 + i);
    KeptStep(old(inode.view), v, inode.view, Tind);
  }

  /** The loop of udbfslib_load_tind_block. */
  method FillTind(inode: Inode, node: TindBlock, id: nat, tmp: seq<byte>, offset: nat) returns (ok: bool)
    requires inode.mount.Sane() && inode.Valid() && inode.IsAt(node, Tind) && WasRead(inode, id, tmp)
    requires EmptyFrom(inode.mount.links, inode.view.lay, Tind, 0)
    requires offset == Mul(BindStart(inode.mount.links, 1), inode.mount.sizes.bs)
    modifies node`bindblock, inode`view
    ensures inode.Valid() && NodesKept(old(inode.view), inode.view)
    ensures fresh(inode.view.nodes.Values - old(inode.view.nodes.Values))
    ensures Loaded(ok, inode.view.lay) == SlotsLeft(inode, Tind, id, 0, old(inode.view.lay))
  {
    hide Inode.Valid, NodesKept, SlotsLeft, WasRead, Mul, BindStart, EmptyFrom;
    ghost var g := inode.mount.Geom();
    ghost var all := SlotsLeft(inode, Tind, id, 0, inode.view.lay);
    var offsetModifier: nat := offset;
    var i: nat := 0;
    KeptAll(inode.view);
    ShapeOfValid(inode);
    while i < inode.mount.links
      invariant i <= inode.mount.links && inode.Valid()
      invariant fresh(inode.view.nodes.Values - old(inode.view.nodes.Values))
      invariant inode.IsAt(node, Tind) && NodesKept(old(inode.view), inode.view)
      invariant EmptyFrom(g.p, inode.view.lay, Tind, i)
      invariant all == SlotsLeft(inode, Tind, id, i, inode.view.lay)
      invariant offsetModifier == Mul(BindStart(g.p, 1 + i), g.bs)
    {
      NextBind(g.p, g.bs, inode.mount.sizes.ind, inode.mount.sizes.bind, 1 + i);
      var x;
      ghost var r;
      x, r := NextSlot(inode, tmp, i, Tind, id, all);
      if x != 0 {
        ghost var v := inode.view;
        ok := LoadBindBlock(inode, node, i, x, offsetModifier);
        KeptStep(old(inode.view), v, inode.view, Tind);
        if !ok {
          return false;
        }
      }
      offsetModifier := offsetModifier + inode.mount.sizes.bind;
      i := i + 1;
    }
    NoSlotsLeft(inode, Tind, id, tmp, inode.view.lay);
    ok := true;
  }

  // ----- the link points in the inode -----

  /** What loading the root position s does to the tree. */
  ghost function RootLoaded(inode: Inode, s: Pos, id: nat, acc: Layout): Loaded
    requires inode.mount.Sane()
    reads inode.mount.device
  {
    LoadAt(inode.mount.Geom(), inode.mount.device.bytes, s, id, acc)
  }

  method LoadDirect(inode: Inode, j: nat, id: nat, fileOffset: nat)
    requires inode.mount.Sane() && inode.Valid() && j < 4 && Leaf(j) !in inode.view.lay
    requires fileOffset == j * inode.mount.sizes.bs
    modifies inode`block, inode`view
    ensures inode.Valid()
    ensures fresh(inode.view.nodes.Values - old(inode.view.nodes.Values))
    ensures Loaded(true, inode.view.lay) == RootLoaded(inode, Leaf(j), id, old(inode.view.lay))
  {
    hide Linked, AllHold, Mul;
    inode.RootLeads(j);
    var b := new Block();
    b.id := id;
    b.deviceOffset := inode.mount.sizes.bs * b.id;
    b.offsetStart := fileOffset;
    b.offsetEnd := fileOffset + inode.mount.sizes.bs;
    MulIs(id, inode.mount.sizes.bs);
    MulIs(j, inode.mount.sizes.bs);
    inode.HookDirect(j, b);
  }

  method LoadRootInd(inode: Inode, id: nat, offset: nat) returns (ok: bool)
    requires inode.mount.Sane() && inode.Valid() && Ind(0) !in inode.view.lay
    requires offset == inode.mount.sizes.dir
    modifies inode`indBlock, inode`view
    ensures inode.Valid()
    ensures fresh(inode.view.nodes.Values - old(inode.view.nodes.Values))
    ensures Loaded(ok, inode.view.lay) == RootLoaded(inode, Ind(0), id, old(inode.view.lay))
  {
    hide Linked, AllHold, Mul, LoadSlots, EmptyFrom, Added, ExtentsRight, LoadAt,
      SlotsLeft, WasRead;
    LoadNodeIs(inode, Ind(0), id, inode.view.lay);
    if id == 0 {
      return true;
    }
    var indBlock := new IndBlock(inode.mount.links, id, id * inode.mount.sizes.bs);
    var tmp;
    ok, tmp := ReadBlock(inode, id);
    if !ok {
      return false;
    }
    inode.RootLeads(4);
    inode.HookRootInd(indBlock, id);
    HookedIsEmpty(inode, old(inode.view), Ind(0), indBlock, id, Extent(0, 0, 0));
    MulIs(4, inode.mount.sizes.bs);
    ok := FillInd(inode, indBlock, id, tmp, offset, 0);
  }

  method LoadRootBind(inode: Inode, id: nat, offset: nat) returns (ok: bool)
    requires inode.mount.Sane() && inode.Valid() && Bind(0) !in inode.view.lay
    requires offset == inode.mount.sizes.dir + inode.mount.sizes.ind
    modifies inode`bindBlock, inode`view
    ensures inode.Valid()
    ensures fresh(inode.view.nodes.Values - old(inode.view.nodes.Values))
    ensures Loaded(ok, inode.view.lay) == RootLoaded(inode, Bind(0), id, old(inode.view.lay))
  {
    hide Linked, AllHold, Mul, BindStart, LoadSlots, EmptyFrom, Added, ExtentsRight, LoadAt,
      SlotsLeft, WasRead;
    LoadNodeIs(inode, Bind(0), id, inode.view.lay);
    if id == 0 {
      return true;
    }
    var bindBlock := new BindBlock(inode.mount.links, id, id * inode.mount.sizes.bs);
    var tmp;
    ok, tmp := ReadBlock(inode, id);
    if !ok {
      return false;
    }
    inode.RootLeads(5);
    inode.HookRootBind(bindBlock, id);
    HookedIsEmpty(inode, old(inode.view), Bind(0), bindBlock, id, Extent(0, 0, 0));
    inode.DirAndInd();
    ok := FillBind(inode, bindBlock, id, tmp, offset, 0);
  }

  method LoadRootTind(inode: Inode, id: nat, offset: nat) returns (ok: bool)
    requires inode.mount.Sane() && inode.Valid() && Tind !in inode.view.lay
    requires offset == inode.mount.sizes.dir + inode.mount.sizes.ind + inode.mount.sizes.bind
    modifies inode`tindBlock, inode`view
    ensures inode.Valid()
    ensures fresh(inode.view.nodes.Values - old(inode.view.nodes.Values))
    ensures Loaded(ok, inode.view.lay) == RootLoaded(inode, Tind, id, old(inode.view.lay))
  {
    hide Linked, AllHold, Mul, BindStart, LoadSlots, EmptyFrom, Added, ExtentsRight, LoadAt,
      SlotsLeft, WasRead;
    LoadNodeIs(inode, Tind, id, inode.view.lay);
    if id == 0 {
      return true;
    }
    var tindBlock := new TindBlock(inode.mount.links, id, id * inode.mount.sizes.bs);
    var tmp;
    ok, tmp := ReadBlock(inode, id);
    if !ok {
      return false;
    }
    inode.RootLeads(6);
    inode.HookRootTind(tindBlock, id);
    HookedIsEmpty(inode, old(inode.view), Tind, tindBlock, id, Extent(0, 0, 0));
    inode.DirAndInd();
    ok := FillTind(inode, tindBlock, id, tmp, offset);
  }

  /** The four direct slots. They are taken over even when the id is 0. */
  method LoadDirects(inode: Inode, ids: seq<nat>)
    requires inode.mount.Sane() && inode.Valid() && inode.view.lay == map[] && |ids| == 7
    modifies inode`block, inode`view
    ensures inode.Valid()
    ensures fresh(inode.view.nodes.Values - old(inode.view.nodes.Values))
    ensures inode.view.lay == Directs(ids)
  {
    hide Inode.Valid;
    var bs := inode.mount.sizes.bs;
    LoadDirect(inode, 0, ids[0], 0);
    LoadDirect(inode, 1, ids[1], bs);
    LoadDirect(inode, 2, ids[2], bs * 2);
    LoadDirect(inode, 3, ids[3], bs * 3);
  }

  function Directs(ids: seq<nat>): Layout
    requires |ids| == 7
  {
    map[Leaf(0) := ids[0], Leaf(1) := ids[1], Leaf(2) := ids[2], Leaf(3) := ids[3]]
  }

  ghost predicate IdsRead(dev: seq<byte>, rec: nat, ids: seq<nat>) {
    |ids| == 7 && forall j: nat :: j < 7 ==> WordIs(dev, rec + 8 + 8 * j, ids[j])
  }

  lemma DirectsLoaded(g: Geo, dev: seq<byte>, rec: nat, ids: seq<nat>)
    requires g.bs == 8 * g.p && rec + RECORD_SIZE <= |dev| && IdsRead(dev, rec, ids)
    ensures Load(g, dev, rec) == LoadRoots(g, dev, rec, 4, Directs(ids))
  {
    assert WordIs(dev, rec + 8 + 8 * 0, ids[0]) && WordIs(dev, rec + 8 + 8 * 1, ids[1]);
    assert WordIs(dev, rec + 8 + 8 * 2, ids[2]) && WordIs(dev, rec + 8 + 8 * 3, ids[3]);
    RootsStep(g, dev, rec, ids, 0, map[]);
    RootsStep(g, dev, rec, ids, 1, map[Leaf(0) := ids[0]]);
    RootsStep(g, dev, rec, ids, 2, map[Leaf(0) := ids[0], Leaf(1) := ids[1]]);
    RootsStep(g, dev, rec, ids, 3, map[Leaf(0) := ids[0], Leaf(1) := ids[1], Leaf(2) := ids[2]]);
  }

  lemma RootsStep(g: Geo, dev: seq<byte>, rec: nat, ids: seq<nat>, j: nat, acc: Layout)
    requires g.bs == 8 * g.p && rec + RECORD_SIZE <= |dev| && IdsRead(dev, rec, ids) && j < 7
    ensures var r := LoadAt(g, dev, Root(j), ids[j], acc);
      LoadRoots(g, dev, rec, j, acc) == if !r.ok then r else LoadRoots(g, dev, rec, j + 1, r.lay)
    ensures j == 6 ==> LoadRoots(g, dev, rec, j, acc) == LoadAt(g, dev, Root(j), ids[j], acc)
  {
    assert WordIs(dev, rec + 8 + 8 * j, ids[j]);
  }

  /** Loading an index block at the top adds nothing at or above its level. */
  lemma TopsApart(inode: Inode, s: Pos, id: nat, acc: Layout, t: Pos)
    requires inode.mount.Sane() && t !in acc && t != s && Level(t) >= Level(s)
    ensures t !in RootLoaded(inode, s, id, acc).lay
  {
    if t in RootLoaded(inode, s, id, acc).lay {
      LoadAtAdds(inode.mount.Geom(), inode.mount.device.bytes, s, id, acc, t);
    }
  }

  /** The loads of udbfs_open_inode, up to the first that fails. */
  method LoadTree(inode: Inode, ids: seq<nat>, ghost rec: nat)
    requires inode.mount.Sane() && inode.Valid() && inode.view.lay == map[]
    requires rec + RECORD_SIZE <= |inode.mount.device.bytes| && IdsRead(inode.mount.device.bytes, rec, ids)
    modifies inode`block, inode`indBlock, inode`bindBlock, inode`tindBlock, inode`view
    ensures inode.Valid()
    ensures fresh(inode.view.nodes.Values - old(inode.view.nodes.Values))
    ensures inode.view.lay == Load(inode.mount.Geom(), inode.mount.device.bytes, rec).lay
  {
    hide Inode.Valid, LoadRoots, LoadAt, IdsRead, Load, IsRoot;
    ghost var g, dev := inode.mount.Geom(), inode.mount.device.bytes;
    var sizes := inode.mount.sizes;
    IdsAreSeven(dev, rec, ids);
    DirectsLoaded(g, dev, rec, ids);
    LoadDirects(inode, ids);
    ghost var acc := inode.view.lay;
    RootsStep(g, dev, rec, ids, 4, acc);
    TopsApart(inode, Ind(0), ids[4], acc, Bind(0));
    TopsApart(inode, Ind(0), ids[4], acc, Tind);
    var ok := LoadRootInd(inode, ids[4], sizes.dir);
    if ok {
      acc := inode.view.lay;
      RootsStep(g, dev, rec, ids, 5, acc);
      TopsApart(inode, Bind(0), ids[5], acc, Tind);
      ok := LoadRootBind(inode, ids[5], sizes.dir + sizes.ind);
      if ok {
        RootsStep(g, dev, rec, ids, 6, inode.view.lay);
        ok := LoadRootTind(inode, ids[6], sizes.dir + sizes.ind + sizes.bind);
      }
    }
  }

  lemma IdsAreSeven(dev: seq<byte>, rec: nat, ids: seq<nat>)
    requires IdsRead(dev, rec, ids)
    ensures |ids| == 7
  {}

  // ----- udbfs_open_inode -----

  lemma WordOfPart(dev: seq<byte>, start: nat, len: nat, off: nat)
    requires start + len <= |dev| && off + 8 <= len
    ensures Decode(dev[start..start + len][off..off + 8]) == Word(dev, start + off)
  {
    SliceOfSlice(dev, start, start + len, off, off + 8);
  }

  lemma RecordRead(dev: seq<byte>, rec: nat, record: seq<byte>, size: nat, ids: seq<nat>)
    requires rec + RECORD_SIZE <= |dev| && record == dev[rec..rec + RECORD_SIZE] && |ids| == 7
    requires size == Decode(record[0..8])
    requires forall j: nat :: j < 7 ==> ids[j] == Decode(record[8 + 8 * j..16 + 8 * j])
    ensures IdsRead(dev, rec, ids) && size == Word(dev, rec)
  {
    WordOfPart(dev, rec, RECORD_SIZE, 0);
    forall j: nat | j < 7
      ensures WordIs(dev, rec + 8 + 8 * j, ids[j])
    {
      WordOfPart(dev, rec, RECORD_SIZE, 8 + 8 * j);
    }
  }

  /** The seven block ids of a record. */
  function RecordIds(record: seq<byte>): (ids: seq<nat>)
    requires |record| == RECORD_SIZE
    ensures |ids| == 7 && forall j: nat :: j < 7 ==> ids[j] == Decode(record[8 + 8 * j..16 + 8 * j])
  {
    seq(7, j requires 0 <= j < 7 => Decode(record[8 + 8 * j..16 + 8 * j]))
  }

  /** udbfs_open_inode: the file as it is on the device, or null when its record cannot be read. */
  method OpenInode(mount: Mount, inodeId: nat) returns (inode: Inode?)
    requires mount.Sane()
    modifies mount`openedInodes, mount.device
    ensures mount.device.bytes == old(mount.device.bytes)
    ensures var rec := mount.inodeTableOffset + 64 * inodeId;
      if rec + 64 > |mount.device.bytes| then
        inode == null && mount.openedInodes == old(mount.openedInodes)
      else
        && inode != null && fresh(inode) && inode.mount == mount
        && inode.Valid() && fresh(inode.view.nodes.Values)
        && mount.openedInodes == old(mount.openedInodes) + {inode}
        && inode.id == inodeId && inode.physicalOffset == rec && inode.cursor == 0
        && inode.size == Word(mount.device.bytes, rec)
        && inode.view.lay == Load(mount.Geom(), mount.device.bytes, rec).lay
  {
    hide Load, Inode.Shape, ExtentsRight, FlushTree;
    var entry := new Inode(mount);
    entry.id := inodeId;
    entry.physicalOffset := mount.inodeTableOffset + RECORD_SIZE * inodeId;
    var ok, record := mount.device.Read(entry.physicalOffset, RECORD_SIZE);
    if !ok {
      NothingToFlush(mount.Geom(), mount.device.bytes);
      CloseInode(entry);
      return null;
    }
    var ids := RecordIds(record);
    RecordRead(mount.device.bytes, entry.physicalOffset, record, Decode(record[0..8]), ids);
    entry.size := Decode(record[0..8]);
    LoadTree(entry, ids, entry.physicalOffset);
    inode := entry;
  }

  lemma NothingToFlush(g: Geo, dev: seq<byte>)
    ensures FlushTree(g, dev, map[]) == dev
  {}
}
