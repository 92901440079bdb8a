/**
 An open inode: the block tree in memory and the functions that grow, search and move bytes
 through it.

 The nodes are linked by references, as in the library. The ghost field `view` names the nodes by
 position; `Shape` says that the references in memory are the ones of the view.
 */
module Inodes {
  import opened Seqs
  import opened Bytes
  import opened Bitmap
  import opened Arith
  import opened Layouts
  import opened Locating
  import opened FileSpec
  import opened Superblocks
  import opened Trees

  /** A data block: which bytes of the file it holds and where on the device they are. */
  class Block {
    var id: nat
    var offsetStart: nat
    var offsetEnd: nat
    var deviceOffset: nat

    constructor ()
      ensures id == 0 && offsetStart == 0 && offsetEnd == 0 && deviceOffset == 0
    {
      id, offsetStart, offsetEnd, deviceOffset := 0, 0, 0, 0;
    }

    ghost function Span(): Extent
      reads this
    {
      Extent(offsetStart, offsetEnd, deviceOffset)
    }
  }

  class IndBlock {
    var id: nat
    var deviceOffset: nat
    var block: seq<Block?>

    constructor (links: nat, id: nat, deviceOffset: nat)
      ensures this.id == id && this.deviceOffset == deviceOffset
      ensures |block| == links && forall i :: 0 <= i < links ==> block[i] == null
    {
      this.id, this.deviceOffset := id, deviceOffset;
      block := seq(links, _ => null);
    }
  }

  class BindBlock {
    var id: nat
    var deviceOffset: nat
    var indblock: seq<IndBlock?>

    constructor (links: nat, id: nat, deviceOffset: nat)
      ensures this.id == id && this.deviceOffset == deviceOffset
      ensures |indblock| == links && forall i :: 0 <= i < links ==> indblock[i] == null
    {
      this.id, this.deviceOffset := id, deviceOffset;
      indblock := seq(links, _ => null);
    }
  }

  class TindBlock {
    var id: nat
    var deviceOffset: nat
    var bindblock: seq<BindBlock?>

    constructor (links: nat, id: nat, deviceOffset: nat)
      ensures this.id == id && this.deviceOffset == deviceOffset
      ensures |bindblock| == links && forall i :: 0 <= i < links ==> bindblock[i] == null
    {
      this.id, this.deviceOffset := id, deviceOffset;
      bindblock := seq(links, _ => null);
    }
  }

  // What a node says about itself.

  /** A node knows its id; an index block its place on the device and its slots, a data block its extent. */
  ghost predicate Holds(s: Pos, o: object, id: nat, bs: nat, slots: seq<object?>, e: Extent)
    reads o
  {
    match s
    case Leaf(_) =>
      o is Block && (var x := o as Block; x.id == id && Extent(x.offsetStart, x.offsetEnd, x.deviceOffset) == e)
    case Ind(_) =>
      o is IndBlock && (var x := o as IndBlock; x.id == id && x.deviceOffset == id * bs && x.block == slots)
    case Bind(_) =>
      o is BindBlock && (var x := o as BindBlock; x.id == id && x.deviceOffset == id * bs && x.indblock == slots)
    case Tind =>
      o is TindBlock && (var x := o as TindBlock; x.id == id && x.deviceOffset == id * bs && x.bindblock == slots)
  }

  /** The object at position s is the node the view describes. */
  ghost predicate NodeOk(v: View, bs: nat, s: Pos)
    reads v.nodes.Values
  {
    s in v.nodes && s in v.lay && Holds(s, v.nodes[s], v.lay[s], bs, SlotsAt(v, s), ExtentAt(v, s))
  }

  ghost predicate AllHold(v: View, bs: nat)
    reads v.nodes.Values
  {
    forall s {:trigger NodeOk(v, bs, s)} :: s in v.nodes ==> NodeOk(v, bs, s)
  }

  /** Everything is in order but the node at s. */
  ghost predicate OthersHold(v: View, bs: nat, s: Pos)
    reads v.nodes.Values
  {
    forall t {:trigger NodeOk(v, bs, t)} :: t in v.nodes && t != s ==> NodeOk(v, bs, t)
  }

  /** Adding one node under s. */
  lemma AllHoldAdded(p: Fanout, v: View, w: View, bs: nat, s: Pos, c: Pos, o: object, id: nat, e: Extent)
    requires Added(p, v, w, c, o, id, e) && s != c
    requires OthersHold(v, bs, s)
    requires forall t :: t != s && t != c ==> SlotsAt(w, t) == SlotsAt(v, t)
    requires s in v.nodes ==> s in v.lay && Holds(s, v.nodes[s], v.lay[s], bs, SlotsAt(w, s), ExtentAt(w, s))
    requires Holds(c, o, id, bs, SlotsAt(w, c), ExtentAt(w, c))
    ensures AllHold(w, bs)
  {
    forall t | t in w.nodes
      ensures NodeOk(w, bs, t)
    {
      assert t in v.nodes && t != s ==> NodeOk(v, bs, t);
    }
  }

  /** The view after node o, which is new and empty, has been put into slot i of the index block at s. */
  lemma ViewHooked(p: Fanout, v: View, bs: nat, s: Pos, i: nat, c: Pos, o: object, id: nat, e: Extent)
    returns (w: View)
    requires Linked(p, v) && s in v.slots && i < p && v.slots[s][i] == null && c == Child(p, s, i)
    requires forall t :: t in v.nodes ==> v.nodes[t] != o
    requires OthersHold(v, bs, s)
    requires Holds(s, v.nodes[s], v.lay[s], bs, v.slots[s][i := o], ExtentAt(v, s))
    requires Holds(c, o, id, bs, if c.Leaf? then [] else seq(p, _ => null), if c.Leaf? then e else ExtentAt(v, c))
    ensures Linked(p, w) && AllHold(w, bs) && Added(p, v, w, c, o, id, e) && w.roots == v.roots
  {
    w := LinkChildView(p, v, s, i, c, o, id, e);
    AllHoldAdded(p, v, w, bs, s, c, o, id, e);
  }

  /** The view after node o has been put at one of the inode's own link points. */
  lemma ViewRooted(p: Fanout, v: View, bs: nat, j: nat, c: Pos, o: object, id: nat, e: Extent) returns (w: View)
    requires Linked(p, v) && AllHold(v, bs) && j < 7 && v.roots[j] == null && c == Root(j)
    requires forall t :: t in v.nodes ==> v.nodes[t] != o
    requires Holds(c, o, id, bs, if c.Leaf? then [] else seq(p, _ => null), if c.Leaf? then e else ExtentAt(v, c))
    ensures Linked(p, w) && AllHold(w, bs) && Added(p, v, w, c, o, id, e)
    ensures w.roots == v.roots[j := o]
  {
    w := LinkRootView(p, v, j, c, o, id, e);
    forall t | t in w.nodes
      ensures NodeOk(w, bs, t)
    {
      assert t in v.nodes ==> NodeOk(v, bs, t);
    }
  }

  ghost predicate LeavesBelow(lay: Layout, n: nat) {
    forall k: nat :: Leaf(k) in lay <==> k < n
  }

  predicate IsNode(o: object) {
    o is Block || o is IndBlock || o is BindBlock || o is TindBlock
  }

  /** Inodes, mounts, devices and bitmaps are not nodes. */
  lemma NotANode(v: View, bs: nat, o: object)
    requires AllHold(v, bs) && !IsNode(o)
    ensures o !in v.nodes.Values
  {
    forall t | t in v.nodes
      ensures v.nodes[t] != o
    {
      assert NodeOk(v, bs, t);
    }
  }

  /** A mounted device. `sb` is the superblock as it was read, `links` is block_size >> 3, the number
      of ids in an index block. */
  class Mount {
    const device: Device
    const sb: Super
    const blockBitmap: array<byte>
    const inodeBitmap: array<byte>
    const links: Fanout
    const sizes: Sizes
    const inodeTableOffset: nat
    var freeBlockCount: nat
    var freeInodeCount: nat
    var bootLoaderInode: nat
    var openedInodes: set<Inode>

    constructor (device: Device, sb: Super, blockBitmap: array<byte>, inodeBitmap: array<byte>)
      ensures this.device == device && this.blockBitmap == blockBitmap && this.inodeBitmap == inodeBitmap
      ensures this.sb == sb && sizes.bs == BlockSize(sb) && inodeTableOffset == InodeTableOffset(sb)
      ensures freeBlockCount == sb.freeBlockCount && freeInodeCount == sb.freeInodeCount
      ensures bootLoaderInode == sb.bootLoaderInode
      ensures openedInodes == {} && Sane()
    {
      var blockSize: Size := BlockSize(sb);
      BlockSizeInEights(sb);
      var p: Fanout := blockSize / 8;
      var ind: Size := p * blockSize;
      var bind: Size := p * ind;
      var tind: Size := p * bind;
      MulIs(p, blockSize);
      MulIs(p, ind);
      MulIs(p, bind);
      this.device, this.sb, this.blockBitmap, this.inodeBitmap := device, sb, blockBitmap, inodeBitmap;
      this.links, this.sizes := p, Sizes(blockSize, 4 * blockSize, ind, bind, tind);
      this.inodeTableOffset := InodeTableOffset(sb);
      this.freeBlockCount, this.freeInodeCount, openedInodes := sb.freeBlockCount, sb.freeInodeCount, {};
      this.bootLoaderInode := sb.bootLoaderInode;
    }

    predicate Sane() {
      sizes.bs == 8 * links && SizesFor(links, sizes)
    }

    function Geom(): Geo {
      Geo(links, sizes.bs)
    }

    ghost function Blocks(): Alloc
      reads this`freeBlockCount, blockBitmap
    {
      Alloc(Bits(blockBitmap[..]), freeBlockCount)
    }

    ghost function InodeIds(): Alloc
      reads this`freeInodeCount, inodeBitmap
    {
      Alloc(Bits(inodeBitmap[..]), freeInodeCount)
    }

    method AllocateBlockId() returns (id: nat)
      modifies this`freeBlockCount, blockBitmap
      ensures Taken(id, Blocks()) == Take(old(Blocks()))
    {
      id, freeBlockCount := AllocateBit(blockBitmap, freeBlockCount);
    }

    method AllocateInodeId() returns (id: nat)
      modifies this`freeInodeCount, inodeBitmap
      ensures Taken(id, InodeIds()) == Take(old(InodeIds()))
    {
      id, freeInodeCount := AllocateBit(inodeBitmap, freeInodeCount);
    }
  }

  class Inode {
    const mount: Mount
    var id: nat
    var cursor: nat
    var size: nat
    var physicalOffset: nat
    var block: seq<Block?>
    var indBlock: IndBlock?
    var bindBlock: BindBlock?
    var tindBlock: TindBlock?

    // The tree, node by node and by position.
    ghost var view: View

    /** udbfslib_allocate_memory_inode: an empty inode, linked into the mount. */
    constructor (mount: Mount)
      requires mount.Sane()
      modifies mount`openedInodes
      ensures this.mount == mount && mount.openedInodes == old(mount.openedInodes) + {this}
      ensures id == 0 && cursor == 0 && size == 0
      ensures Valid() && view == View(seq(7, _ => null), map[], map[], map[], map[])
    {
      this.mount := mount;
      id, cursor, size, physicalOffset := 0, 0, 0, 0;
      block := [null, null, null, null];
      indBlock, bindBlock, tindBlock := null, null, null;
      view := View(seq(7, _ => null), map[], map[], map[], map[]);
      new;
      mount.openedInodes := mount.openedInodes + {this};
    }

    // ----- what the view means -----

    ghost function Roots(): seq<object?>
      reads `block, `indBlock, `bindBlock, `tindBlock
    {
      if |block| == 4 then [block[0], block[1], block[2], block[3], indBlock, bindBlock, tindBlock] else []
    }

    /** The nodes in memory form the tree of the view. */
    ghost predicate Shape()
      reads `block, `indBlock, `bindBlock, `tindBlock, `view, view.nodes.Values
    {
      && |block| == 4 && view.roots == Roots()
      && Linked(mount.links, view)
      && AllHold(view, mount.sizes.bs)
    }

    ghost predicate Valid()
      reads `block, `indBlock, `bindBlock, `tindBlock, `view, view.nodes.Values
    {
      mount.Sane() && Shape() && ExtentsRight(view, mount.sizes.bs)
    }

    // ----- linking new nodes -----

    ghost predicate Unused(o: object)
      reads `view
    {
      forall t :: t in view.nodes ==> view.nodes[t] != o
    }

    /** Node o of the inode is at position s. */
    ghost predicate IsAt(o: object, s: Pos)
      reads `view
    {
      s in view.nodes && view.nodes[s] == o
    }

    ghost method SetView(w: View)
      requires |block| == 4 && w.roots == Roots() && Linked(mount.links, w) && AllHold(w, mount.sizes.bs)
      modifies `view
      ensures view == w && Shape()
    {
      NotANode(w, mount.sizes.bs, this);
      view := w;
    }

    lemma BlockAt(b: Block, s: Pos)
      requires Shape() && IsAt(b, s) && s.Leaf?
      ensures s in view.lay && b.id == view.lay[s] && b.Span() == ExtentAt(view, s)
    {
      assert NodeOk(view, mount.sizes.bs, s);
    }

    lemma IndAt(node: IndBlock, s: Pos)
      requires Shape() && IsAt(node, s) && s.Ind?
      ensures s in view.slots && node.block == view.slots[s] && |node.block| == mount.links
      ensures s in view.lay && node.id == view.lay[s] && node.deviceOffset == node.id * mount.sizes.bs
      ensures node in view.nodes.Values
    {
      assert NodeOk(view, mount.sizes.bs, s);
    }

    lemma BindAt(node: BindBlock, s: Pos)
      requires Shape() && IsAt(node, s) && s.Bind?
      ensures s in view.slots && node.indblock == view.slots[s] && |node.indblock| == mount.links
      ensures s in view.lay && node.id == view.lay[s] && node.deviceOffset == node.id * mount.sizes.bs
      ensures node in view.nodes.Values
    {
      assert NodeOk(view, mount.sizes.bs, s);
    }

    lemma TindAt(node: TindBlock, s: Pos)
      requires Shape() && IsAt(node, s) && s.Tind?
      ensures s in view.slots && node.bindblock == view.slots[s] && |node.bindblock| == mount.links
      ensures s in view.lay && node.id == view.lay[s] && node.deviceOffset == node.id * mount.sizes.bs
      ensures node in view.nodes.Values
    {
      assert NodeOk(view, mount.sizes.bs, s);
    }

    method SetLeafSlot(node: IndBlock, i: nat, b: Block, ghost s: Pos, ghost c: Pos) returns (ghost w: View)
      requires Shape() && IsAt(node, s) && s.Ind? && i < mount.links && c == Child(mount.links, s, i)
      requires i < |node.block| && node.block[i] == null && Unused(b)
      modifies node`block
      ensures node.block == old(node.block)[i := b]
      ensures Linked(mount.links, w) && AllHold(w, mount.sizes.bs) && w.roots == view.roots
      ensures Added(mount.links, view, w, c, b, b.id, b.Span())
    {
      IndAt(node, s);
      node.block := node.block[i := b];
      forall t | t in view.nodes && t != s
        ensures NodeOk(view, mount.sizes.bs, t)
      {
        assert old(NodeOk(view, mount.sizes.bs, t)) && !SameNode(view.nodes, s, t);
      }
      w := ViewHooked(mount.links, view, mount.sizes.bs, s, i, c, b, b.id, b.Span());
    }

    /** Slot i of an indirect block as the link point of a data block. */
    method HookLeaf(node: IndBlock, i: nat, b: Block, ghost s: Pos, ghost c: Pos)
      requires Shape() && IsAt(node, s) && s.Ind? && i < mount.links && c == Child(mount.links, s, i)
      requires i < |node.block| && node.block[i] == null && Unused(b)
      modifies node`block, `view
      ensures Shape() && Added(mount.links, old(view), view, c, b, b.id, b.Span())
    {
      ghost var w := SetLeafSlot(node, i, b, s, c);
      SetView(w);
    }

    /** An index block as it is before anything is hooked into it. */
    ghost predicate Blank(o: object, s: Pos, id: nat)
      reads o
    {
      !s.Leaf? && Holds(s, o, id, mount.sizes.bs, seq(mount.links, _ => null), Extent(0, 0, 0))
    }

    method SetIndSlot(node: BindBlock, j: nat, ind: IndBlock, ghost s: Pos, ghost c: Pos, ghost id: nat)
      returns (ghost w: View)
      requires Shape() && IsAt(node, s) && s.Bind? && j < mount.links && c == Child(mount.links, s, j)
      requires j < |node.indblock| && node.indblock[j] == null && Unused(ind) && Blank(ind, c, id)
      modifies node`indblock
      ensures node.indblock == old(node.indblock)[j := ind]
      ensures Linked(mount.links, w) && AllHold(w, mount.sizes.bs) && w.roots == view.roots
      ensures Added(mount.links, view, w, c, ind, id, Extent(0, 0, 0))
    {
      BindAt(node, s);
      node.indblock := node.indblock[j := ind];
      forall t | t in view.nodes && t != s
        ensures NodeOk(view, mount.sizes.bs, t)
      {
        assert old(NodeOk(view, mount.sizes.bs, t)) && !SameNode(view.nodes, s, t);
      }
      w := ViewHooked(mount.links, view, mount.sizes.bs, s, j, c, ind, id, Extent(0, 0, 0));
    }

    /** Slot j of a bi-indirect block as the link point of an indirect block. */
    method HookInd(node: BindBlock, j: nat, ind: IndBlock, ghost s: Pos, ghost c: Pos, ghost id: nat)
      requires Shape() && IsAt(node, s) && s.Bind? && j < mount.links && c == Child(mount.links, s, j)
      requires j < |node.indblock| && node.indblock[j] == null && Unused(ind) && Blank(ind, c, id)
      modifies node`indblock, `view
      ensures Shape() && Added(mount.links, old(view), view, c, ind, id, Extent(0, 0, 0))
    {
      ghost var w := SetIndSlot(node, j, ind, s, c, id);
      SetView(w);
    }

    method SetBindSlot(node: TindBlock, j: nat, bind: BindBlock, ghost s: Pos, ghost c: Pos, ghost id: nat)
      returns (ghost w: View)
      requires Shape() && IsAt(node, s) && s.Tind? && j < mount.links && c == Child(mount.links, s, j)
      requires j < |node.bindblock| && node.bindblock[j] == null && Unused(bind) && Blank(bind, c, id)
      modifies node`bindblock
      ensures node.bindblock == old(node.bindblock)[j := bind]
      ensures Linked(mount.links, w) && AllHold(w, mount.sizes.bs) && w.roots == view.roots
      ensures Added(mount.links, view, w, c, bind, id, Extent(0, 0, 0))
    {
      TindAt(node, s);
      node.bindblock := node.bindblock[j := bind];
      forall t | t in view.nodes && t != s
        ensures NodeOk(view, mount.sizes.bs, t)
      {
        assert old(NodeOk(view, mount.sizes.bs, t)) && !SameNode(view.nodes, s, t);
      }
      w := ViewHooked(mount.links, view, mount.sizes.bs, s, j, c, bind, id, Extent(0, 0, 0));
    }

    /** Slot j of a tri-indirect block as the link point of a bi-indirect block. */
    method HookBind(node: TindBlock, j: nat, bind: BindBlock, ghost s: Pos, ghost c: Pos, ghost id: nat)
      requires Shape() && IsAt(node, s) && s.Tind? && j < mount.links && c == Child(mount.links, s, j)
      requires j < |node.bindblock| && node.bindblock[j] == null && Unused(bind) && Blank(bind, c, id)
      modifies node`bindblock, `view
      ensures Shape() && Added(mount.links, old(view), view, c, bind, id, Extent(0, 0, 0))
    {
      ghost var w := SetBindSlot(node, j, bind, s, c, id);
      SetView(w);
    }

    // The seven link points in the inode itself.

    method SetDirect(j: nat, b: Block)
      requires |block| == 4 && j < 4
      modifies `block
      ensures block == old(block)[j := b] && Roots() == old(Roots())[j := b]
    {
      block := block[j := b];
    }

    method HookDirect(j: nat, b: Block)
      requires Shape() && j < 4 && block[j] == null && Unused(b)
      modifies `block, `view
      ensures Shape() && Added(mount.links, old(view), view, Leaf(j), b, b.id, b.Span())
    {
      ghost var w := ViewRooted(mount.links, view, mount.sizes.bs, j, Leaf(j), b, b.id, b.Span());
      NotANode(w, mount.sizes.bs, this);
      SetDirect(j, b);
      SetView(w);
    }

    method HookRootInd(ind: IndBlock, ghost id: nat)
      requires Shape() && indBlock == null && Unused(ind) && Blank(ind, Ind(0), id)
      modifies `indBlock, `view
      ensures Shape() && Added(mount.links, old(view), view, Ind(0), ind, id, Extent(0, 0, 0)) && indBlock == ind
    {
      ghost var w := ViewRooted(mount.links, view, mount.sizes.bs, 4, Ind(0), ind, id, Extent(0, 0, 0));
      NotANode(w, mount.sizes.bs, this);
      indBlock := ind;
      SetView(w);
    }

    method HookRootBind(bind: BindBlock, ghost id: nat)
      requires Shape() && bindBlock == null && Unused(bind) && Blank(bind, Bind(0), id)
      modifies `bindBlock, `view
      ensures Shape() && Added(mount.links, old(view), view, Bind(0), bind, id, Extent(0, 0, 0)) && bindBlock == bind
    {
      ghost var w := ViewRooted(mount.links, view, mount.sizes.bs, 5, Bind(0), bind, id, Extent(0, 0, 0));
      NotANode(w, mount.sizes.bs, this);
      bindBlock := bind;
      SetView(w);
    }

    method HookRootTind(tind: TindBlock, ghost id: nat)
      requires Shape() && tindBlock == null && Unused(tind) && Blank(tind, Tind, id)
      modifies `tindBlock, `view
      ensures Shape() && Added(mount.links, old(view), view, Tind, tind, id, Extent(0, 0, 0)) && tindBlock == tind
    {
      ghost var w := ViewRooted(mount.links, view, mount.sizes.bs, 6, Tind, tind, id, Extent(0, 0, 0));
      NotANode(w, mount.sizes.bs, this);
      tindBlock := tind;
      SetView(w);
    }

    /** The link point o leads to the node at s: null exactly when nothing is there. */
    ghost predicate LeadsTo(o: object?, s: Pos)
      reads `view
    {
      if o == null then s !in view.lay else IsAt(o, s) && s in view.lay
    }

    lemma RootLeads(j: nat)
      requires Shape() && j < 7
      ensures LeadsTo(view.roots[j], Root(j))
    {}

    lemma IndLeads(node: IndBlock, m: nat, i: nat)
      requires Shape() && IsAt(node, Ind(m)) && i < mount.links
      ensures |node.block| == mount.links && LeadsTo(node.block[i], Leaf(LeafPos(mount.links, m, i)))
    {
      IndAt(node, Ind(m));
      SlotMeans(mount.links, view, Ind(m), i);
    }

    lemma BindLeads(node: BindBlock, b: nat, j: nat)
      requires Shape() && IsAt(node, Bind(b)) && j < mount.links
      ensures |node.indblock| == mount.links && LeadsTo(node.indblock[j], Ind(IndPos(mount.links, b, j)))
    {
      BindAt(node, Bind(b));
      SlotMeans(mount.links, view, Bind(b), j);
    }

    lemma TindLeads(node: TindBlock, i: nat)
      requires Shape() && IsAt(node, Tind) && i < mount.links
      ensures |node.bindblock| == mount.links && LeadsTo(node.bindblock[i], Bind(1 + i))
    {
      TindAt(node, Tind);
      SlotMeans(mount.links, view, Tind, i);
    }

    // ----- growing the tree -----

    ghost predicate HasLeaves(n: nat)
      reads `view
    {
      LeavesBelow(view.lay, n)
    }

    /** A new index block leaves the leaves alone. */
    lemma StillHasLeaves(lay: Layout, was: Alloc, now: Alloc, c: Pos, n: nat)
      requires LeavesBelow(lay, n) && Growth(view.lay, now) == Add(Growth(lay, was), c) && !c.Leaf?
      ensures HasLeaves(n)
    {}

    /** udbfslib_allocate_bit on the block bitmap does not disturb the tree. */
    method TakeBlockId() returns (id: nat)
      requires Shape()
      modifies mount`freeBlockCount, mount.blockBitmap
      ensures Shape()
      ensures Taken(id, mount.Blocks()) == Take(old(mount.Blocks()))
    {
      NotANode(view, mount.sizes.bs, mount);
      NotANode(view, mount.sizes.bs, mount.blockBitmap);
      id := mount.AllocateBlockId();
    }

    /** An indirect block with an id of its own, for position s. */
    method NewIndBlock(ghost s: Pos) returns (ind: IndBlock)
      requires Shape() && s.Ind?
      modifies mount`freeBlockCount, mount.blockBitmap
      ensures Shape() && fresh(ind) && Blank(ind, s, ind.id)
      ensures Taken(ind.id, mount.Blocks()) == Take(old(mount.Blocks()))
    {
      var id := TakeBlockId();
      ind := new IndBlock(mount.links, id, id * mount.sizes.bs);
    }

    method NewBindBlock(ghost s: Pos) returns (bind: BindBlock)
      requires Shape() && s.Bind?
      modifies mount`freeBlockCount, mount.blockBitmap
      ensures Shape() && fresh(bind) && Blank(bind, s, bind.id)
      ensures Taken(bind.id, mount.Blocks()) == Take(old(mount.Blocks()))
    {
      var id := TakeBlockId();
      bind := new BindBlock(mount.links, id, id * mount.sizes.bs);
    }

    method NewTindBlock() returns (tind: TindBlock)
      requires Shape()
      modifies mount`freeBlockCount, mount.blockBitmap
      ensures Shape() && fresh(tind) && Blank(tind, Tind, tind.id)
      ensures Taken(tind.id, mount.Blocks()) == Take(old(mount.Blocks()))
    {
      var id := TakeBlockId();
      tind := new TindBlock(mount.links, id, id * mount.sizes.bs);
    }

    /** A data block for slot i of indirect block m, not yet numbered. */
    method AddLeaf(node: IndBlock, offset: nat, i: nat, ghost m: nat, ghost n: nat) returns (b: Block)
      requires Shape() && IsAt(node, Ind(m)) && i < mount.links && LeafPos(mount.links, m, i) == n
      requires i < |node.block| && node.block[i] == null
      requires offset == Mul(n, mount.sizes.bs)
      modifies node`block, `view
      ensures Shape() && fresh(b)
      ensures fresh(view.nodes.Values - old(view.nodes.Values))
      ensures Added(mount.links, old(view), view, Leaf(n), b, 0, Extent(Mul(n, mount.sizes.bs), 0, 0))
    {
      b := new Block();
      b.offsetStart := offset;
      HookLeaf(node, i, b, Ind(m), Leaf(n));
    }

    /** The tree has grown by leaf n, which b is, and by the missing index blocks of path. */
    ghost predicate Grown(v: View, was: Alloc, now: Alloc, n: nat, b: Block, path: seq<Pos>)
      reads `view
    {
      GrownBy(v, view, was, now, n, b, Mul(n, mount.sizes.bs), path)
    }

    /** udbfslib_extend_indblock: fills the first empty slot of indirect block m. With n leaves in the
        file, at least up to this block, that is the slot of leaf n. */
    method ExtendIndBlock(node: IndBlock, modifierOffset: nat, ghost m: nat, ghost n: nat) returns (b: Block?)
      requires Shape() && HasLeaves(n) && IsAt(node, Ind(m))
      requires LeafPos(mount.links, m, 0) <= n
      requires modifierOffset == Mul(LeafPos(mount.links, m, 0), mount.sizes.bs)
      modifies node`block, `view
      ensures Shape()
      ensures fresh(view.nodes.Values - old(view.nodes.Values))
      ensures b != null <==> n < LeafPos(mount.links, m, mount.links)
      ensures b == null ==> view == old(view)
      ensures b != null ==> fresh(b) && Grown(old(view), mount.Blocks(), mount.Blocks(), n, b, [])
    {
      var i := 0;
      while i < mount.links
        invariant 0 <= i <= mount.links
        invariant LeafPos(mount.links, m, i) <= n
        invariant view == old(view) && Shape() && IsAt(node, Ind(m))
      {
        IndLeads(node, m, i);
        if node.block[i] == null {
          LeafOffset(m, i);
          b := AddLeaf(node, modifierOffset + i * mount.sizes.bs, i, m, n);
          GrownLeaf(mount.links, old(view), view, mount.Blocks(), n, b, Mul(n, mount.sizes.bs));
          return b;
        }
        i := i + 1;
      }
      return null;
    }

    lemma LeafOffset(m: nat, i: nat)
      ensures Mul(LeafPos(mount.links, m, i), mount.sizes.bs) ==
              Mul(LeafPos(mount.links, m, 0), mount.sizes.bs) + i * mount.sizes.bs
    {
      MulIs(i, mount.sizes.bs);
      MulPlus(LeafPos(mount.links, m, 0), i, mount.sizes.bs);
    }

    /** Without its indirect block a leaf cannot be there. */
    lemma MissingIndStartsAt(m: nat, n: nat)
      requires Shape() && HasLeaves(n) && Ind(m) !in view.lay && LeafPos(mount.links, m, 0) <= n
      ensures n == LeafPos(mount.links, m, 0)
    {
      var first := Leaf(LeafPos(mount.links, m, 0));
      LeafPosInverse(mount.links, m, 0);
      assert !IsRoot(first) && Parent(mount.links, first) == Ind(m);
      assert first !in view.lay;
    }

    /** The indirect block in slot j of bi-indirect block b, allocated if the slot is empty. */
    method EnsureInd(node: BindBlock, j: nat, ghost b: nat, ghost m: nat) returns (ind: IndBlock)
      requires Shape() && IsAt(node, Bind(b)) && j < mount.links && m == IndPos(mount.links, b, j)
      modifies node`indblock, `view, mount`freeBlockCount, mount.blockBitmap
      ensures Shape() && IsAt(ind, Ind(m))
      ensures Growth(view.lay, mount.Blocks()) == Add(Growth(old(view.lay), old(mount.Blocks())), Ind(m))
      ensures Kept(old(view), view)
      ensures fresh(view.nodes.Values - old(view.nodes.Values))
      ensures Ind(m) in old(view.lay) ==> view == old(view) && mount.Blocks() == old(mount.Blocks())
    {
      BindLeads(node, b, j);
      if node.indblock[j] == null {
        var newInd := NewIndBlock(Ind(m));
        HookInd(node, j, newInd, Bind(b), Ind(m), newInd.id);
        AddedIndex(mount.links, old(view), view, Ind(m), newInd, newInd.id, Extent(0, 0, 0));
        return newInd;
      } else {
        return node.indblock[j];
      }
    }

    /** One turn of udbfslib_extend_bindblock's loop: slot j. u and mid are the states between the
        allocation of the indirect block and the growth under it. */
    method ExtendIndSlot(node: BindBlock, modifier: nat, j: nat, ghost b: nat, ghost m: nat, ghost n: nat)
      returns (blk: Block?, ghost u: View, ghost mid: Alloc)
      requires Shape() && HasLeaves(n) && IsAt(node, Bind(b)) && j < mount.links && m == IndPos(mount.links, b, j)
      requires LeafPos(mount.links, m, 0) <= n
      requires Ind(m) !in view.lay ==> n < LeafPos(mount.links, m, mount.links)
      requires modifier == Mul(LeafPos(mount.links, m, 0), mount.sizes.bs)
      modifies view.nodes.Values, `view, mount`freeBlockCount, mount.blockBitmap
      ensures Shape()
      ensures fresh(view.nodes.Values - old(view.nodes.Values))
      ensures blk != null <==> n < LeafPos(mount.links, m, mount.links)
      ensures blk == null ==> view == old(view) && mount.Blocks() == old(mount.Blocks())
      ensures Growth(u.lay, mid) == Add(Growth(old(view.lay), old(mount.Blocks())), Ind(m)) && Kept(old(view), u)
      ensures blk != null ==> fresh(blk) && Grown(u, mid, mount.Blocks(), n, blk, [])
    {
      hide LeavesBelow, Linked, AllHold, GrownBy, Kept, Add;
      var ind := EnsureInd(node, j, b, m);
      u, mid := view, mount.Blocks();
      StillHasLeaves(old(view.lay), old(mount.Blocks()), mid, Ind(m), n);
      IndAt(ind, Ind(m));
      blk := ExtendIndBlock(ind, modifier, m, n);
    }

    /** udbfslib_extend_bindblock: the first indirect block with room takes leaf n; a missing one is
        allocated on the way. */
    method ExtendBindBlock(node: BindBlock, modifierOffset: nat, ghost b: nat, ghost n: nat)
      returns (blk: Block?, ghost m: nat)
      requires mount.Sane() && Shape() && HasLeaves(n) && IsAt(node, Bind(b))
      requires BindStart(mount.links, b) <= n
      requires modifierOffset == Mul(BindStart(mount.links, b), mount.sizes.bs)
      modifies view.nodes.Values, `view, mount`freeBlockCount, mount.blockBitmap
      ensures Shape()
      ensures fresh(view.nodes.Values - old(view.nodes.Values))
      ensures blk == null ==>
        BindStart(mount.links, b + 1) <= n && view == old(view) && mount.Blocks() == old(mount.Blocks())
      ensures blk != null ==> LeafUnder(mount.links, m, n) && IndUnder(mount.links, b, m)
      ensures blk != null ==>
        fresh(blk) && Grown(old(view), old(mount.Blocks()), mount.Blocks(), n, blk, [Ind(m)])
    {
      hide LeavesBelow, Linked, AllHold, GrownBy, Kept, Add, Mul, BindStart;
      BindStartIsFirst(mount.links, b);
      BindStartIsFirst(mount.links, b + 1);
      var modifier := modifierOffset;
      var j := 0;
      m := 0;
      while j < mount.links
        invariant 0 <= j <= mount.links
        invariant LeafPos(mount.links, IndPos(mount.links, b, j), 0) <= n
        invariant j == mount.links ==> BindStart(mount.links, b + 1) <= n
        invariant modifier == Mul(LeafPos(mount.links, IndPos(mount.links, b, j), 0), mount.sizes.bs)
        invariant view == old(view) && Shape() && IsAt(node, Bind(b))
        invariant mount.Blocks() == old(mount.Blocks())
      {
        m := IndPos(mount.links, b, j);
        NextIndOf(mount.links, b, j);
        NextInd(mount.links, mount.sizes.bs, m);
        if Ind(m) !in view.lay {
          MissingIndStartsAt(m, n);
        }
        ghost var u, mid;
        blk, u, mid := ExtendIndSlot(node, modifier, j, b, m, n);
        if blk != null {
          IndUnderSlot(mount.links, b, j);
          LeafUnderSlot(mount.links, m, n);
          GrownUnder(old(view), u, old(mount.Blocks()), mid, Ind(m), n, blk);
          return;
        }
        modifier := modifier + mount.sizes.ind;
        j := j + 1;
      }
      blk := null;
    }

    lemma GrownUnder(v: View, u: View, was: Alloc, mid: Alloc, c: Pos, n: nat, blk: Block)
      requires Growth(u.lay, mid) == Add(Growth(v.lay, was), c) && Kept(v, u)
      requires Grown(u, mid, mount.Blocks(), n, blk, [])
      ensures Grown(v, was, mount.Blocks(), n, blk, [c])
    {
      assert [c][1..] == [];
      GrownAfterAdd(v, u, view, was, mid, mount.Blocks(), c, n, blk, Mul(n, mount.sizes.bs), [c]);
    }

    /** Without its bi-indirect block a leaf cannot be there. */
    lemma MissingBindStartsAt(b: nat, n: nat)
      requires Shape() && HasLeaves(n) && Bind(b) !in view.lay && BindStart(mount.links, b) <= n
      ensures n == BindStart(mount.links, b)
    {
      BindStartIs(mount.links, b);
      var m := IndPos(mount.links, b, 0);
      IndPosInverse(mount.links, b, 0);
      assert Parent(mount.links, Ind(m)) == Bind(b);
      MissingIndStartsAt(m, n);
    }

    /** The bi-indirect block in slot i of the tri-indirect block, allocated if the slot is empty. */
    method EnsureBind(node: TindBlock, i: nat) returns (bind: BindBlock)
      requires Shape() && IsAt(node, Tind) && i < mount.links
      modifies node`bindblock, `view, mount`freeBlockCount, mount.blockBitmap
      ensures Shape() && IsAt(bind, Bind(1 + i))
      ensures Growth(view.lay, mount.Blocks()) == Add(Growth(old(view.lay), old(mount.Blocks())), Bind(1 + i))
      ensures Kept(old(view), view)
      ensures fresh(view.nodes.Values - old(view.nodes.Values))
      ensures Bind(1 + i) in old(view.lay) ==> view == old(view) && mount.Blocks() == old(mount.Blocks())
    {
      TindLeads(node, i);
      if node.bindblock[i] == null {
        var newBind := NewBindBlock(Bind(1 + i));
        HookBind(node, i, newBind, Tind, Bind(1 + i), newBind.id);
        AddedIndex(mount.links, old(view), view, Bind(1 + i), newBind, newBind.id, Extent(0, 0, 0));
        return newBind;
      } else {
        return node.bindblock[i];
      }
    }

    /** Leaf n, which blk is, hangs under indirect block m and bi-indirect block c, allocated on the way. */
    ghost predicate PlacedUnder(v: View, was: Alloc, n: nat, blk: Block, c: nat, m: nat)
      reads `view, mount`freeBlockCount, mount.blockBitmap
    {
      && LeafUnder(mount.links, m, n) && IndUnder(mount.links, c, m)
      && Grown(v, was, mount.Blocks(), n, blk, [Bind(c)] + [Ind(m)])
    }

    /** One turn of udbfslib_extend_tindblock's loop: slot i. */
    method ExtendBindSlot(node: TindBlock, modifier: nat, i: nat, ghost n: nat) returns (blk: Block?, ghost m: nat)
      requires mount.Sane() && Shape() && HasLeaves(n) && IsAt(node, Tind) && i < mount.links
      requires BindStart(mount.links, 1 + i) <= n
      requires Bind(1 + i) !in view.lay ==> n < BindStart(mount.links, 2 + i)
      requires modifier == Mul(BindStart(mount.links, 1 + i), mount.sizes.bs)
      modifies view.nodes.Values, `view, mount`freeBlockCount, mount.blockBitmap
      ensures Shape()
      ensures fresh(view.nodes.Values - old(view.nodes.Values))
      ensures blk == null ==>
        BindStart(mount.links, 2 + i) <= n && view == old(view) && mount.Blocks() == old(mount.Blocks())
      ensures blk != null ==> fresh(blk) && PlacedUnder(old(view), old(mount.Blocks()), n, blk, 1 + i, m)
    {
      hide LeavesBelow, Linked, AllHold, GrownBy, Kept, Add, Mul, BindStart;
      var bind := EnsureBind(node, i);
      ghost var u, mid := view, mount.Blocks();
      StillHasLeaves(old(view.lay), old(mount.Blocks()), mid, Bind(1 + i), n);
      BindAt(bind, Bind(1 + i));
      blk, m := ExtendBindBlock(bind, modifier, 1 + i, n);
      if blk != null {
        GrownUnderPath(old(view), u, old(mount.Blocks()), mid, Bind(1 + i), n, blk, [Ind(m)]);
      }
    }

    lemma NextBindHere(i: nat, n: nat, modifier: nat)
      requires mount.Sane() && Shape() && HasLeaves(n) && BindStart(mount.links, 1 + i) <= n
      requires modifier == Mul(BindStart(mount.links, 1 + i), mount.sizes.bs)
      ensures Bind(1 + i) !in view.lay ==> n < BindStart(mount.links, 2 + i)
      ensures modifier + mount.sizes.bind == Mul(BindStart(mount.links, 1 + (i + 1)), mount.sizes.bs)
    {
      NextBind(mount.links, mount.sizes.bs, mount.sizes.ind, mount.sizes.bind, 1 + i);
      if Bind(1 + i) !in view.lay {
        MissingBindStartsAt(1 + i, n);
      }
    }

    /** udbfslib_extend_tindblock: the first bi-indirect block with room, c, takes leaf n. */
    method ExtendTindBlock(node: TindBlock, modifierOffset: nat, ghost n: nat)
      returns (blk: Block?, ghost c: nat, ghost m: nat)
      requires mount.Sane() && Shape() && HasLeaves(n) && IsAt(node, Tind)
      requires BindStart(mount.links, 1) <= n
      requires modifierOffset == Mul(BindStart(mount.links, 1), mount.sizes.bs)
      modifies view.nodes.Values, `view, mount`freeBlockCount, mount.blockBitmap
      ensures Shape()
      ensures fresh(view.nodes.Values - old(view.nodes.Values))
      ensures blk == null ==>
        BindStart(mount.links, mount.links + 1) <= n && view == old(view) && mount.Blocks() == old(mount.Blocks())
      ensures blk != null ==> c >= 1
      ensures blk != null ==> fresh(blk) && PlacedUnder(old(view), old(mount.Blocks()), n, blk, c, m)
    {
      hide LeavesBelow, Linked, AllHold, GrownBy, Kept, Add, Mul, BindStart;
      var modifier := modifierOffset;
      var i := 0;
      while i < mount.links
        invariant 0 <= i <= mount.links
        invariant BindStart(mount.links, 1 + i) <= n
        invariant modifier == Mul(BindStart(mount.links, 1 + i), mount.sizes.bs)
        invariant view == old(view) && Shape() && IsAt(node, Tind)
        invariant mount.Blocks() == old(mount.Blocks())
      {
        NextBindHere(i, n, modifier);
        blk, m := ExtendBindSlot(node, modifier, i, n);
        if blk != null {
          c := 1 + i;
          return;
        }
        modifier := modifier + mount.sizes.bind;
        i := i + 1;
      }
      blk, c, m := null, 0, 0;
    }

    // ----- the inode's own link points -----

    /** A data block for one of the direct slots. */
    method ExtendDirect(j: nat) returns (b: Block)
      requires Shape() && j < 4 && block[j] == null
      modifies `block, `view
      ensures Shape() && fresh(b)
      ensures fresh(view.nodes.Values - old(view.nodes.Values))
      ensures GrownBy(old(view), view, mount.Blocks(), mount.Blocks(), j, b, Mul(j, mount.sizes.bs), [])
    {
      b := new Block();
      MulIs(j, mount.sizes.bs);
      b.offsetStart := j * mount.sizes.bs;
      HookDirect(j, b);
      GrownLeaf(mount.links, old(view), view, mount.Blocks(), j, b, Mul(j, mount.sizes.bs));
    }

    method EnsureRootInd()
      requires Shape()
      modifies `indBlock, `view, mount`freeBlockCount, mount.blockBitmap
      ensures Shape() && indBlock != null && IsAt(indBlock, Ind(0))
      ensures Growth(view.lay, mount.Blocks()) == Add(Growth(old(view.lay), old(mount.Blocks())), Ind(0))
      ensures Kept(old(view), view)
      ensures fresh(view.nodes.Values - old(view.nodes.Values))
      ensures Ind(0) in old(view.lay) ==> view == old(view) && mount.Blocks() == old(mount.Blocks())
    {
      RootLeads(4);
      if indBlock == null {
        var x := NewIndBlock(Ind(0));
        HookRootInd(x, x.id);
        AddedIndex(mount.links, old(view), view, Ind(0), x, x.id, Extent(0, 0, 0));
      }
    }

    method EnsureRootBind()
      requires Shape()
      modifies `bindBlock, `view, mount`freeBlockCount, mount.blockBitmap
      ensures Shape() && bindBlock != null && IsAt(bindBlock, Bind(0))
      ensures Growth(view.lay, mount.Blocks()) == Add(Growth(old(view.lay), old(mount.Blocks())), Bind(0))
      ensures Kept(old(view), view)
      ensures fresh(view.nodes.Values - old(view.nodes.Values))
      ensures Bind(0) in old(view.lay) ==> view == old(view) && mount.Blocks() == old(mount.Blocks())
    {
      RootLeads(5);
      if bindBlock == null {
        var x := NewBindBlock(Bind(0));
        HookRootBind(x, x.id);
        AddedIndex(mount.links, old(view), view, Bind(0), x, x.id, Extent(0, 0, 0));
      }
    }

    method EnsureRootTind()
      requires Shape()
      modifies `tindBlock, `view, mount`freeBlockCount, mount.blockBitmap
      ensures Shape() && tindBlock != null && IsAt(tindBlock, Tind)
      ensures Growth(view.lay, mount.Blocks()) == Add(Growth(old(view.lay), old(mount.Blocks())), Tind)
      ensures Kept(old(view), view)
      ensures fresh(view.nodes.Values - old(view.nodes.Values))
      ensures Tind in old(view.lay) ==> view == old(view) && mount.Blocks() == old(mount.Blocks())
    {
      RootLeads(6);
      if tindBlock == null {
        var x := NewTindBlock();
        HookRootTind(x, x.id);
        AddedIndex(mount.links, old(view), view, Tind, x, x.id, Extent(0, 0, 0));
      }
    }

    // ----- udbfslib_extend_inode -----

    /** The four direct slots. */
    method TryDirect(ghost n: nat) returns (b: Block?)
      requires Shape() && HasLeaves(n)
      modifies `block, `view
      ensures Shape()
      ensures fresh(view.nodes.Values - old(view.nodes.Values))
      ensures b != null <==> n < 4
      ensures b == null ==> view == old(view)
      ensures b != null ==> fresh(b) && Grown(old(view), mount.Blocks(), mount.Blocks(), n, b, [])
    {
      RootLeads(0);
      RootLeads(1);
      RootLeads(2);
      RootLeads(3);
      if block[0] == null {
        b := ExtendDirect(0);
      } else if block[1] == null {
        b := ExtendDirect(1);
      } else if block[2] == null {
        b := ExtendDirect(2);
      } else if block[3] == null {
        b := ExtendDirect(3);
      } else {
        b := null;
      }
    }

    /** The indirect block, allocated when it is missing. */
    method TryInd(ghost n: nat) returns (b: Block?)
      requires mount.Sane() && Shape() && HasLeaves(n) && n >= 4
      requires Ind(0) in view.lay || n < BindStart(mount.links, 0)
      modifies `indBlock, view.nodes.Values, `view, mount`freeBlockCount, mount.blockBitmap
      ensures Shape()
      ensures fresh(view.nodes.Values - old(view.nodes.Values))
      ensures b != null <==> n < BindStart(mount.links, 0)
      ensures b == null ==> view == old(view) && mount.Blocks() == old(mount.Blocks())
      ensures b != null ==> fresh(b) && Grown(old(view), old(mount.Blocks()), mount.Blocks(), n, b, [Ind(0)])
    {
      hide LeavesBelow, Linked, AllHold, GrownBy, Kept, Add;
      EnsureRootInd();
      ghost var u, mid := view, mount.Blocks();
      StillHasLeaves(old(view.lay), old(mount.Blocks()), mid, Ind(0), n);
      IndAt(indBlock, Ind(0));
      MulIs(4, mount.sizes.bs);
      b := ExtendIndBlock(indBlock, mount.sizes.dir, 0, n);
      if b != null {
        GrownUnder(old(view), u, old(mount.Blocks()), mid, Ind(0), n, b);
      }
    }

    /** The bi-indirect block, allocated when it is missing. */
    method TryBind(ghost n: nat) returns (b: Block?, ghost m: nat)
      requires mount.Sane() && Shape() && HasLeaves(n)
      requires Bind(0) in view.lay || n < BindStart(mount.links, 1)
      requires BindStart(mount.links, 0) <= n
      modifies `bindBlock, view.nodes.Values, `view, mount`freeBlockCount, mount.blockBitmap
      ensures Shape()
      ensures fresh(view.nodes.Values - old(view.nodes.Values))
      ensures b == null ==> BindStart(mount.links, 1) <= n && view == old(view) && mount.Blocks() == old(mount.Blocks())
      ensures b != null ==> LeafUnder(mount.links, m, n) && IndUnder(mount.links, 0, m)
      ensures b != null ==>
        fresh(b) && Grown(old(view), old(mount.Blocks()), mount.Blocks(), n, b, [Bind(0)] + [Ind(m)])
    {
      hide LeavesBelow, Linked, AllHold, GrownBy, Kept, Add, Mul, BindStart;
      EnsureRootBind();
      ghost var u, mid := view, mount.Blocks();
      StillHasLeaves(old(view.lay), old(mount.Blocks()), mid, Bind(0), n);
      BindAt(bindBlock, Bind(0));
      DirAndInd();
      b, m := ExtendBindBlock(bindBlock, mount.sizes.dir + mount.sizes.ind, 0, n);
      if b != null {
        GrownUnderPath(old(view), u, old(mount.Blocks()), mid, Bind(0), n, b, [Ind(m)]);
      }
    }

    lemma GrownUnderPath(v: View, u: View, was: Alloc, mid: Alloc, c: Pos, n: nat, blk: Block, path: seq<Pos>)
      requires Growth(u.lay, mid) == Add(Growth(v.lay, was), c) && Kept(v, u)
      requires Grown(u, mid, mount.Blocks(), n, blk, path)
      ensures Grown(v, was, mount.Blocks(), n, blk, [c] + path)
    {
      assert ([c] + path)[1..] == path;
      GrownAfterAdd(v, u, view, was, mid, mount.Blocks(), c, n, blk, Mul(n, mount.sizes.bs), [c] + path);
    }

    lemma DirAndInd()
      requires mount.Sane()
      ensures mount.sizes.dir + mount.sizes.ind == Mul(BindStart(mount.links, 0), mount.sizes.bs)
      ensures mount.sizes.dir + mount.sizes.ind + mount.sizes.bind == Mul(BindStart(mount.links, 1), mount.sizes.bs)
    {
      BindStartIs(mount.links, 0);
      MulIs(4, mount.sizes.bs);
      MulPlus(4, mount.links, mount.sizes.bs);
      NextBind(mount.links, mount.sizes.bs, mount.sizes.ind, mount.sizes.bind, 0);
    }

    /** The tri-indirect block, allocated when it is missing. */
    method TryTind(ghost n: nat) returns (b: Block?, ghost c: nat, ghost m: nat)
      requires mount.Sane() && Shape() && HasLeaves(n)
      requires Tind in view.lay || n < BindStart(mount.links, mount.links + 1)
      requires BindStart(mount.links, 1) <= n
      modifies `tindBlock, view.nodes.Values, `view, mount`freeBlockCount, mount.blockBitmap
      ensures Shape()
      ensures fresh(view.nodes.Values - old(view.nodes.Values))
      ensures b == null ==>
        BindStart(mount.links, mount.links + 1) <= n && view == old(view) && mount.Blocks() == old(mount.Blocks())
      ensures b != null ==> c >= 1
      ensures b != null ==> LeafUnder(mount.links, m, n) && IndUnder(mount.links, c, m)
      ensures b != null ==>
        fresh(b) && Grown(old(view), old(mount.Blocks()), mount.Blocks(), n, b, [Tind] + ([Bind(c)] + [Ind(m)]))
    {
      hide LeavesBelow, Linked, AllHold, GrownBy, Kept, Add, Mul, BindStart;
      EnsureRootTind();
      ghost var u, mid := view, mount.Blocks();
      StillHasLeaves(old(view.lay), old(mount.Blocks()), mid, Tind, n);
      TindAt(tindBlock, Tind);
      DirAndInd();
      b, c, m := ExtendTindBlock(tindBlock, mount.sizes.dir + mount.sizes.ind + mount.sizes.bind, n);
      if b != null {
        GrownUnderPath(old(view), u, old(mount.Blocks()), mid, Tind, n, b, [Bind(c)] + [Ind(m)]);
      }
    }

    /** An index block at the top is there as soon as a leaf lies past its first one. */
    ghost predicate TopsPresent(n: nat)
      reads `view
    {
      && (Ind(0) in view.lay || n < BindStart(mount.links, 0))
      && (Bind(0) in view.lay || n < BindStart(mount.links, 1))
      && (Tind in view.lay || n < BindStart(mount.links, mount.links + 1))
    }

    lemma DenseTops(n: nat)
      requires Dense(mount.links, view.lay, n)
      ensures TopsPresent(n)
    {
      BindStartIsFirst(mount.links, 0);
      BindStartIsFirst(mount.links, 1);
      BindStartMono(mount.links, 0, 1);
      BindStartMono(mount.links, 1, mount.links + 1);
      assert FirstLeaf(mount.links, Ind(0)) == 4;
      assert FirstLeaf(mount.links, Tind) == BindStart(mount.links, 1);
      assert BindStart(mount.links, 1) == BindStart(mount.links, 0) + mount.links * mount.links;
      assert BindStart(mount.links, 2) == BindStart(mount.links, 1) + mount.links * mount.links;
      BindStartMono(mount.links, 2, mount.links + 1);
    }

    /** The bi-indirect and then the tri-indirect block. */
    method PlaceDeep(ghost n: nat) returns (b: Block?, ghost c: nat, ghost m: nat)
      requires mount.Sane() && Shape() && HasLeaves(n) && TopsPresent(n) && BindStart(mount.links, 0) <= n
      modifies `bindBlock, `tindBlock, `view, view.nodes.Values
      modifies mount`freeBlockCount, mount.blockBitmap
      ensures Shape()
      ensures fresh(view.nodes.Values - old(view.nodes.Values))
      ensures b == null ==>
        BindStart(mount.links, mount.links + 1) <= n && view == old(view) && mount.Blocks() == old(mount.Blocks())
      ensures b != null ==> LeafUnder(mount.links, m, n) && IndUnder(mount.links, c, m)
      ensures b != null ==>
        fresh(b) && Grown(old(view), old(mount.Blocks()), mount.Blocks(), n, b, Above(c, m))
    {
      hide LeavesBelow, Linked, AllHold, GrownBy, Kept, Add, Mul, BindStart;
      c := 0;
      b, m := TryBind(n);
      if b == null {
        b, c, m := TryTind(n);
      }
    }

    /** The index blocks above indirect block m, which is itself below bi-indirect block c. */
    ghost function Above(c: nat, m: nat): seq<Pos> {
      if c == 0 then [Bind(0)] + [Ind(m)] else [Tind] + ([Bind(c)] + [Ind(m)])
    }

    /** The part of udbfslib_extend_inode that looks for the first place without a leaf. */
    method PlaceLeaf(ghost n: nat) returns (b: Block?)
      requires mount.Sane() && Shape() && HasLeaves(n) && TopsPresent(n)
      modifies `block, `indBlock, `bindBlock, `tindBlock, `view, view.nodes.Values
      modifies mount`freeBlockCount, mount.blockBitmap
      ensures Shape()
      ensures fresh(view.nodes.Values - old(view.nodes.Values))
      ensures b == null ==>
        BindStart(mount.links, mount.links + 1) <= n && view == old(view) && mount.Blocks() == old(mount.Blocks())
      ensures b != null ==>
        fresh(b) && Grown(old(view), old(mount.Blocks()), mount.Blocks(), n, b, Path(mount.links, n))
    {
      hide LeavesBelow, Linked, AllHold, GrownBy, Kept, Add, Mul, BindStart;
      Regions(n);
      b := TryDirect(n);
      if b != null {
        return b;
      }
      b := TryInd(n);
      if b != null {
        return b;
      }
      ghost var c, m;
      b, c, m := PlaceDeep(n);
      if b != null {
        PathUnder(c, m, n);
      }
    }

    lemma Regions(n: nat)
      ensures n >= 4 && IndOf(mount.links, n) != 0 ==> BindStart(mount.links, 0) <= n
      ensures n >= 4 && IndOf(mount.links, n) == 0 ==> n < BindStart(mount.links, 0)
      ensures 4 < BindStart(mount.links, 0) <= BindStart(mount.links, 1)
      ensures BindStart(mount.links, 1) <= BindStart(mount.links, mount.links + 1)
    {
      if n >= 4 {
        UnderFirstInd(mount.links, n);
      }
      BindStartMono(mount.links, 0, 1);
      BindStartMono(mount.links, 1, mount.links + 1);
    }

    lemma PathUnder(c: nat, m: nat, n: nat)
      requires LeafUnder(mount.links, m, n) && IndUnder(mount.links, c, m)
      ensures Path(mount.links, n) == Above(c, m)
    {
      UnderInd(mount.links, m, n);
      UnderBindIs(mount.links, c, m);
    }

    /** The end of udbfslib_extend_inode: the data block gets its id and the rest of its extent. */
    method Finalize(b: Block, blockId: nat, ghost n: nat)
      requires Shape() && IsAt(b, Leaf(n)) && b.offsetStart == Mul(n, mount.sizes.bs)
      modifies b, `view
      ensures Shape()
      ensures fresh(view.nodes.Values - old(view.nodes.Values))
      ensures view == Relabel(old(view), Leaf(n), blockId, ExtentFor(n, blockId, mount.sizes.bs))
      ensures b.id == blockId && b.Span() == ExtentFor(n, blockId, mount.sizes.bs)
    {
      ghost var w := Relabel(view, Leaf(n), blockId, ExtentFor(n, blockId, mount.sizes.bs));
      MulIs(blockId, mount.sizes.bs);
      RelabelLinked(mount.links, view, Leaf(n), blockId, ExtentAt(w, Leaf(n)));
      b.id := blockId;
      b.offsetEnd := b.offsetStart + mount.sizes.bs;
      b.deviceOffset := b.id * mount.sizes.bs;
      forall t | t in w.nodes
        ensures NodeOk(w, mount.sizes.bs, t)
      {
        if t != Leaf(n) {
          assert old(NodeOk(view, mount.sizes.bs, t)) && !SameNode(view.nodes, Leaf(n), t);
        }
      }
      SetView(w);
    }

    lemma LeafBelowCapacity(n: nat)
      requires Shape() && Leaf(n) in view.lay
      ensures n < Capacity(mount.links)
    {
      ClosedBelowCapacity(mount.links, view.lay, n);
    }

    /** udbfslib_extend_inode: leaf n, with the index blocks it needs. The new block has the id taken first,
        and the extent that belongs to its position and its id. */
    method ExtendInode(ghost n: nat) returns (b: Block?)
      requires Valid() && HasLeaves(n) && Dense(mount.links, view.lay, n)
      modifies `block, `indBlock, `bindBlock, `tindBlock, `view, view.nodes.Values
      modifies mount`freeBlockCount, mount.blockBitmap
      ensures Valid()
      ensures fresh(view.nodes.Values - old(view.nodes.Values))
      ensures var e := Extend(mount.links, old(view.lay), old(mount.Blocks()), n);
        && view.lay == e.g.lay && mount.Blocks() == e.g.al
        && (b != null <==> e.Extended?)
        && (b != null ==> IsAt(b, Leaf(n)))
      ensures b != null ==>
        && b.id == Take(old(mount.Blocks())).id
        && b.offsetStart == n * mount.sizes.bs && b.offsetEnd == n * mount.sizes.bs + mount.sizes.bs
        && b.deviceOffset == b.id * mount.sizes.bs
    {
      hide Linked, AllHold, LeavesBelow, Dense, GrownBy, BindStart, Mul, Path, AddAll, Capacity, ExtentsRight, Take;
      DenseTops(n);
      CapacityIsPastLastBind(mount.links);
      var blockId := TakeBlockId();
      if blockId == 0 {
        return null;
      }
      ghost var v, mid := view, mount.Blocks();
      b := PlaceLeaf(n);
      if b == null {
        return null;
      }
      PathDistinct(mount.links, n);
      GrownExtents(v, view, mid, mount.Blocks(), n, b, Path(mount.links, n), blockId, mount.sizes.bs);
      BlockAt(b, Leaf(n));
      LeafBelowCapacity(n);
      Finalize(b, blockId, n);
      MulIs(n, mount.sizes.bs);
      MulIs(blockId, mount.sizes.bs);
    }

    // ----- udbfslib_select_active_inode_block -----

    /** Nothing hangs below a position that is not there. */
    lemma NothingUnder(s: Pos, i: nat)
      requires Shape() && !s.Leaf? && i < mount.links && s !in view.lay
      ensures Child(mount.links, s, i) !in view.lay
    {
      ChildInverse(mount.links, s, i);
    }

    method FollowInd(node: IndBlock?, i: nat, ghost m: nat) returns (b: Block?)
      requires Shape() && LeadsTo(node, Ind(m)) && i < mount.links
      ensures LeadsTo(b, Leaf(LeafPos(mount.links, m, i)))
    {
      if node == null {
        NothingUnder(Ind(m), i);
        return null;
      }
      IndLeads(node, m, i);
      return node.block[i];
    }

    method FollowBind(node: BindBlock?, j: nat, i: nat, ghost b: nat) returns (blk: Block?)
      requires Shape() && LeadsTo(node, Bind(b)) && j < mount.links && i < mount.links
      ensures LeadsTo(blk, Leaf(LeafPos(mount.links, IndPos(mount.links, b, j), i)))
    {
      ghost var m := IndPos(mount.links, b, j);
      if node == null {
        NothingUnder(Bind(b), j);
        NothingUnder(Ind(m), i);
        return null;
      }
      BindLeads(node, b, j);
      blk := FollowInd(node.indblock[j], i, m);
    }

    method FollowTind(node: TindBlock?, k: nat, j: nat, i: nat) returns (blk: Block?)
      requires Shape() && LeadsTo(node, Tind) && k < mount.links && j < mount.links && i < mount.links
      ensures LeadsTo(blk, Leaf(LeafPos(mount.links, IndPos(mount.links, 1 + k, j), i)))
    {
      if node == null {
        NothingUnder(Tind, k);
        NothingUnder(Bind(1 + k), j);
        NothingUnder(Ind(IndPos(mount.links, 1 + k, j)), i);
        return null;
      }
      TindLeads(node, k);
      blk := FollowBind(node.bindblock[k], j, i, 1 + k);
    }

    /** Which bytes of the file and of the device the block at the cursor has. */
    lemma BlockSpans(b: Block?)
      requires LeadsTo(b, LeafOf(mount.Geom(), cursor)) && mount.Sane() && Shape()
      ensures Valid() && b != null ==>
        b.offsetStart <= cursor < b.offsetEnd && b.offsetEnd == b.offsetStart + mount.sizes.bs
        && b.offsetStart == cursor - cursor % mount.sizes.bs && b.deviceOffset == b.id * mount.sizes.bs
    {
      hide Shape, Valid, Address;
      if Valid() && b != null {
        CursorSpan(b);
      }
    }

    /** udbfslib_select_active_inode_block: the data block the cursor is in, or null exactly when that
        block is not part of the tree. */
    method SelectActiveBlock() returns (b: Block?)
      requires mount.Sane() && Shape()
      ensures LeadsTo(b, LeafOf(mount.Geom(), cursor))
      ensures b == null <==> Leaf(cursor / mount.sizes.bs) !in view.lay
      ensures Valid() && b != null ==>
        b.offsetStart <= cursor < b.offsetEnd && b.offsetEnd == b.offsetStart + mount.sizes.bs
        && b.offsetStart == cursor - cursor % mount.sizes.bs && b.deviceOffset == b.id * mount.sizes.bs
    {
      b := FindBlock();
      BlockSpans(b);
    }

    method FindBlock() returns (b: Block?)
      requires mount.Sane() && Shape()
      ensures LeadsTo(b, LeafOf(mount.Geom(), cursor))
    {
      LocateFindsLeaf(mount.links, mount.sizes, cursor);
      RootLeads(4);
      RootLeads(5);
      RootLeads(6);
      match Locate(mount.sizes, cursor)
      case Direct(id) =>
        RootLeads(id);
        b := block[id];
      case InInd(id) =>
        b := FollowInd(indBlock, id, 0);
      case InBind(indId, id) =>
        b := FollowBind(bindBlock, indId, id, 0);
      case InTind(bindId, indId, id) =>
        b := FollowTind(tindBlock, bindId, indId, id);
      case PastEnd =>
        b := null;
        NoLeafPastEnd();
    }

    lemma NoLeafPastEnd()
      requires Shape() && cursor / mount.sizes.bs >= Capacity(mount.links)
      ensures LeafOf(mount.Geom(), cursor) !in view.lay
    {
      if LeafOf(mount.Geom(), cursor) in view.lay {
        LeafBelowCapacity(cursor / mount.sizes.bs);
      }
    }

    // ----- udbfs_write_to_inode -----

    ghost function TheDisk(): Disk
      reads mount.device, mount`freeBlockCount, mount.blockBitmap
    {
      Disk(mount.device.bytes, mount.Blocks())
    }

    /** The file with n leaves that the inode stands for. */
    ghost function TheFile(n: nat): File
      reads `view, `cursor, `size
    {
      File(view.lay, n, cursor, size)
    }

    /** The data block of the cursor says where its byte is on the device. */
    lemma CursorPlace(b: Block)
      requires mount.Sane() && Valid() && IsAt(b, LeafOf(mount.Geom(), cursor))
      ensures b.offsetStart <= cursor < b.offsetEnd
      ensures b.offsetEnd - cursor == mount.sizes.bs - cursor % mount.sizes.bs
      ensures b.deviceOffset + (cursor - b.offsetStart) == Address(mount.Geom(), view.lay, cursor)
      ensures b in view.nodes.Values
    {
      var k, r := DivModSplit(cursor, mount.sizes.bs);
      BlockAt(b, Leaf(k));
      MulIs(k, mount.sizes.bs);
      MulIs(view.lay[Leaf(k)], mount.sizes.bs);
    }

    /** The same, from the id. */
    lemma CursorSpan(b: Block)
      requires mount.Sane() && Valid() && IsAt(b, LeafOf(mount.Geom(), cursor))
      ensures b.offsetStart <= cursor < b.offsetEnd && b.offsetEnd == b.offsetStart + mount.sizes.bs
      ensures b.offsetStart == cursor - cursor % mount.sizes.bs && b.deviceOffset == b.id * mount.sizes.bs
      ensures Address(mount.Geom(), view.lay, cursor) == b.id * mount.sizes.bs + cursor % mount.sizes.bs
    {
      var k, r := DivModSplit(cursor, mount.sizes.bs);
      BlockAt(b, Leaf(k));
      MulIs(k, mount.sizes.bs);
      MulIs(view.lay[Leaf(k)], mount.sizes.bs);
    }

    /** The block for the next chunk: the one the cursor is in, or else a new one. */
    method PrepareBlock(ghost n: nat) returns (b: Block?, ghost n': nat)
      requires Valid() && WellPlaced(mount.Geom(), TheFile(n))
      modifies `block, `indBlock, `bindBlock, `tindBlock, `view, view.nodes.Values
      modifies mount`freeBlockCount, mount.blockBitmap
      ensures Valid()
      ensures fresh(view.nodes.Values - old(view.nodes.Values))
      ensures (b != null, TheDisk(), TheFile(n')) == Prepare(mount.Geom(), old(TheDisk()), old(TheFile(n)))
      ensures b != null ==> IsAt(b, LeafOf(mount.Geom(), cursor))
    {
      hide Linked, AllHold, ExtentsRight, Extend, Dense, Take, Capacity, Bits;
      n' := n;
      b := SelectActiveBlock();
      if b == null {
        CursorInOrAtEnd(mount.Geom(), TheFile(n));
        DenseLeaves(n);
        NotANode(view, mount.sizes.bs, mount.device);
        NotANode(view, mount.sizes.bs, this);
        ExtendAppends(mount.links, view.lay, mount.Blocks(), n);
        b := ExtendInode(n);
        if b != null {
          n' := n + 1;
        }
      }
    }

    lemma DenseLeaves(n: nat)
      requires Dense(mount.links, view.lay, n)
      ensures HasLeaves(n)
    {}

    /** Moves one chunk to the device and the cursor past it. */
    method StoreChunk(b: Block, chunk: seq<byte>) returns (ok: bool)
      requires Valid() && IsAt(b, LeafOf(mount.Geom(), cursor))
      modifies `cursor, `size, mount.device
      ensures Valid()
      ensures var a := Address(mount.Geom(), view.lay, old(cursor));
        && (ok <==> a + |chunk| <= |old(mount.device.bytes)|)
        && mount.device.bytes ==
           (if ok then Splice(old(mount.device.bytes), a, chunk) else old(mount.device.bytes))
        && a == b.id * mount.sizes.bs + old(cursor) % mount.sizes.bs
      ensures cursor == if ok then old(cursor) + |chunk| else old(cursor)
      ensures size == if ok then Max(old(size), cursor) else old(size)
    {
      NotANode(view, mount.sizes.bs, mount.device);
      NotANode(view, mount.sizes.bs, this);
      CursorPlace(b);
      CursorSpan(b);
      var physicalOffset := b.deviceOffset + (cursor - b.offsetStart);
      ok := mount.device.Write(physicalOffset, chunk);
      if ok {
        cursor := cursor + |chunk|;
        if cursor > size {
          size := cursor;
        }
      }
    }

    lemma NodesApart()
      requires Shape()
      ensures mount.device !in view.nodes.Values && this !in view.nodes.Values && mount !in view.nodes.Values
    {
      NotANode(view, mount.sizes.bs, mount);
      NotANode(view, mount.sizes.bs, mount.device);
      NotANode(view, mount.sizes.bs, this);
    }

    /** One turn of the write loop. */
    method WriteTurn(data: seq<byte>, ghost n: nat) returns (written: nat, ghost n': nat)
      requires Valid() && WellPlaced(mount.Geom(), TheFile(n)) && data != []
      modifies `block, `indBlock, `bindBlock, `tindBlock, `view, view.nodes.Values, `cursor, `size
      modifies mount`freeBlockCount, mount.blockBitmap, mount.device
      ensures Valid()
      ensures fresh(view.nodes.Values - old(view.nodes.Values))
      ensures Progress(TheDisk(), TheFile(n'), written) ==
              WriteChunk(mount.Geom(), old(TheDisk()), old(TheFile(n)), data)
    {
      hide Shape, ExtentsRight, Dense, Prepare, Address;
      NodesApart();
      written := 0;
      var b;
      b, n' := PrepareBlock(n);
      if b == null {
        return;
      }
      CursorPlace(b);
      var partial := b.offsetEnd - cursor;
      partial := if partial > |data| then |data| else partial;
      var ok := StoreChunk(b, data[..partial]);
      if ok {
        written := partial;
      }
    }

    /** udbfs_write_to_inode, for a file with n leaves before and n' after. */
    method WriteToInode(data: seq<byte>, ghost n: nat) returns (written: nat, ghost n': nat)
      requires Valid() && WellPlaced(mount.Geom(), TheFile(n))
      modifies `block, `indBlock, `bindBlock, `tindBlock, `view, view.nodes.Values, `cursor, `size
      modifies mount`freeBlockCount, mount.blockBitmap, mount.device
      ensures Valid()
      ensures fresh(view.nodes.Values - old(view.nodes.Values))
      ensures Progress(TheDisk(), TheFile(n'), written) ==
              WriteAll(mount.Geom(), old(TheDisk()), old(TheFile(n)), data)
    {
      hide Valid, WellPlaced, WriteChunk, WriteAll;
      n' := n;
      written := 0;
      while written < |data|
        invariant written <= |data|
        invariant Valid() && WellPlaced(mount.Geom(), TheFile(n'))
        invariant fresh(view.nodes.Values - old(view.nodes.Values))
        invariant var rest := WriteAll(mount.Geom(), TheDisk(), TheFile(n'), data[written..]);
          rest.(written := written + rest.written) ==
          WriteAll(mount.Geom(), old(TheDisk()), old(TheFile(n)), data)
      {
        ghost var disk, f, left := TheDisk(), TheFile(n'), data[written..];
        ghost var w, rest := WriteUnfolds(mount.Geom(), disk, f, left);
        ChunkPlaced(mount.Geom(), disk, f, left);
        var partial;
        partial, n' := WriteTurn(data[written..], n');
        if partial == 0 {
          return;
        }
        assert left[partial..] == data[written + partial..];
        written := written + partial;
      }
      assert data[written..] == [];
      WriteNothing(mount.Geom(), TheDisk(), TheFile(n'));
    }

    // ----- udbfs_read_from_inode -----

    lemma ReadPlace(n: nat)
      requires Valid() && WellPlaced(mount.Geom(), TheFile(n)) && cursor < size
      ensures LeafOf(mount.Geom(), cursor) in view.lay
    {
      LeafOfByte(mount.Geom(), TheFile(n), cursor);
    }

    lemma BufferApart(data: array<byte>)
      requires Shape()
      ensures data !in view.nodes.Values
    {
      NotANode(view, mount.sizes.bs, data);
    }

    /** Copies bytes into the buffer. */
    method CopyInto(data: array<byte>, at: nat, s: seq<byte>)
      requires at + |s| <= data.Length
      modifies data
      ensures data[..] == Splice(old(data[..]), at, s)
    {
      forall i | 0 <= i < |s| {
        data[at + i] := s[i];
      }
    }

    /** Moves the next chunk of at most `size` bytes from the device into data[at..]. */
    method ReadTurn(data: array<byte>, at: nat, size: nat, ghost n: nat, ghost g: Geo, ghost dev: seq<byte>,
                    ghost lay: Layout, ghost from: nat)
      returns (partial: nat, ghost s: seq<byte>)
      requires Valid() && WellPlaced(mount.Geom(), TheFile(n))
      requires g == mount.Geom() && dev == mount.device.bytes && lay == view.lay && from == cursor
      requires 0 < size <= this.size - cursor && at + size <= data.Length
      modifies data, `cursor
      ensures Valid() && WellPlaced(mount.Geom(), TheFile(n))
      ensures |s| == partial <= size && cursor == old(cursor) + partial
      ensures data[..] == Splice(old(data[..]), at, s)
      ensures partial == 0 ==> ReadLoop(g, dev, lay, from, size) == []
      ensures partial > 0 ==>
        ReadLoop(g, dev, lay, from, size) == s + ReadLoop(g, dev, lay, from + partial, size - partial)
    {
      hide Shape, ExtentsRight, Dense, Address, ReadLoop, Splice;
      NodesApart();
      BufferApart(data);
      ReadPlace(n);
      ghost var chunk := ReadUnfolds(g, dev, lay, from, size);
      var b := SelectActiveBlock();
      CursorPlace(b);
      partial := b.offsetEnd - cursor;
      partial := if partial > size then size else partial;
      var physicalOffset := b.deviceOffset + cursor - b.offsetStart;
      var ok, bytes := mount.device.Read(physicalOffset, partial);
      s := bytes;
      CopyInto(data, at, bytes);
      partial := |bytes|;
      cursor := cursor + partial;
    }

    /** Two stretches stored one after the other. */
    lemma SplicedFront(d: seq<byte>, s: seq<byte>)
      requires |s| <= |d|
      ensures Splice(d, 0, s) == s + d[|s|..] && Splice(d, 0, []) == d
    {}

    lemma CursorWithin(n: nat)
      requires WellPlaced(mount.Geom(), TheFile(n))
      ensures cursor <= size
    {}

    static lemma ReadAllIs(g: Geo, dev: seq<byte>, f: File, size: nat, left: nat)
      requires f.cursor <= f.size && left == if size < f.size - f.cursor then size else f.size - f.cursor
      ensures ReadAll(g, dev, f, size) == ReadLoop(g, dev, f.lay, f.cursor, left)
    {}

    /** udbfs_read_from_inode: the bytes land at the front of data; nothing else changes but the cursor. */
    method ReadFromInode(data: array<byte>, size: nat, ghost n: nat) returns (done: nat)
      requires Valid() && WellPlaced(mount.Geom(), TheFile(n)) && size <= data.Length
      modifies data, `cursor
      ensures Valid()
      ensures var s := ReadAll(mount.Geom(), mount.device.bytes, old(TheFile(n)), size);
        && done == |s|
        && cursor == old(cursor) + done
        && data[..] == s + old(data[..])[done..]
    {
      hide Valid, WellPlaced, ReadLoop, ReadAll, Reading, Address, Splice;
      CursorWithin(n);
      var left: nat := if size < this.size - cursor then size else this.size - cursor;
      ghost var g, dev, lay, start, all := mount.Geom(), mount.device.bytes, view.lay, cursor, left;
      ReadAllIs(g, dev, TheFile(n), size, left);
      ghost var got: seq<byte>, at: nat := [], start;
      ReadStarts(g, dev, lay, start, all);
      ghost var was := data[..];
      SplicedFront(was, []);
      done := 0;
      while left > 0
        invariant Valid() && WellPlaced(mount.Geom(), TheFile(n))
        invariant g == mount.Geom() && dev == mount.device.bytes && lay == view.lay
        invariant cursor == at == start + done && left <= this.size - cursor && done + left <= data.Length
        invariant |got| == done && data[..] == Splice(was, 0, got)
        invariant Reading(g, dev, lay, start, all, got, at, left)
      {
        var partial;
        ghost var s;
        partial, s := ReadTurn(data, done, left, n, g, dev, lay, at);
        SpliceTwice(was, 0, got, s);
        if partial == 0 {
          break;
        }
        ReadGoesOn(g, dev, lay, start, all, got, at, left, s, partial);
        got, at := got + s, at + partial;
        left := left - partial;
        done := done + partial;
      }
      ReadEnds(g, dev, lay, start, all, got, at, left);
      SplicedFront(was, got);
    }
  }

  /** udbfs_create_inode: an empty file under the first free inode id. Without a free id the inode in
      memory is dropped, but the mount goes on listing it. */
  method CreateInode(mount: Mount) returns (inode: Inode?)
    requires mount.Sane()
    modifies mount`freeInodeCount, mount.inodeBitmap, mount`openedInodes
    ensures mount.InodeIds() == Take(old(mount.InodeIds())).al
    ensures inode == null <==> Take(old(mount.InodeIds())).id == 0
    ensures inode != null ==>
      && fresh(inode) && inode.mount == mount && inode.Valid()
      && inode.view.lay == map[] && inode.cursor == 0 && inode.size == 0
      && inode.id == Take(old(mount.InodeIds())).id
      && inode.physicalOffset == mount.inodeTableOffset + 64 * inode.id
      && mount.openedInodes == old(mount.openedInodes) + {inode}
    ensures inode == null ==>
      exists o :: o in mount.openedInodes && fresh(o) && mount.openedInodes == old(mount.openedInodes) + {o}
  {
    var entry := new Inode(mount);
    entry.id := mount.AllocateInodeId();
    if entry.id == 0 {
      return null;
    }
    entry.physicalOffset := mount.inodeTableOffset + 64 * entry.id;
    inode := entry;
  }
}
