/**
 Closing an inode: the block tree is written out index block by index block, then the record.
 The memory the library frees on the way is not modelled; nothing reads it afterwards.
 */
module Closing {
  import opened Bytes
  import opened Layouts
  import opened Trees
  import opened OnDisk
  import opened DiskBytes
  import opened Inodes

  /** Slot i of an indirect block, as the word to store for it. */
  lemma LeafWord(inode: Inode, node: IndBlock, m: nat, i: nat)
    requires inode.Shape() && inode.IsAt(node, Ind(m)) && i < inode.mount.links
    ensures |node.block| == inode.mount.links
    ensures Id(inode.view.lay, Child(inode.mount.links, Ind(m), i)) ==
            if node.block[i] == null then 0 else node.block[i].id
    ensures node.deviceOffset + 8 * i == SlotAddress(inode.mount.Geom(), Id(inode.view.lay, Ind(m)), i)
  {
    inode.IndAt(node, Ind(m));
    inode.IndLeads(node, m, i);
    if node.block[i] != null {
      inode.BlockAt(node.block[i], Leaf(LeafPos(inode.mount.links, m, i)));
    }
  }

  lemma IndWord(inode: Inode, node: BindBlock, b: nat, j: nat)
    requires inode.Shape() && inode.IsAt(node, Bind(b)) && j < inode.mount.links
    ensures |node.indblock| == inode.mount.links
    ensures var c := Ind(IndPos(inode.mount.links, b, j));
      && inode.LeadsTo(node.indblock[j], c)
      && Id(inode.view.lay, c) == if node.indblock[j] == null then 0 else node.indblock[j].id
    ensures node.deviceOffset + 8 * j == SlotAddress(inode.mount.Geom(), Id(inode.view.lay, Bind(b)), j)
  {
    inode.BindAt(node, Bind(b));
    inode.BindLeads(node, b, j);
    if node.indblock[j] != null {
      inode.IndAt(node.indblock[j], Ind(IndPos(inode.mount.links, b, j)));
    }
  }

  lemma BindWord(inode: Inode, node: TindBlock, i: nat)
    requires inode.Shape() && inode.IsAt(node, Tind) && i < inode.mount.links
    ensures |node.bindblock| == inode.mount.links
    ensures inode.LeadsTo(node.bindblock[i], Bind(1 + i))
    ensures Id(inode.view.lay, Bind(1 + i)) == if node.bindblock[i] == null then 0 else node.bindblock[i].id
    ensures node.deviceOffset + 8 * i == SlotAddress(inode.mount.Geom(), Id(inode.view.lay, Tind), i)
  {
    inode.TindAt(node, Tind);
    inode.TindLeads(node, i);
    if node.bindblock[i] != null {
      inode.BindAt(node.bindblock[i], Bind(1 + i));
    }
  }

  lemma ShapeOfValid(inode: Inode)
    requires inode.Valid()
    ensures inode.Shape() && inode.mount.Sane()
    ensures inode.mount.device !in inode.view.nodes.Values && inode.mount !in inode.view.nodes.Values
  {
    inode.NodesApart();
  }

  /** Writes the id x at off. */
  method PutWord(inode: Inode, off: nat, x: nat) returns (ok: bool)
    requires inode.Valid()
    modifies inode.mount.device
    ensures inode.Valid()
    ensures ok <==> off + 8 <= |inode.mount.device.bytes|
    ensures inode.mount.device.bytes == Put(old(inode.mount.device.bytes), off, x)
  {
    inode.NodesApart();
    ok := inode.mount.device.Write(off, Encode64(x));
  }

  lemma NothingToWrite(dev: seq<byte>, position: nat, off: nat, x: nat)
    requires position == off || (position + 8 > |dev| && position <= off)
    ensures Put(dev, position, x) == Put(dev, off, x)
  {}

  /** udbfslib_unload_ind_block: one seek, then the ids one after the other. A write that fails does
      not move the file position. */
  method UnloadIndBlock(inode: Inode, node: IndBlock, ghost m: nat)
    requires inode.Valid() && inode.IsAt(node, Ind(m))
    modifies inode.mount.device
    ensures inode.Valid()
    ensures inode.mount.device.bytes ==
            Flush(inode.mount.Geom(), old(inode.mount.device.bytes), inode.view.lay, Ind(m), inode.mount.links)
    ensures node.deviceOffset + 8 * inode.mount.links <= |inode.mount.device.bytes| ==>
      && |node.block| == inode.mount.links
      && forall k, i: nat :: 0 <= k < |node.block| && i < 8 ==>
           inode.mount.device.bytes[node.deviceOffset + 8 * k + i] as nat ==
           (if node.block[k] == null then 0 else node.block[k].id) / Pow256(i) % 256
  {
    hide Inode.Valid, Put, Flush, SlotAddress;
    ghost var g := inode.mount.Geom();
    ghost var dev := inode.mount.device.bytes;
    FlushNothing(g, dev, inode.view.lay, Ind(m));
    var position: nat := node.deviceOffset;
    var i: nat := 0;
    while i < inode.mount.links
      invariant i <= inode.mount.links && inode.Valid()
      invariant inode.mount.device.bytes == Flush(g, dev, inode.view.lay, Ind(m), i)
      invariant position == node.deviceOffset + 8 * i ||
                (position + 8 > |dev| && position <= node.deviceOffset + 8 * i)
    {
      ShapeOfValid(inode);
      LeafWord(inode, node, m, i);
      var blockId: nat := if node.block[i] == null then 0 else node.block[i].id;
      ghost var before := inode.mount.device.bytes;
      NothingToWrite(before, position, node.deviceOffset + 8 * i, blockId);
      FlushStep(g, dev, inode.view.lay, Ind(m), i, node.deviceOffset + 8 * i);
      var ok := PutWord(inode, position, blockId);
      if ok {
        position := position + 8;
      }
      i := i + 1;
    }
    ShapeOfValid(inode);
    IndWritten(inode, node, m, dev);
  }

  /** The bytes of an indirect block that has been written. */
  lemma IndWritten(inode: Inode, node: IndBlock, m: nat, dev: seq<byte>)
    requires inode.Shape() && inode.IsAt(node, Ind(m))
    ensures node.deviceOffset + 8 * inode.mount.links <= |dev| ==>
      var d := Flush(inode.mount.Geom(), dev, inode.view.lay, Ind(m), inode.mount.links);
      && |node.block| == inode.mount.links
      && forall k, i: nat :: 0 <= k < |node.block| && i < 8 ==>
           d[node.deviceOffset + 8 * k + i] as nat ==
           (if node.block[k] == null then 0 else node.block[k].id) / Pow256(i) % 256
  {
    hide Inode.Shape, Flush, Pow256;
    var g := inode.mount.Geom();
    LeafWord(inode, node, m, 0);
    if node.deviceOffset + 8 * inode.mount.links <= |dev| {
      forall k, i: nat | 0 <= k < |node.block| && i < 8
        ensures Flush(g, dev, inode.view.lay, Ind(m), inode.mount.links)[node.deviceOffset + 8 * k + i] as nat ==
                (if node.block[k] == null then 0 else node.block[k].id) / Pow256(i) % 256
      {
        LeafWord(inode, node, m, k);
        FlushWritesInd(g, dev, inode.view.lay, m, inode.mount.links, k, i);
      }
    }
  }

  /** The position in slot j of bi-indirect block b, or what it stands for, written out first. */
  method UnloadBindSlot(inode: Inode, node: BindBlock, j: nat, ghost b: nat) returns (blockId: nat)
    requires inode.Valid() && inode.IsAt(node, Bind(b)) && j < inode.mount.links && j < |node.indblock|
    modifies inode.mount.device
    ensures inode.Valid()
    ensures blockId == Id(inode.view.lay, Child(inode.mount.links, Bind(b), j))
    ensures inode.mount.device.bytes ==
            FlushChild(inode.mount.Geom(), old(inode.mount.device.bytes), inode.view.lay, Bind(b), j)
  {
    hide Inode.Valid, Flush;
    ShapeOfValid(inode);
    IndWord(inode, node, b, j);
    if node.indblock[j] == null {
      blockId := 0;
    } else {
      blockId := node.indblock[j].id;
      UnloadIndBlock(inode, node.indblock[j], IndPos(inode.mount.links, b, j));
    }
  }

  /** udbfslib_unload_bind_block: every indirect block first, then its id at a place of its own. */
  method UnloadBindBlock(inode: Inode, node: BindBlock, ghost b: nat)
    requires inode.Valid() && inode.IsAt(node, Bind(b))
    modifies inode.mount.device
    ensures inode.Valid()
    ensures inode.mount.device.bytes ==
            Flush(inode.mount.Geom(), old(inode.mount.device.bytes), inode.view.lay, Bind(b), inode.mount.links)
  {
    hide Inode.Valid, Put, Flush, SlotAddress, FlushChild;
    ghost var g := inode.mount.Geom();
    ghost var dev := inode.mount.device.bytes;
    FlushNothing(g, dev, inode.view.lay, Bind(b));
    var deviceOffset: nat := node.deviceOffset;
    var j: nat := 0;
    while j < inode.mount.links
      invariant j <= inode.mount.links && inode.Valid()
      invariant inode.mount.device.bytes == Flush(g, dev, inode.view.lay, Bind(b), j)
      invariant deviceOffset == node.deviceOffset + 8 * j
    {
      ShapeOfValid(inode);
      IndWord(inode, node, b, j);
      FlushStep(g, dev, inode.view.lay, Bind(b), j, deviceOffset);
      var blockId := UnloadBindSlot(inode, node, j, b);
      var _ := PutWord(inode, deviceOffset, blockId);
      deviceOffset := deviceOffset + 8;
      j := j + 1;
    }
  }

  method UnloadTindSlot(inode: Inode, node: TindBlock, i: nat) returns (blockId: nat)
    requires inode.Valid() && inode.IsAt(node, Tind) && i < inode.mount.links && i < |node.bindblock|
    modifies inode.mount.device
    ensures inode.Valid()
    ensures blockId == Id(inode.view.lay, Child(inode.mount.links, Tind, i))
    ensures inode.mount.device.bytes ==
            FlushChild(inode.mount.Geom(), old(inode.mount.device.bytes), inode.view.lay, Tind, i)
  {
    hide Inode.Valid, Flush;
    ShapeOfValid(inode);
    BindWord(inode, node, i);
    if node.bindblock[i] == null {
      blockId := 0;
    } else {
      blockId := node.bindblock[i].id;
      UnloadBindBlock(inode, node.bindblock[i], 1 + i);
    }
  }

  /** udbfslib_unload_tind_block. */
  method UnloadTindBlock(inode: Inode, node: TindBlock)
    requires inode.Valid() && inode.IsAt(node, Tind)
    modifies inode.mount.device
    ensures inode.Valid()
    ensures inode.mount.device.bytes ==
            Flush(inode.mount.Geom(), old(inode.mount.device.bytes), inode.view.lay, Tind, inode.mount.links)
  {
    hide Inode.Valid, Put, Flush, SlotAddress, FlushChild;
    ghost var g := inode.mount.Geom();
    ghost var dev := inode.mount.device.bytes;
    FlushNothing(g, dev, inode.view.lay, Tind);
    var deviceOffset: nat := node.deviceOffset;
    var i: nat := 0;
    while i < inode.mount.links
      invariant i <= inode.mount.links && inode.Valid()
      invariant inode.mount.device.bytes == Flush(g, dev, inode.view.lay, Tind, i)
      invariant deviceOffset == node.deviceOffset + 8 * i
    {
      ShapeOfValid(inode);
      BindWord(inode, node, i);
      FlushStep(g, dev, inode.view.lay, Tind, i, deviceOffset);
      var blockId := UnloadTindSlot(inode, node, i);
      var _ := PutWord(inode, deviceOffset, blockId);
      deviceOffset := deviceOffset + 8;
      i := i + 1;
    }
  }

  // ----- udbfs_close_inode -----

  method DirectId(inode: Inode, j: nat) returns (id: nat)
    requires inode.Valid() && j < 4 && j < |inode.block|
    ensures id == Id(inode.view.lay, Leaf(j))
  {
    inode.RootLeads(j);
    if inode.block[j] == null {
      return 0;
    }
    inode.BlockAt(inode.block[j], Leaf(j));
    return inode.block[j].id;
  }

  method CloseInd(inode: Inode) returns (id: nat)
    requires inode.Valid()
    modifies inode.mount.device
    ensures inode.Valid() && id == Id(inode.view.lay, Ind(0))
    ensures inode.mount.device.bytes ==
            FlushRoot(inode.mount.Geom(), old(inode.mount.device.bytes), inode.view.lay, Ind(0))
  {
    inode.RootLeads(4);
    if inode.indBlock == null {
      return 0;
    }
    inode.IndAt(inode.indBlock, Ind(0));
    id := inode.indBlock.id;
    UnloadIndBlock(inode, inode.indBlock, 0);
  }

  method CloseBind(inode: Inode) returns (id: nat)
    requires inode.Valid()
    modifies inode.mount.device
    ensures inode.Valid() && id == Id(inode.view.lay, Bind(0))
    ensures inode.mount.device.bytes ==
            FlushRoot(inode.mount.Geom(), old(inode.mount.device.bytes), inode.view.lay, Bind(0))
  {
    inode.RootLeads(5);
    if inode.bindBlock == null {
      return 0;
    }
    inode.BindAt(inode.bindBlock, Bind(0));
    id := inode.bindBlock.id;
    UnloadBindBlock(inode, inode.bindBlock, 0);
  }

  method CloseTind(inode: Inode) returns (id: nat)
    requires inode.Valid()
    modifies inode.mount.device
    ensures inode.Valid() && id == Id(inode.view.lay, Tind)
    ensures inode.mount.device.bytes ==
            FlushRoot(inode.mount.Geom(), old(inode.mount.device.bytes), inode.view.lay, Tind)
  {
    inode.RootLeads(6);
    if inode.tindBlock == null {
      return 0;
    }
    inode.TindAt(inode.tindBlock, Tind);
    id := inode.tindBlock.id;
    UnloadTindBlock(inode, inode.tindBlock);
  }

  /** The bytes of the record, from the fields of the inode. */
  ghost predicate RecordBytes(inode: Inode, bytes: seq<byte>, i: nat)
    requires |inode.block| == 4 && inode.physicalOffset + 64 <= |bytes| && i < 8
    reads inode, inode.block, inode.indBlock, inode.bindBlock, inode.tindBlock
  {
    var rec := inode.physicalOffset;
    && bytes[rec + i] as nat == inode.size / Pow256(i) % 256
    && (forall j: nat :: j < 4 ==>
          bytes[rec + 8 + 8 * j + i] as nat ==
          (if inode.block[j] == null then 0 else inode.block[j].id) / Pow256(i) % 256)
    && bytes[rec + 40 + i] as nat == (if inode.indBlock == null then 0 else inode.indBlock.id) / Pow256(i) % 256
    && bytes[rec + 48 + i] as nat == (if inode.bindBlock == null then 0 else inode.bindBlock.id) / Pow256(i) % 256
    && bytes[rec + 56 + i] as nat == (if inode.tindBlock == null then 0 else inode.tindBlock.id) / Pow256(i) % 256
  }

  lemma RecordWritten(inode: Inode, dev: seq<byte>)
    requires inode.Shape()
    ensures |inode.block| == 4
    ensures inode.physicalOffset + 64 <= |dev| ==>
      forall i: nat :: i < 8 ==>
        RecordBytes(inode, Close(inode.mount.Geom(), dev, inode.view.lay, inode.physicalOffset, inode.size), i)
  {
    hide Close, Pow256, Inode.Shape;
    RootIds(inode);
    var g, rec := inode.mount.Geom(), inode.physicalOffset;
    if rec + 64 <= |dev| {
      forall i: nat | i < 8
        ensures RecordBytes(inode, Close(g, dev, inode.view.lay, rec, inode.size), i)
      {
        CloseWritesRecord(g, dev, inode.view.lay, rec, inode.size, i);
      }
    }
  }

  /** The tree, then the record. A record that does not fit is reported and dropped. */
  method WriteOut(inode: Inode)
    requires inode.Valid()
    modifies inode.mount.device
    ensures inode.Valid()
    ensures inode.mount.device.bytes ==
            Close(inode.mount.Geom(), old(inode.mount.device.bytes), inode.view.lay, inode.physicalOffset, inode.size)
  {
    hide Inode.Shape, ExtentsRight, FlushRoot, Id, Words;
    ShapeOfValid(inode);
    var size := inode.size;
    var block0 := DirectId(inode, 0);
    var block1 := DirectId(inode, 1);
    var block2 := DirectId(inode, 2);
    var block3 := DirectId(inode, 3);
    var ind := CloseInd(inode);
    var bind := CloseBind(inode);
    var tind := CloseTind(inode);
    var physical := Words([size, block0, block1, block2, block3, ind, bind, tind]);
    RecordIs(inode.view.lay, size, [size, block0, block1, block2, block3, ind, bind, tind]);
    var _ := inode.mount.device.Write(inode.physicalOffset, physical);
  }

  /** udbfs_close_inode: what is on the device afterwards, as a function and byte by byte. */
  method CloseInode(inode: Inode)
    requires inode.Valid()
    modifies inode.mount.device, inode.mount`openedInodes
    ensures inode.mount.openedInodes == old(inode.mount.openedInodes) - {inode}
    ensures inode.mount.device.bytes ==
            Close(inode.mount.Geom(), old(inode.mount.device.bytes), inode.view.lay, inode.physicalOffset, inode.size)
    ensures |inode.block| == 4
    ensures inode.physicalOffset + 64 <= |inode.mount.device.bytes| ==>
      forall i: nat :: i < 8 ==>
        var bytes, rec := inode.mount.device.bytes, inode.physicalOffset;
        && bytes[rec + i] as nat == inode.size / Pow256(i) % 256
        && (forall j: nat :: j < 4 ==>
              bytes[rec + 8 + 8 * j + i] as nat ==
              (if inode.block[j] == null then 0 else inode.block[j].id) / Pow256(i) % 256)
        && bytes[rec + 40 + i] as nat == (if inode.indBlock == null then 0 else inode.indBlock.id) / Pow256(i) % 256
        && bytes[rec + 48 + i] as nat == (if inode.bindBlock == null then 0 else inode.bindBlock.id) / Pow256(i) % 256
        && bytes[rec + 56 + i] as nat == (if inode.tindBlock == null then 0 else inode.tindBlock.id) / Pow256(i) % 256
  {
    hide Inode.Valid, Close, Pow256;
    ShapeOfValid(inode);
    inode.mount.openedInodes := inode.mount.openedInodes - {inode};
    ghost var dev := inode.mount.device.bytes;
    WriteOut(inode);
    RecordWritten(inode, dev);
    assert forall i: nat {:trigger Pow256(i)} :: i < 8 && inode.physicalOffset + 64 <= |dev| ==>
      RecordBytes(inode, inode.mount.device.bytes, i);
  }

  /** The ids the inode points at. */
  lemma RootIds(inode: Inode)
    requires inode.Shape()
    ensures |inode.block| == 4
    ensures forall j: nat :: j < 4 ==>
      Id(inode.view.lay, Leaf(j)) == if inode.block[j] == null then 0 else inode.block[j].id
    ensures Id(inode.view.lay, Ind(0)) == if inode.indBlock == null then 0 else inode.indBlock.id
    ensures Id(inode.view.lay, Bind(0)) == if inode.bindBlock == null then 0 else inode.bindBlock.id
    ensures Id(inode.view.lay, Tind) == if inode.tindBlock == null then 0 else inode.tindBlock.id
  {
    forall j: nat | j < 4
      ensures Id(inode.view.lay, Leaf(j)) == if inode.block[j] == null then 0 else inode.block[j].id
    {
      inode.RootLeads(j);
      if inode.block[j] != null {
        inode.BlockAt(inode.block[j], Leaf(j));
      }
    }
    inode.RootLeads(4);
    inode.RootLeads(5);
    inode.RootLeads(6);
    if inode.indBlock != null {
      inode.IndAt(inode.indBlock, Ind(0));
    }
    if inode.bindBlock != null {
      inode.BindAt(inode.bindBlock, Bind(0));
    }
    if inode.tindBlock != null {
      inode.TindAt(inode.tindBlock, Tind);
    }
  }

  lemma RecordIs(lay: Layout, size: nat, xs: seq<nat>)
    requires |xs| == 8 && xs[0] == size
    requires xs[1] == Id(lay, Leaf(0)) && xs[2] == Id(lay, Leaf(1))
    requires xs[3] == Id(lay, Leaf(2)) && xs[4] == Id(lay, Leaf(3))
    requires xs[5] == Id(lay, Ind(0)) && xs[6] == Id(lay, Bind(0)) && xs[7] == Id(lay, Tind)
    ensures Words(xs) == Record(lay, size)
  {
    assert xs == [size] + seq(7, j requires 0 <= j < 7 => Id(lay, Root(j)));
  }
}
