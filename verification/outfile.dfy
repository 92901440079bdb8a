/**
 The files mkudbfs builds in memory before it writes them out: a linked chain of blocks that grows at
 its end while bytes are appended.
 */
module OutFiles {
  import opened Arith
  import opened Bytes
  import opened Layouts

  class FileBlock {
    const offsetStart: nat
    const offsetEnd: nat
    const data: array<byte>
    var next: FileBlock?

    constructor (offsetStart: nat, size: nat)
      ensures this.offsetStart == offsetStart && offsetEnd == offsetStart + size
      ensures fresh(data) && data.Length == size && next == null
    {
      this.offsetStart, offsetEnd := offsetStart, offsetStart + size;
      data := new byte[size](_ => 0);
      next := null;
    }
  }

  /** The bytes of w that belong into block b are there. */
  ghost predicate HoldsPart(b: FileBlock, w: seq<byte>)
    reads b.data
  {
    forall j :: 0 <= j < b.data.Length && b.offsetStart + j < |w| ==> b.data[j] == w[b.offsetStart + j]
  }

  lemma NothingYet(b: FileBlock, w: seq<byte>)
    requires |w| <= b.offsetStart
    ensures HoldsPart(b, w)
  {}

  lemma {:induction false} BlocksInOrder(i: nat, k: nat, size: nat)
    requires i < k
    ensures Mul(i, size) + size <= Mul(k, size)
  {
    if i + 1 < k {
      BlocksInOrder(i, k - 1, size);
    }
  }

  class OutFile {
    const size: Size
    const inodeId: nat
    var blocks: FileBlock?
    var currentBlock: FileBlock?
    var currentOffset: nat
    var fileSize: nat
    var blockCount: nat

    // The blocks in order, and the bytes written so far.
    ghost var chain: seq<FileBlock>
    ghost var written: seq<byte>

    /** create_file. */
    constructor (size: Size, inodeId: nat)
      ensures Valid() && written == [] && chain == [] && this.size == size && this.inodeId == inodeId
    {
      this.size, this.inodeId := size, inodeId;
      blocks, currentBlock, currentOffset, fileSize, blockCount := null, null, 0, 0, 0;
      chain, written := [], [];
    }

    /** The chain: the blocks follow each other, in memory and in the file. */
    ghost predicate Chained()
      reads `blocks, `blockCount, `chain, chain
    {
      && blocks == (if chain == [] then null else chain[0])
      && blockCount == |chain|
      && (forall i {:trigger chain[i].next} :: 0 <= i < |chain| - 1 ==> chain[i].next == chain[i + 1])
      && (chain != [] ==> chain[|chain| - 1].next == null)
      && (forall i :: 0 <= i < |chain| ==>
            && chain[i].offsetStart == Mul(i, size) && chain[i].offsetEnd == Mul(i, size) + size
            && chain[i].data.Length == size)
      && (forall i, j :: 0 <= i < j < |chain| ==> chain[i] != chain[j] && chain[i].data != chain[j].data)
    }

    /** Every byte written is in its block. */
    ghost predicate Filled()
      reads `chain, `written, set b | b in chain :: b.data
    {
      forall i :: 0 <= i < |chain| ==> HoldsPart(chain[i], written)
    }

    /** The end of the file is in the last block, or right behind it. */
    ghost predicate AtEnd()
      reads `chain, `written, `currentOffset, `currentBlock
    {
      && |written| == currentOffset <= Mul(|chain|, size)
      && (chain != [] ==> Mul(|chain| - 1, size) <= currentOffset)
      && (chain == [] ==> currentOffset == 0)
      && currentBlock == if chain == [] || currentOffset == Mul(|chain|, size) then null else chain[|chain| - 1]
    }

    ghost predicate Valid()
      reads this, chain, set b | b in chain :: b.data
    {
      Chained() && Filled() && AtEnd() && fileSize == currentOffset
    }

    /** Walks the chain to its last block. */
    method LastBlock() returns (block: FileBlock)
      requires Chained() && chain != []
      ensures block == chain[|chain| - 1]
    {
      block := blocks;
      ghost var i := 0;
      while block.next != null
        invariant 0 <= i < |chain| && block == chain[i]
        decreases |chain| - i
      {
        block := block.next;
        i := i + 1;
      }
      OnlyLastEnds(i);
    }

    lemma OnlyLastEnds(i: nat)
      requires Chained() && i < |chain| && chain[i].next == null
      ensures i == |chain| - 1
    {}

    /** allocate_block_to_file: a new block at the end of the chain. */
    method AllocateBlock() returns (newBlock: FileBlock)
      requires Chained() && Filled() && |written| <= Mul(|chain|, size)
      modifies this`blocks, this`blockCount, this`chain, chain
      ensures Chained() && Filled() && chain == old(chain) + [newBlock]
      ensures fresh(newBlock) && fresh(newBlock.data)
      ensures newBlock.offsetStart == old(|chain|) * size && newBlock.offsetEnd == old(|chain|) * size + size
      ensures newBlock.data.Length == size && newBlock.next == null && blockCount == |chain|
      ensures blocks == chain[0] && (old(chain) != [] ==> chain[|chain| - 2].next == newBlock)
    {
      hide HoldsPart, Chained, Filled;
      MulIs(|chain|, size);
      newBlock := AppendBlock();
      ChainEnds();
    }

    /** How the chain begins and ends. */
    lemma ChainEnds()
      requires Chained() && chain != []
      ensures blocks == chain[0] && blockCount == |chain| && chain[|chain| - 1].next == null
      ensures chain[|chain| - 1].data.Length == size
      ensures chain[|chain| - 1].offsetEnd == chain[|chain| - 1].offsetStart + size
      ensures chain[|chain| - 1].offsetStart == Mul(|chain| - 1, size)
      ensures |chain| > 1 ==> chain[|chain| - 2].next == chain[|chain| - 1]
    {}

    method AppendBlock() returns (newBlock: FileBlock)
      requires Chained() && Filled() && |written| <= Mul(|chain|, size)
      modifies this`blocks, this`blockCount, this`chain, chain
      ensures Chained() && Filled() && chain == old(chain) + [newBlock]
      ensures fresh(newBlock) && fresh(newBlock.data)
    {
      hide HoldsPart;
      ghost var was := chain;
      if blocks == null {
        newBlock := new FileBlock(0, size);
        blocks := newBlock;
      } else {
        var last := LastBlock();
        newBlock := new FileBlock(last.offsetEnd, size);
        last.next := newBlock;
      }
      blockCount := blockCount + 1;
      chain := chain + [newBlock];
      NothingYet(newBlock, written);
      forall i | 0 <= i < |was|
        ensures HoldsPart(chain[i], written)
      {
        assert old(HoldsPart(was[i], written));
      }
    }

    /** Stores part of the data into the current block, which is the last one. */
    method Fill(block: FileBlock, data: seq<byte>)
      requires Chained() && Filled() && chain != [] && block == chain[|chain| - 1]
      requires |written| == currentOffset && block.offsetStart <= currentOffset
      requires currentOffset + |data| <= block.offsetEnd
      modifies this`currentOffset, this`written, block.data
      ensures Chained() && Filled()
      ensures currentOffset == old(currentOffset) + |data| && written == old(written) + data
    {
      hide Chained, Mul;
      ChainEnds();
      var blockOffset := currentOffset - block.offsetStart;
      currentOffset := currentOffset + |data|;
      var i := 0;
      while i < |data|
        modifies block.data
        invariant 0 <= i <= |data|
        invariant forall j :: 0 <= j < block.data.Length ==>
          block.data[j] == if blockOffset <= j < blockOffset + i then data[j - blockOffset] else old(block.data[j])
      {
        block.data[blockOffset + i] := data[i];
        i := i + 1;
      }
      written := written + data;
      forall k | 0 <= k < |chain|
        ensures HoldsPart(chain[k], written)
      {
        assert old(HoldsPart(chain[k], written));
        if k < |chain| - 1 {
          EarlierIsFull(k);
        }
      }
    }

    /** The blocks before the last one end before it starts. */
    lemma EarlierIsFull(k: nat)
      requires Chained() && k < |chain| - 1
      ensures chain[k].offsetStart + chain[k].data.Length <= chain[|chain| - 1].offsetStart
      ensures chain[k] != chain[|chain| - 1] && chain[k].data != chain[|chain| - 1].data
    {
      BlocksInOrder(k, |chain| - 1, size);
    }

    lemma MulGrows(n: nat)
      requires n > 0
      ensures Mul(n, size) == Mul(n - 1, size) + size && Mul(0, size) == 0
    {}

    /** One turn of write_to_file: the current block, or a new one, takes what fits. */
    method WriteTurn(data: seq<byte>) returns (done: nat)
      requires Chained() && Filled() && AtEnd() && data != []
      modifies this`blocks, this`blockCount, this`chain, this`currentBlock, this`currentOffset, this`written
      modifies chain, set b | b in chain :: b.data
      ensures Chained() && Filled() && AtEnd()
      ensures 0 < done <= |data| && written == old(written) + data[..done]
      ensures forall b :: b in chain ==> b in old(chain) || (fresh(b) && fresh(b.data))
    {
      hide Chained, Filled, Mul;
      if currentBlock == null {
        currentBlock := AllocateBlock();
      }
      ChainEnds();
      MulGrows(|chain|);
      var block := currentBlock;
      done := block.offsetEnd - currentOffset;
      done := if done > |data| then |data| else done;
      Fill(block, data[..done]);
      if currentOffset == block.offsetEnd {
        currentBlock := block.next;
      }
    }

    lemma SizeIs()
      requires AtEnd()
      ensures |written| == currentOffset
    {}

    /** write_to_file: appends. */
    method WriteToFile(data: seq<byte>)
      requires Valid()
      modifies this, chain, set b | b in chain :: b.data
      ensures Valid() && written == old(written) + data
    {
      hide Chained, Filled, AtEnd, Mul;
      SizeIs();
      var completed := 0;
      while completed < |data|
        invariant 0 <= completed <= |data|
        invariant Chained() && Filled() && AtEnd()
        invariant written == old(written) + data[..completed]
        invariant forall b :: b in chain ==> b in old(chain) || (fresh(b) && fresh(b.data))
        invariant fileSize == old(fileSize) == |old(written)|
      {
        assert forall i :: 0 <= i < |chain| ==> chain[i] in chain;
        var done := WriteTurn(data[completed..]);
        assert data[..completed] + data[completed..][..done] == data[..completed + done];
        completed := completed + done;
      }
      SizeIs();
      assert data[..completed] == data;
      if currentOffset > fileSize {
        fileSize := currentOffset;
      }
    }

    /** Block after block, the chain holds the file: byte c is byte c % size of block c / size. */
    lemma ChainHoldsFile(c: nat)
      requires Valid() && c < fileSize
      ensures fileSize == |written| && c / size < |chain|
      ensures c % size < chain[c / size].data.Length && chain[c / size].data[c % size] == written[c]
    {
      var k, r := DivModSplit(c, size);
      MulIs(k, size);
      MulIs(|chain|, size);
      DivBelow(c, |chain|, size, |chain| * size);
      assert HoldsPart(chain[k], written);
    }
  }
}
