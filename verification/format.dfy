/**
 Formatting a device: choosing the block size, carving the boot area, the inode table and the bitmaps
 out of the block bitmap by first-fit reservations, and writing the superblock and the bitmaps.
 */
module Formatting {
  import opened Seqs
  import opened Arith
  import opened Bytes
  import opened Bitmap
  import opened Layouts
  import opened FileSpec
  import opened OnDisk
  import opened Superblocks

  // ----- the size of the device -----

  /** The search for the size of a block device in main: `last` is the largest offset the device can
      seek to. */
  method SearchDeviceSize(last: nat) returns (fsSize: nat)
    ensures fsSize == last
  {
    var delta: nat := 0x4000_0000;
    fsSize := 0;
    while delta > 0
      invariant fsSize <= last
      invariant delta == 0 ==> fsSize == last
      decreases delta, last - fsSize
    {
      var attempted := fsSize + delta;
      if attempted > last {
        delta := delta / 2;
      } else {
        fsSize := attempted;
      }
    }
  }

  // ----- choosing the block size -----

  /** How many blocks of 1 << (7 + log) bytes fit. */
  function BlocksAt(fsSize: nat, log: nat): nat {
    Quotient(fsSize, Pow2(7 + log))
  }

  /** The search loop of mkfs: from 4096 bytes down to 256, the largest block size that splits the
      device into 2000 blocks or more, or 256 bytes when there is none. */
  method ChooseBlockSize(fsSize: nat) returns (blockSize: nat, blockCount: nat)
    ensures 1 <= blockSize <= 5
    ensures blockCount == BlocksAt(fsSize, blockSize)
    ensures blockCount >= 2000 || blockSize == 1
    ensures forall b :: blockSize < b <= 5 ==> BlocksAt(fsSize, b) < 2000
  {
    blockSize, blockCount := 6, 0;
    while blockSize >= 2 && blockCount < 2000
      invariant 1 <= blockSize <= 6
      invariant blockSize == 6 ==> blockCount == 0
      invariant blockSize < 6 ==> blockCount == BlocksAt(fsSize, blockSize)
      invariant forall b :: blockSize < b <= 5 ==> BlocksAt(fsSize, b) < 2000
      decreases blockSize
    {
      blockSize := blockSize - 1;
      blockCount := BlocksAt(fsSize, blockSize);
    }
  }

  // ----- generate_bitmap -----

  /** The low n bits set. */
  function LowOnes(n: nat): byte
    requires n <= 8
  {
    if n == 0 then 0 else (LowOnes(n - 1) << 1) | 1
  }

  lemma OneMoreOne(n: nat)
    ensures (LowOnes(Min(n, 8)) << 1) | 1 == LowOnes(Min(n + 1, 8))
  {
    if n >= 8 {
      assert LowOnes(2) == 3;
      assert LowOnes(4) == 15;
      assert LowOnes(6) == 63;
      assert LowOnes(8) == 255;
    }
  }

  lemma LowOnesAre()
    ensures LowOnes(0) == 0 && LowOnes(1) == 1 && LowOnes(2) == 3 && LowOnes(3) == 7 && LowOnes(4) == 15
    ensures LowOnes(5) == 31 && LowOnes(6) == 63 && LowOnes(7) == 127 && LowOnes(8) == 255
  {
    assert LowOnes(2) == 3;
    assert LowOnes(4) == 15;
    assert LowOnes(6) == 63;
  }

  /** generate_bitmap. The last byte is shifted together bits/8 times, so it has that many ones, at
      most eight; the other bytes are full. */
  method GenerateBitmap(bits: nat) returns (bitmap: array<byte>)
    ensures fresh(bitmap) && bitmap.Length == BitmapBytes(bits)
    ensures forall i :: 0 <= i < bitmap.Length ==>
      bitmap[i] == if i == bitmap.Length - 1 then LowOnes(Min(bits / 8, 8)) else 255
    ensures bitmap.Length == (bits + 7) / 8
    ensures bits > 0 ==>
      bitmap[bitmap.Length - 1] ==
      if bits < 8 then 0 else if bits < 16 then 1 else if bits < 24 then 3 else if bits < 32 then 7
      else if bits < 40 then 15 else if bits < 48 then 31 else if bits < 56 then 63 else if bits < 64 then 127 else 255
  {
    LowOnesAre();
    var bytes := (bits + 7) / 8;
    bitmap := new byte[bytes](i => 0);
    var lastByte: byte := 0;
    var n := 0;
    while n < bits / 8
      invariant n <= bits / 8
      invariant lastByte == LowOnes(Min(n, 8))
    {
      OneMoreOne(n);
      lastByte := (lastByte << 1) | 1;
      n := n + 1;
    }
    while bytes > 0
      invariant 0 <= bytes <= bitmap.Length
      invariant lastByte == if bytes == bitmap.Length then LowOnes(Min(bits / 8, 8)) else 255
      invariant forall i :: bytes <= i < bitmap.Length ==>
        bitmap[i] == if i == bitmap.Length - 1 then LowOnes(Min(bits / 8, 8)) else 255
    {
      bytes := bytes - 1;
      bitmap[bytes] := lastByte;
      lastByte := 0xFF;
    }
  }

  /** Exactly the ids below k are taken. */
  ghost predicate TakenBelow(bits: seq<bool>, k: nat) {
    forall j :: 0 <= j < |bits| ==> bits[j] == (j >= k)
  }

  /** What generate_bitmap makes for this many ids. */
  ghost predicate Generated(s: seq<byte>, bits: nat) {
    && |s| == BitmapBytes(bits)
    && forall i :: 0 <= i < |s| ==> s[i] == if i == |s| - 1 then LowOnes(Min(bits / 8, 8)) else 255
  }

  lemma ShiftedBit(b: byte, k: nat)
    requires k < 8
    ensures BitOf((b << 1) | 1, k) == (k == 0 || BitOf(b, k - 1))
  {}

  lemma {:induction false} LowOnesBits(n: nat, k: nat)
    requires n <= 8 && k < 8
    ensures BitOf(LowOnes(n), k) == (k < n)
  {
    if n > 0 {
      ShiftedBit(LowOnes(n - 1), k);
      if k > 0 {
        LowOnesBits(n - 1, k - 1);
      }
    }
  }

  /** The ids a new bitmap offers are those below this one. */
  function Offered(bits: nat): nat
    requires bits > 0
  {
    8 * (BitmapBytes(bits) - 1) + Min(bits / 8, 8)
  }

  /** Bit j of a new bitmap is set exactly for j below Offered(bits). */
  lemma GeneratedBit(s: seq<byte>, bits: nat, j: nat)
    requires bits > 0 && Generated(s, bits) && j < 8 * |s|
    ensures Bits(s)[j] == (j < Offered(bits))
  {
    LowOnesAre();
    LowOnesBits(if j / 8 == |s| - 1 then Min(bits / 8, 8) else 8, j % 8);
  }

  /** From 64 ids on, the new bitmap has every id free. */
  lemma NewBitmapIsFree(s: seq<byte>, bits: nat)
    requires bits >= 64 && Generated(s, bits)
    ensures TakenBelow(Bits(s), 0)
  {
    forall j | 0 <= j < |Bits(s)|
      ensures Bits(s)[j]
    {
      GeneratedBit(s, bits, j);
    }
  }

  /** When a new bitmap offers every id it is made for: from 64 ids on, and below that when the last
      byte is cut off at no more ids than the number of whole bytes. */
  lemma OffersAllIff(s: seq<byte>, bits: nat)
    requires bits > 0 && Generated(s, bits)
    ensures (forall j :: 0 <= j < bits ==> Bits(s)[j]) <==> bits >= 64 || 0 < bits % 8 <= bits / 8
  {
    forall j | 0 <= j < bits
      ensures Bits(s)[j] == (j < Offered(bits))
    {
      GeneratedBit(s, bits, j);
    }
    assert bits <= Offered(bits) <==> bits >= 64 || 0 < bits % 8 <= bits / 8;
    assert bits > Offered(bits) ==> Bits(s)[bits - 1] == (bits - 1 < Offered(bits));
  }

  /** A device of 2048 bytes gives eight blocks, of which its new block bitmap offers the first only. */
  lemma SmallDeviceOffersOne(s: seq<byte>)
    requires Generated(s, BlocksAt(2048, 1))
    ensures BlocksAt(2048, 1) == 8 && Bits(s)[0] && !Bits(s)[1]
  {
    assert Pow2(4) == 16 && Pow2(8) == 256;
    GeneratedBit(s, 8, 0);
    GeneratedBit(s, 8, 1);
  }

  // ----- reserving blocks -----

  /** allocate_bit of mkudbfs: gives up when the count is used up, else takes the least set bit. */
  method ReserveBit(bitmap: array<byte>, free: nat) returns (ok: bool, id: nat, newFree: nat)
    requires free > 0 ==> exists j :: 0 <= j < bitmap.Length && bitmap[j] != 0
    modifies bitmap
    ensures ok <==> free > 0
    ensures !ok ==> bitmap[..] == old(bitmap[..]) && newFree == free
    ensures ok && free <= 8 * bitmap.Length ==>
      Taken(id, Alloc(Bits(bitmap[..]), newFree)) == Take(Alloc(Bits(old(bitmap[..])), free))
    ensures ok ==>
      var was := Bits(old(bitmap[..]));
      && id < |was| && was[id] && (forall j :: 0 <= j < id ==> !was[j])
      && Bits(bitmap[..]) == was[id := false] && newFree == free - 1
  {
    if free == 0 {
      return false, 0, free;
    }
    ghost var s := bitmap[..];
    var byteIndex: nat := 0;
    while bitmap[byteIndex] == 0
      invariant 0 <= byteIndex < bitmap.Length
      invariant forall k :: 0 <= k < byteIndex ==> s[k] == 0
      decreases bitmap.Length - byteIndex
    {
      byteIndex := byteIndex + 1;
    }
    var bit := FirstBitOf(bitmap[byteIndex]);
    SubtractClearsBit(bitmap[byteIndex], bit);
    XorClearsBit(bitmap[byteIndex], bit);
    var cleared := bitmap[byteIndex] - Mask(bit);
    TakingFound(s, 1, byteIndex, bit, cleared);
    TakeIs(Alloc(Bits(s), 1));
    if free <= 8 * bitmap.Length {
      TakingFound(s, free, byteIndex, bit, cleared);
    }
    bitmap[byteIndex] := cleared;
    assert bitmap[..] == s[byteIndex := cleared];
    ok, id, newFree := true, 8 * byteIndex + bit, free - 1;
  }

  lemma FreeByte(s: seq<byte>, k: nat)
    requires TakenBelow(Bits(s), k) && k < 8 * |s|
    ensures exists j :: 0 <= j < |s| && s[j] != 0
  {
    assert Bits(s)[k];
    assert BitOf(s[k / 8], k % 8);
    NonzeroByteHasBit(s[k / 8]);
  }

  /** Taking from a bitmap whose first k ids are taken gives id k. */
  lemma TakeNext(bits: seq<bool>, free: nat, k: nat)
    requires TakenBelow(bits, k) && k < |bits| && 0 < free <= |bits|
    ensures Take(Alloc(bits, free)).id == k
    ensures Take(Alloc(bits, free)).al.free == free - 1
    ensures TakenBelow(Take(Alloc(bits, free)).al.bits, k + 1) && |Take(Alloc(bits, free)).al.bits| == |bits|
  {
    FirstSetIs(bits, k);
  }

  /** One reservation after k others. */
  method ReserveNext(bitmap: array<byte>, free: nat, ghost k: nat) returns (ok: bool, id: nat, newFree: nat)
    requires TakenBelow(Bits(bitmap[..]), k) && k + free <= 8 * bitmap.Length
    modifies bitmap
    ensures ok <==> free > 0
    ensures ok ==> id == k && newFree == free - 1 && TakenBelow(Bits(bitmap[..]), k + 1)
    ensures !ok ==> newFree == free && bitmap[..] == old(bitmap[..])
  {
    if free > 0 {
      FreeByte(bitmap[..], k);
      TakeNext(Bits(bitmap[..]), free, k);
    }
    ok, id, newFree := ReserveBit(bitmap, free);
  }

  /** n reservations in a row take a contiguous run of ids. */
  method ReserveRun(bitmap: array<byte>, free: nat, n: nat, ghost k: nat) returns (ok: bool, newFree: nat)
    requires TakenBelow(Bits(bitmap[..]), k) && k + free <= 8 * bitmap.Length
    modifies bitmap
    ensures ok <==> n <= free
    ensures ok ==> newFree == free - n && TakenBelow(Bits(bitmap[..]), k + n)
  {
    newFree := free;
    var i := 0;
    while i < n
      invariant 0 <= i <= n && i <= free && newFree == free - i
      invariant TakenBelow(Bits(bitmap[..]), k + i)
    {
      var id;
      ok, id, newFree := ReserveNext(bitmap, newFree, k + i);
      if !ok {
        return;
      }
      i := i + 1;
    }
    ok := true;
  }

  // ----- the regions -----

  const INODE_SIZE: nat := 64

  function RoundUp(x: nat, size: nat): (q: nat)
    requires size > 0
  {
    (x + size - 1) / size
  }

  lemma RoundUpCovers(x: nat, size: nat)
    requires size > 0
    ensures x <= RoundUp(x, size) * size < x + size
    ensures x > 0 ==> RoundUp(x, size) > 0
  {
    var q, r := DivModSplit(x + size - 1, size);
  }

  /** The regions in blocks: the boot area, the inode table, the bitmaps, the root table. */
  datatype Plan = Plan(log: nat, blocks: nat, inodes: nat, boot: nat, table: nat, maps: nat, root: nat)

  function FirstInodeBlock(log: nat): nat {
    if log < 4 then Pow2(4 - log) else 1
  }

  function InodesFor(fsSize: nat): nat {
    if fsSize / (128 * 1024) < 64 then 64 else fsSize / (128 * 1024)
  }

  function PlanFor(fsSize: nat, log: nat, rootSize: nat): Plan {
    var size := Pow2(7 + log);
    var blocks, inodes := BlocksAt(fsSize, log), InodesFor(fsSize);
    Plan(log, blocks, inodes, FirstInodeBlock(log), RoundUp(inodes * INODE_SIZE, size),
         RoundUp(BitmapBytes(inodes) + BitmapBytes(blocks), size), RoundUp(rootSize, size))
  }

  /** Blocks that formatting takes. */
  function Used(p: Plan): nat {
    p.boot + p.table + p.maps + p.root
  }

  /** The block sizes mkfs tries. */
  lemma BlockBytes(log: nat)
    requires 1 <= log <= 5
    ensures Pow2(7 + log) == if log == 1 then 256 else if log == 2 then 512 else if log == 3 then 1024
                             else if log == 4 then 2048 else 4096
    ensures FirstInodeBlock(log) == if log == 1 then 8 else if log == 2 then 4 else if log == 3 then 2 else 1
  {
    assert Pow2(4) == 16;
    assert Pow2(8) == 256;
    assert Pow2(10) == 1024;
    assert Pow2(12) == 4096;
  }

  lemma BlocksAre(fsSize: nat, log: nat)
    ensures BlocksAt(fsSize, log) * Pow2(7 + log) <= fsSize < (BlocksAt(fsSize, log) + 1) * Pow2(7 + log)
  {
    hide Pow2;
    var size := Pow2(7 + log);
    var q, r := DivModSplit(fsSize, size);
    assert (q + 1) * size == q * size + size;
  }

  lemma InodesAre(fsSize: nat)
    ensures if fsSize < 64 * 131072 then InodesFor(fsSize) == 64
            else InodesFor(fsSize) * 131072 <= fsSize < (InodesFor(fsSize) + 1) * 131072
  {}

  /** The numbers of a plan. */
  lemma PlanIs(fsSize: nat, log: nat, rootSize: nat, p: Plan, size: nat)
    requires 1 <= log <= 5 && p == PlanFor(fsSize, log, rootSize)
    requires size == if log == 1 then 256 else if log == 2 then 512 else if log == 3 then 1024
                     else if log == 4 then 2048 else 4096
    ensures p.log == log && Pow2(7 + log) == size
    ensures p.blocks * size <= fsSize < (p.blocks + 1) * size
    ensures p.boot == if log == 1 then 8 else if log == 2 then 4 else if log == 3 then 2 else 1
    ensures if fsSize < 64 * 131072 then p.inodes == 64
            else p.inodes * 131072 <= fsSize < (p.inodes + 1) * 131072
    ensures 64 * p.inodes <= p.table * size < 64 * p.inodes + size
    ensures var bytes := (p.inodes + 7) / 8 + (p.blocks + 7) / 8; bytes <= p.maps * size < bytes + size
    ensures rootSize <= p.root * size < rootSize + size
  {
    hide Pow2, RoundUp, BlocksAt, FirstInodeBlock, InodesFor;
    BlockBytes(log);
    BlocksAre(fsSize, log);
    InodesAre(fsSize);
    RoundUpCovers(p.inodes * INODE_SIZE, size);
    RoundUpCovers(BitmapBytes(p.inodes) + BitmapBytes(p.blocks), size);
    RoundUpCovers(rootSize, size);
  }

  lemma BootAreaHoldsSuperblock(log: nat)
    requires 1 <= log <= 5
    ensures FirstInodeBlock(log) * Pow2(7 + log) >= 2048
    ensures FirstInodeBlock(log) > 0
  {
    assert Pow2(4) == 16;
    assert Pow2(8) == 256;
    assert Pow2(10) == 1024;
    assert Pow2(12) == 4096;
  }

  /** The formatted device as mounting finds it. */
  ghost predicate Formatted(dev: seq<byte>, p: Plan, m: Mounted) {
    && ReadMount(dev) == Mountable(m)
    && m.sb.blockSize as nat == p.log
    && m.sb.blockCount == p.blocks && m.sb.inodeCount == p.inodes
    && m.sb.inodeFirstBlock == p.boot && m.sb.bitmapsBlock == p.boot + p.table
    && |m.blockBits| == BitmapBytes(p.blocks) && |m.inodeBits| == BitmapBytes(p.inodes)
    && Used(p) <= p.blocks
    && TakenBelow(Bits(m.blockBits), Used(p)) && m.sb.freeBlockCount == p.blocks - Used(p)
    && TakenBelow(Bits(m.inodeBits), 3) && m.sb.freeInodeCount == p.inodes - 3
    && m.sb.badBlockInode == 1 && m.sb.journalInode == 2
    && m.sb.lastCheck == 0 && m.sb.maxInterval == 0 && m.sb.lastMount == 0
    && m.sb.mountCount == 0 && m.sb.maxMountCount == 0 && m.sb.creatorOs == 0 && m.sb.inodeFormat == 1
  }

  // ----- the root table's file -----

  /** Block i of the data, filled up with zeros. */
  function BlockOf(data: seq<byte>, size: nat, i: nat): (s: seq<byte>)
    requires size > 0
    ensures |s| == size
  {
    seq(size, j requires 0 <= j < size => if i * size + j < |data| then data[i * size + j] else 0)
  }

  /** The first n blocks of the data stored under the ids from k on. */
  function FillBlocks(dev: seq<byte>, size: nat, data: seq<byte>, k: nat, n: nat): (r: seq<byte>)
    requires size > 0
    ensures |r| == |dev|
  {
    if n == 0 then dev
    else Store(FillBlocks(dev, size, data, k, n - 1), size * (k + (n - 1)), BlockOf(data, size, n - 1))
  }

  /** The tree of a file of n direct blocks with the ids from k on. */
  function SmallTree(k: nat, n: nat): Layout {
    map i: nat | i < n :: Leaf(i) := k + i
  }

  /** A file that fits in the direct blocks, written out under the ids from k on, and its record. */
  function CloseSmall(dev: seq<byte>, size: nat, rec: nat, data: seq<byte>, k: nat): (r: seq<byte>)
    requires size > 0
    ensures |r| == |dev|
  {
    var n := RoundUp(|data|, size);
    Store(FillBlocks(dev, size, data, k, n), rec, Record(SmallTree(k, n), |data|))
  }

  /** The direct ids of the record. */
  function SmallIds(k: nat, n: nat): (ids: seq<nat>)
    ensures |ids| == 4
  {
    seq(4, i requires 0 <= i < 4 => if i < n then k + i else 0)
  }

  lemma SmallRecord(k: nat, n: nat, size: nat)
    requires n <= 4
    ensures Words([size] + SmallIds(k, n) + [0, 0, 0]) == Record(SmallTree(k, n), size)
  {
    var lay := SmallTree(k, n);
    assert [size] + SmallIds(k, n) + [0, 0, 0] == [size] + seq(7, j requires 0 <= j < 7 => Id(lay, Root(j)));
  }

  lemma FillStep(dev: seq<byte>, size: nat, data: seq<byte>, k: nat, i: nat)
    requires size > 0
    ensures FillBlocks(dev, size, data, k, 0) == dev && SmallIds(k, 0) == [0, 0, 0, 0]
    ensures FillBlocks(dev, size, data, k, i + 1) ==
            Store(FillBlocks(dev, size, data, k, i), size * (k + i), BlockOf(data, size, i))
    ensures i < 4 ==> SmallIds(k, i + 1) == SmallIds(k, i)[i := k + i]
  {}

  /** close_file for a file that fits in the direct blocks: each block gets an id and is written, then
      the inode record. */
  method CloseSmallFile(device: Device, bitmap: array<byte>, free: nat, size: nat, inode: nat, table: nat,
                        data: seq<byte>, ghost k: nat) returns (ok: bool, newFree: nat)
    requires size > 0 && RoundUp(|data|, size) <= 4
    requires TakenBelow(Bits(bitmap[..]), k) && k + free <= 8 * bitmap.Length
    modifies device, bitmap
    ensures |device.bytes| == old(|device.bytes|)
    ensures ok <==> RoundUp(|data|, size) <= free
    ensures ok ==> newFree == free - RoundUp(|data|, size)
    ensures ok ==> TakenBelow(Bits(bitmap[..]), k + RoundUp(|data|, size))
    ensures ok ==> device.bytes == CloseSmall(old(device.bytes), size, inode * INODE_SIZE + table, data, k)
  {
    hide RoundUp, TakenBelow, Record, FillBlocks, SmallIds, Words, SmallTree, Store, BlockOf;
    FillStep(device.bytes, size, data, k, 0);
    var ids: seq<nat> := [0, 0, 0, 0];
    newFree := free;
    var i := 0;
    while i < RoundUp(|data|, size)
      invariant 0 <= i <= RoundUp(|data|, size) && i <= free && newFree == free - i && ids == SmallIds(k, i)
      invariant device.bytes == FillBlocks(old(device.bytes), size, data, k, i)
      invariant TakenBelow(Bits(bitmap[..]), k + i)
    {
      var id;
      ok, id, newFree := ReserveNext(bitmap, newFree, k + i);
      if !ok {
        return;
      }
      FillStep(old(device.bytes), size, data, k, i);
      ids := ids[i := id];
      var _ := device.Write(size * id, BlockOf(data, size, i));
      i := i + 1;
    }
    SmallRecord(k, i, |data|);
    var _ := device.Write(inode * INODE_SIZE + table, Words([|data|] + ids + [0, 0, 0]));
    ok := true;
  }

  /** A block stored elsewhere leaves the bytes from `at` on alone. */
  lemma StoredApart(d: seq<byte>, off: nat, s: seq<byte>, at: nat, size: nat)
    requires at + size <= |d| && at + size <= off
    ensures Store(d, off, s)[at..at + size] == d[at..at + size]
  {
    SameSlice(Store(d, off, s), d, at, at + size);
  }

  /** Block i, once stored, stays: the blocks have different ids. */
  lemma {:induction false} BlockStored(dev: seq<byte>, size: nat, data: seq<byte>, k: nat, n: nat, i: nat)
    requires size > 0 && i < n && (k + n) * size <= |dev|
    ensures (k + i) * size + size <= |dev|
    ensures FillBlocks(dev, size, data, k, n)[(k + i) * size..(k + i) * size + size] == BlockOf(data, size, i)
  {
    hide Store, BlockOf;
    var last := k + (n - 1);
    BlockEnd(last, k + n, size);
    if i < n - 1 {
      BlockEnd(k + i, last, size);
      BlockStored(dev, size, data, k, n - 1, i);
      StoredApart(FillBlocks(dev, size, data, k, n - 1), size * last, BlockOf(data, size, n - 1), (k + i) * size, size);
    }
  }

  lemma SmallTreeStorable(g: Geo, k: nat, n: nat, rec: nat, size: nat, room: nat)
    requires g.bs == 8 * g.p && n <= 4 && k + n <= WORD_LIMIT && size < WORD_LIMIT && rec + RECORD_SIZE <= room
    ensures Storable(g, SmallTree(k, n), rec, size, room)
  {}

  /** Byte c of the file is byte r of block i. */
  lemma SmallAddress(g: Geo, len: nat, k: nat, c: nat) returns (i: nat, r: nat)
    requires c < len
    ensures i < RoundUp(len, g.bs) && r < g.bs && c == i * g.bs + r
    ensures Address(g, SmallTree(k, RoundUp(len, g.bs)), c) == (k + i) * g.bs + r
  {
    var n := RoundUp(len, g.bs);
    i, r := DivModSplit(c, g.bs);
    RoundUpCovers(len, g.bs);
    if i >= n { MulMono(n, i, g.bs); }
  }

  lemma ByteOfBlock(d: seq<byte>, a: nat, s: seq<byte>, r: nat)
    requires a + |s| <= |d| && d[a..a + |s|] == s && r < |s|
    ensures d[a + r] == s[r]
  {
    assert d[a + r] == d[a..a + |s|][r];
  }

  lemma ByteOfData(data: seq<byte>, size: nat, i: nat, r: nat)
    requires r < size && i * size + r < |data|
    ensures BlockOf(data, size, i)[r] == data[i * size + r]
  {}

  /** The record and the blocks of a small file are on the device. */
  ghost predicate SmallThere(dev: seq<byte>, size: nat, rec: nat, data: seq<byte>, k: nat)
    requires size > 0
  {
    var n := RoundUp(|data|, size);
    && rec + RECORD_SIZE <= |dev| && (k + n) * size <= |dev|
    && dev[rec..rec + RECORD_SIZE] == Record(SmallTree(k, n), |data|)
    && forall i :: 0 <= i < n ==> BlockThere(dev, size, data, k, i)
  }

  ghost predicate BlockThere(dev: seq<byte>, size: nat, data: seq<byte>, k: nat, i: nat)
    requires size > 0
  {
    (k + i) * size + size <= |dev| && dev[(k + i) * size..(k + i) * size + size] == BlockOf(data, size, i)
  }

  /** mkudbfs leaves a small file on the device. */
  lemma CloseSmallStores(dev: seq<byte>, size: nat, rec: nat, data: seq<byte>, k: nat)
    requires size > 0 && rec + RECORD_SIZE <= k * size && (k + RoundUp(|data|, size)) * size <= |dev|
    ensures SmallThere(CloseSmall(dev, size, rec, data, k), size, rec, data, k)
  {
    hide RoundUp, FillBlocks, Record, SmallTree, Store, BlockOf;
    var n := RoundUp(|data|, size);
    MulMono(k, k + n, size);
    var filled, record := FillBlocks(dev, size, data, k, n), Record(SmallTree(k, n), |data|);
    StoredHere(filled, rec, record);
    forall i | 0 <= i < n
      ensures BlockThere(CloseSmall(dev, size, rec, data, k), size, data, k, i)
    {
      BlockStored(dev, size, data, k, n, i);
      MulMono(k, k + i, size);
      StoredBefore(filled, rec, record, (k + i) * size, size);
    }
  }

  lemma StoredHere(d: seq<byte>, off: nat, s: seq<byte>)
    requires off + |s| <= |d|
    ensures Store(d, off, s)[off..off + |s|] == s
  {}

  lemma StoredBefore(d: seq<byte>, off: nat, s: seq<byte>, at: nat, size: nat)
    requires at + size <= |d| && off + |s| <= at
    ensures Store(d, off, s)[at..at + size] == d[at..at + size]
  {
    SameSlice(Store(d, off, s), d, at, at + size);
  }

  /** A small file stays as long as its record and its blocks do. */
  lemma SmallStays(dev: seq<byte>, dev': seq<byte>, size: nat, rec: nat, data: seq<byte>, k: nat)
    requires size > 0 && SmallThere(dev, size, rec, data, k) && |dev'| == |dev|
    requires forall a :: rec <= a < rec + RECORD_SIZE ==> dev'[a] == dev[a]
    requires forall a :: k * size <= a < (k + RoundUp(|data|, size)) * size ==> dev'[a] == dev[a]
    ensures SmallThere(dev', size, rec, data, k)
  {
    hide RoundUp, Record, SmallTree, BlockOf;
    var n := RoundUp(|data|, size);
    SameSlice(dev', dev, rec, rec + RECORD_SIZE);
    forall i | 0 <= i < n
      ensures BlockThere(dev', size, data, k, i)
    {
      assert BlockThere(dev, size, data, k, i);
      MulMono(k, k + i, size);
      BlockEnd(k + i, k + n, size);
      SameSlice(dev', dev, (k + i) * size, (k + i) * size + size);
    }
  }

  lemma SmallByte(g: Geo, dev: seq<byte>, rec: nat, data: seq<byte>, k: nat, c: nat)
    requires SmallThere(dev, g.bs, rec, data, k) && c < |data|
    ensures var lay := SmallTree(k, RoundUp(|data|, g.bs));
      DeviceByte(dev, Address(g, lay, c)) == data[c]
  {
    hide RoundUp, Record, SmallTree, Address, BlockOf;
    var i, r := SmallAddress(g, |data|, k, c);
    assert BlockThere(dev, g.bs, data, k, i);
    ByteOfBlock(dev, (k + i) * g.bs, BlockOf(data, g.bs, i), r);
    ByteOfData(data, g.bs, i, r);
  }

  /** The record leads to a file with this content. */
  ghost predicate Opens(g: Geo, dev: seq<byte>, rec: nat, content: seq<byte>)
    requires g.bs == 8 * g.p
  {
    && rec + RECORD_SIZE <= |dev|
    && Load(g, dev, rec).ok && Word(dev, rec) == |content|
    && Content(g, dev, Load(g, dev, rec).lay, |content|) == content
  }

  lemma SmallRecordStored(dev: seq<byte>, lay: Layout, rec: nat, size: nat)
    requires rec + RECORD_SIZE <= |dev| && dev[rec..rec + RECORD_SIZE] == Record(lay, size) && size < WORD_LIMIT
    requires forall s :: s in lay ==> lay[s] < WORD_LIMIT
    ensures RecordStored(dev, lay, rec, size)
  {
    hide Record, RecordStored;
    assert Store(dev, rec, Record(lay, size)) == dev;
    RecordIsStored(dev, lay, rec, size);
  }

  /** The library can open a small file that mkudbfs has left: the record leads to a file with the same bytes. */
  lemma SmallFileOpens(g: Geo, dev: seq<byte>, rec: nat, data: seq<byte>, k: nat)
    requires g.bs == 8 * g.p && RoundUp(|data|, g.bs) <= 4 && k > 0
    requires k + RoundUp(|data|, g.bs) <= WORD_LIMIT && |data| < WORD_LIMIT
    requires SmallThere(dev, g.bs, rec, data, k)
    ensures Opens(g, dev, rec, data)
  {
    hide Load, Storable, RoundUp, Record, DeviceByte, RecordStored, Address;
    var lay := SmallTree(k, RoundUp(|data|, g.bs));
    SmallTreeStorable(g, k, RoundUp(|data|, g.bs), rec, |data|, |dev|);
    SmallRecordStored(dev, lay, rec, |data|);
    ReloadIsPad(g, dev, lay, rec, |data|);
    PadContent(g, dev, lay, |data|);
    forall c: nat | c < |data|
      ensures DeviceByte(dev, Address(g, lay, c)) == data[c]
    {
      SmallByte(g, dev, rec, data, k, c);
    }
    ContentIs(g, dev, lay, data);
  }

  // ----- mkfs -----

  /** The last writes: the superblock with the padding of its C structure, then both bitmaps. */
  function FormatSave(dev: seq<byte>, m: Mounted, pad: seq<byte>): (r: seq<byte>)
    ensures |r| == |dev|
  {
    Store(Store(Store(dev, SUPER_OFFSET, EncodeSuper(m.sb) + pad),
                BlockBitmapOffset(m.sb), m.blockBits),
          InodeBitmapOffset(m.sb), m.inodeBits)
  }

  lemma FormatRoundTrip(dev: seq<byte>, m: Mounted, pad: seq<byte>)
    requires Representable(m.sb) && Acceptable(m.sb) && RoomForMount(m, |dev|)
    requires SUPER_OFFSET + SUPER_SIZE + |pad| <= BlockBitmapOffset(m.sb)
    ensures ReadMount(FormatSave(dev, m, pad)) == Mountable(m)
  {
    var b, i := BlockBitmapOffset(m.sb), InodeBitmapOffset(m.sb);
    var s := EncodeSuper(m.sb) + pad;
    var d1 := Store(dev, SUPER_OFFSET, s);
    var d2 := Store(d1, b, m.blockBits);
    var d3 := FormatSave(dev, m, pad);
    SuperRoundTrip(m.sb);
    assert d3[SUPER_OFFSET..SUPER_OFFSET + SUPER_SIZE] == d1[SUPER_OFFSET..SUPER_OFFSET + SUPER_SIZE];
    assert d1[SUPER_OFFSET..SUPER_OFFSET + SUPER_SIZE] == s[..SUPER_SIZE] == EncodeSuper(m.sb);
    assert d3[b..i] == d2[b..i] == m.blockBits;
    assert d3[i..i + |m.inodeBits|] == m.inodeBits;
  }

  /** The regions of a plan lie one after the other, each holds what goes there, and all lie on the
      device. */
  lemma PlanFits(fsSize: nat, log: nat, rootSize: nat, p: Plan, size: nat)
    requires 1 <= log <= 5 && p == PlanFor(fsSize, log, rootSize) && size == Pow2(7 + log)
    ensures SUPER_OFFSET + SUPER_SIZE + 2 <= p.boot * size
    ensures p.inodes * INODE_SIZE <= p.table * size
    ensures BitmapBytes(p.blocks) + BitmapBytes(p.inodes) <= p.maps * size && p.maps > 0
    ensures p.blocks * size <= fsSize
  {
    BootAreaHoldsSuperblock(log);
    RoundUpCovers(p.inodes * INODE_SIZE, size);
    RoundUpCovers(BitmapBytes(p.inodes) + BitmapBytes(p.blocks), size);
    var q, r := DivModSplit(fsSize, size);
  }

  /** The superblock mkfs fills in. Three of its fields are never set and keep what was in memory. */
  function NewSuper(junk: Super, p: Plan, bitmapsBlock: nat, bad: nat, journal: nat,
                    freeBlocks: nat, freeInodes: nat): Super
    requires p.log < 256
  {
    junk.(inodeFirstBlock := p.boot, blockCount := p.blocks, inodeCount := p.inodes,
          freeBlockCount := freeBlocks, freeInodeCount := freeInodes, bitmapsBlock := bitmapsBlock,
          badBlockInode := bad, journalInode := journal, magic := MAGIC, lastCheck := 0,
          maxInterval := 0, lastMount := 0,
          mountCount := 0, maxMountCount := 0, creatorOs := 0, version := 1, blockSize := p.log as byte,
          inodeFormat := 1)
  }

  /** The fields the superblock of a plan has. */
  lemma NewSuperFits(fsSize: nat, log: nat, rootSize: nat, p: Plan, junk: Super, freeBlocks: nat, freeInodes: nat)
    requires 1 <= log <= 5 && p == PlanFor(fsSize, log, rootSize) && Used(p) <= p.blocks && fsSize < WORD_LIMIT
    requires Representable(junk) && freeBlocks <= p.blocks && freeInodes <= p.inodes
    ensures var sb := NewSuper(junk, p, p.boot + p.table, 1, 2, freeBlocks, freeInodes);
      && Representable(sb) && Acceptable(sb)
      && BlockSize(sb) == Pow2(7 + log) && sb.blockSize as nat == log
  {
    var sb := NewSuper(junk, p, p.boot + p.table, 1, 2, freeBlocks, freeInodes);
    BlocksBelow(fsSize, log);
    assert forall j :: 0 <= j < 14 ==> SuperWords(junk)[j] < WORD_LIMIT;
    assert SuperWords(junk)[0] == junk.bootLoaderInode && SuperWords(junk)[2] == junk.signature;
    ByteRoundTrip(log);
  }

  lemma BlocksBelow(fsSize: nat, log: nat)
    ensures BlocksAt(fsSize, log) <= fsSize
  {
    var q, r := DivModSplit(fsSize, Pow2(7 + log));
    MulMono(1, Pow2(7 + log), q);
  }

  /** The bitmaps of a plan lie where the superblock says, past it and on the device. */
  lemma MapsFit(fsSize: nat, log: nat, rootSize: nat, p: Plan, m: Mounted, room: nat)
    requires 1 <= log <= 5 && p == PlanFor(fsSize, log, rootSize) && Used(p) <= p.blocks && fsSize <= room
    requires m.sb.bitmapsBlock == p.boot + p.table && BlockSize(m.sb) == Pow2(7 + log)
    requires m.sb.blockCount == p.blocks && m.sb.inodeCount == p.inodes
    requires |m.blockBits| == BitmapBytes(p.blocks) && |m.inodeBits| == BitmapBytes(p.inodes)
    ensures RoomForMount(m, room)
    ensures SUPER_OFFSET + SUPER_SIZE + 2 <= BlockBitmapOffset(m.sb)
  {
    hide Pow2, PlanFor, RoundUp, BitmapBytes, BlocksAt;
    var size := Pow2(7 + log);
    PlanFits(fsSize, log, rootSize, p, size);
    MapsFitInBlocks(p, size, fsSize);
  }

  lemma MapsFitInBlocks(p: Plan, size: nat, fsSize: nat)
    requires Used(p) <= p.blocks && p.blocks * size <= fsSize
    ensures p.boot * size <= (p.boot + p.table) * size
    ensures (p.boot + p.table) * size + p.maps * size <= fsSize
  {
    MulMono(p.boot, p.boot + p.table, size);
    MulMono(p.boot + p.table + p.maps, p.blocks, size);
    assert (p.boot + p.table + p.maps) * size == (p.boot + p.table) * size + p.maps * size;
  }

  /** The reservations for the boot area, the inode table and the bitmaps. */
  method ReserveAreas(bitmap: array<byte>, free: nat, boot: nat, table: nat, maps: nat)
    returns (ok: bool, bitmapsBlock: nat, newFree: nat)
    requires TakenBelow(Bits(bitmap[..]), 0) && free <= 8 * bitmap.Length && maps > 0
    modifies bitmap
    ensures ok <==> boot + table + maps <= free
    ensures ok ==> bitmapsBlock == boot + table && newFree == free - boot - table - maps
    ensures ok ==> TakenBelow(Bits(bitmap[..]), boot + table + maps)
  {
    bitmapsBlock := 0;
    ok, newFree := ReserveRun(bitmap, free, boot, 0);
    if !ok {
      return;
    }
    ok, newFree := ReserveRun(bitmap, newFree, table, boot);
    if !ok {
      return;
    }
    ok, bitmapsBlock, newFree := ReserveNext(bitmap, newFree, boot + table);
    if !ok {
      return;
    }
    ok, newFree := ReserveRun(bitmap, newFree, maps - 1, boot + table + 1);
  }

  /** generate_bitmap for at least 64 ids: all of them free. */
  method FreshBitmap(bits: nat) returns (bitmap: array<byte>)
    requires bits >= 64
    ensures fresh(bitmap) && bitmap.Length == BitmapBytes(bits) && TakenBelow(Bits(bitmap[..]), 0)
    ensures bits <= 8 * bitmap.Length
  {
    bitmap := GenerateBitmap(bits);
    NewBitmapIsFree(bitmap[..], bits);
  }

  /** The root table's file and the two empty ones, written out one after the other. */
  function FilesMade(dev: seq<byte>, size: nat, table: nat, rootTable: seq<byte>, k: nat): seq<byte>
    requires size > 0
  {
    var k' := k + RoundUp(|rootTable|, size);
    CloseSmall(CloseSmall(CloseSmall(dev, size, table, rootTable, k), size, INODE_SIZE + table, [], k'),
               size, 2 * INODE_SIZE + table, [], k')
  }

  /** The record of an empty file is all zeros. */
  lemma EmptyRecord(k: nat, b: nat)
    requires b < 64
    ensures Record(SmallTree(k, 0), 0)[b] == 0
  {
    hide Record;
    var s, j, i := Record(SmallTree(k, 0), 0), b / 8, b % 8;
    RecordWord(SmallTree(k, 0), 0, j);
    WordByte(0, i);
    assert s[b] == s[8 * j..8 * j + 8][i];
  }

  lemma EmptyFileIsZero(dev: seq<byte>, size: nat, at: nat, k: nat, a: nat)
    requires size > 0 && at + 64 <= |dev| && a < |dev|
    ensures CloseSmall(dev, size, at, [], k)[a] == if at <= a < at + 64 then 0 else dev[a]
  {
    hide Record;
    NoBlocks(size);
    assert FillBlocks(dev, size, [], k, 0) == dev;
    if at <= a < at + 64 {
      EmptyRecord(k, a - at);
      assert CloseSmall(dev, size, at, [], k)[at..at + 64][a - at] == Record(SmallTree(k, 0), 0)[a - at];
    }
  }

  /** The records of inodes 1 and 2 are all zeros. */
  lemma EmptyRecordsMade(dev: seq<byte>, size: nat, table: nat, rootTable: seq<byte>, k: nat)
    requires size > 0 && table + 192 <= |dev|
    ensures |FilesMade(dev, size, table, rootTable, k)| == |dev|
    ensures forall a :: table + 64 <= a < table + 192 ==> FilesMade(dev, size, table, rootTable, k)[a] == 0
  {
    hide CloseSmall, RoundUp;
    var j := k + RoundUp(|rootTable|, size);
    var d1 := CloseSmall(dev, size, table, rootTable, k);
    var d2 := CloseSmall(d1, size, INODE_SIZE + table, [], j);
    forall a | table + 64 <= a < table + 192
      ensures FilesMade(dev, size, table, rootTable, k)[a] == 0
    {
      EmptyFileIsZero(d1, size, 64 + table, j, a);
      EmptyFileIsZero(d2, size, 128 + table, j, a);
    }
  }

  /** The three inodes of the root table, the bad blocks and the journal, and the blocks of the first. The
      records of the other two are all zeros: empty files without blocks. */
  method MakeFiles(device: Device, blockBitmap: array<byte>, inodeBitmap: array<byte>, freeBlocks: nat,
                   freeInodes: nat, size: nat, table: nat, rootTable: seq<byte>, ghost k: nat)
    returns (ok: bool, bad: nat, journal: nat, newBlocks: nat, newInodes: nat)
    requires size > 0 && RoundUp(|rootTable|, size) <= 4 && blockBitmap != inodeBitmap
    requires TakenBelow(Bits(blockBitmap[..]), k) && k + freeBlocks <= 8 * blockBitmap.Length
    requires TakenBelow(Bits(inodeBitmap[..]), 0) && 3 <= freeInodes <= 8 * inodeBitmap.Length
    modifies device, blockBitmap, inodeBitmap
    ensures |device.bytes| == old(|device.bytes|)
    ensures ok <==> RoundUp(|rootTable|, size) <= freeBlocks
    ensures ok ==> newBlocks == freeBlocks - RoundUp(|rootTable|, size) && newInodes == freeInodes - 3
    ensures ok ==> TakenBelow(Bits(blockBitmap[..]), k + RoundUp(|rootTable|, size))
    ensures ok ==> TakenBelow(Bits(inodeBitmap[..]), 3) && bad == 1 && journal == 2
    ensures ok ==> device.bytes == FilesMade(old(device.bytes), size, table, rootTable, k)
    ensures ok && table + 192 <= |device.bytes| ==> forall a :: table + 64 <= a < table + 192 ==> device.bytes[a] == 0
  {
    hide CloseSmall, FilesMade;
    newBlocks, bad, journal := freeBlocks, 0, 0;
    var root, done;
    done, root, newInodes := ReserveNext(inodeBitmap, freeInodes, 0);
    ok, newBlocks := CloseSmallFile(device, blockBitmap, freeBlocks, size, root, table, rootTable, k);
    if !ok {
      return;
    }
    ghost var k' := k + RoundUp(|rootTable|, size);
    NoBlocks(size);
    done, bad, newInodes := ReserveNext(inodeBitmap, newInodes, 1);
    done, newBlocks := CloseSmallFile(device, blockBitmap, newBlocks, size, bad, table, [], k');
    done, journal, newInodes := ReserveNext(inodeBitmap, newInodes, 2);
    done, newBlocks := CloseSmallFile(device, blockBitmap, newBlocks, size, journal, table, [], k');
    FilesAre(old(device.bytes), size, table, rootTable, k);
    if table + 192 <= |device.bytes| {
      EmptyRecordsMade(old(device.bytes), size, table, rootTable, k);
    }
  }

  lemma FilesAre(dev: seq<byte>, size: nat, table: nat, rootTable: seq<byte>, k: nat)
    requires size > 0
    ensures var k' := k + RoundUp(|rootTable|, size);
      FilesMade(dev, size, table, rootTable, k) ==
      CloseSmall(CloseSmall(CloseSmall(dev, size, table, rootTable, k), size, INODE_SIZE + table, [], k'),
                 size, 2 * INODE_SIZE + table, [], k')
  {}

  lemma NoBlocks(size: nat)
    requires size > 0
    ensures RoundUp(0, size) == 0
  {
    DivModIs(size - 1, size, 0, size - 1);
  }

  /** A root table of at most four of the smallest blocks fits in the direct blocks. */
  lemma RootFitsDirect(rootSize: nat, log: nat)
    requires rootSize <= 1024 && 1 <= log
    ensures RoundUp(rootSize, Pow2(7 + log)) <= 4
  {
    var size := Pow2(7 + log);
    Pow2Splits(7 + log, 8);
    assert Pow2(8) == 256;
    MulMono(1, Pow2(log - 1), 256);
    RoundUpCovers(rootSize, size);
    if RoundUp(rootSize, size) > 4 {
      MulMono(5, RoundUp(rootSize, size), size);
    }
  }

  lemma EnoughBlocks(fsSize: nat, log: nat)
    requires fsSize >= 64 * 256 && (BlocksAt(fsSize, log) >= 2000 || log == 1)
    ensures BlocksAt(fsSize, log) >= 64
  {
    assert Pow2(4) == 16 && Pow2(8) == 256;
  }

  /** The last writes of mkfs. */
  method WriteFormat(device: Device, superblock: Super, blockBitmap: array<byte>, inodeBitmap: array<byte>,
                     pad: seq<byte>)
    requires blockBitmap.Length == BitmapBytes(superblock.blockCount)
    modifies device
    ensures device.bytes ==
            FormatSave(old(device.bytes), Mounted(superblock, blockBitmap[..], inodeBitmap[..]), pad)
  {
    hide EncodeSuper, BitmapBytes, Pow2, Store;
    var _ := device.Write(SUPER_OFFSET, EncodeSuper(superblock) + pad);
    var offset := BlockSize(superblock) * superblock.bitmapsBlock;
    var _ := device.Write(offset, blockBitmap[..]);
    var _ := device.Write(offset + blockBitmap.Length, inodeBitmap[..]);
  }

  lemma IsFormatted(dev: seq<byte>, fsSize: nat, log: nat, rootSize: nat, p: Plan, junk: Super, m: Mounted,
                    pad: seq<byte>)
    requires 1 <= log <= 5 && p == PlanFor(fsSize, log, rootSize) && Used(p) <= p.blocks
    requires fsSize <= |dev| && fsSize < WORD_LIMIT && Representable(junk) && |pad| == 2 && p.inodes >= 3
    requires m.sb == NewSuper(junk, p, p.boot + p.table, 1, 2, p.blocks - Used(p), p.inodes - 3)
    requires |m.blockBits| == BitmapBytes(p.blocks) && |m.inodeBits| == BitmapBytes(p.inodes)
    requires TakenBelow(Bits(m.blockBits), Used(p)) && TakenBelow(Bits(m.inodeBits), 3)
    ensures Formatted(FormatSave(dev, m, pad), p, m) && m.sb.blockCount == p.blocks
  {
    hide Bits, TakenBelow, RoundUp, BlocksAt, InodesFor, FirstInodeBlock, Pow2, BitmapBytes, FormatSave,
      ReadMount, RoomForMount;
    NewSuperFits(fsSize, log, rootSize, p, junk, p.blocks - Used(p), p.inodes - 3);
    MapsFit(fsSize, log, rootSize, p, m, |dev|);
    FormatRoundTrip(dev, m, pad);
  }

  /** The numbers mkfs works with: block size and count, the boot area, the inode count and the sizes
      of the areas. */
  method ChoosePlan(fsSize: nat, rootSize: nat) returns (p: Plan)
    requires fsSize >= 64 * 256
    ensures 1 <= p.log <= 5 && p == PlanFor(fsSize, p.log, rootSize)
    ensures p.blocks >= 2000 || p.log == 1
    ensures forall b :: p.log < b <= 5 ==> BlocksAt(fsSize, b) < 2000
    ensures p.blocks >= 64 && p.inodes >= 64
    ensures if fsSize < 64 * 131072 then p.inodes == 64
            else p.inodes * 131072 <= fsSize < (p.inodes + 1) * 131072
  {
    hide RoundUp, BitmapBytes, BlocksAt, Pow2;
    var log, blockCount := ChooseBlockSize(fsSize);
    EnoughBlocks(fsSize, log);
    var size := Pow2(7 + log);
    var boot := 1;
    if log < 4 {
      boot := Pow2(4 - log);
    }
    var inodeCount := fsSize / (128 * 1024);
    if inodeCount < 64 {
      inodeCount := 64;
    }
    p := Plan(log, blockCount, inodeCount, boot, RoundUp(inodeCount * INODE_SIZE, size),
              RoundUp(BitmapBytes(inodeCount) + BitmapBytes(blockCount), size), RoundUp(rootSize, size));
  }

  /** The root table is the file of inode 0, in the blocks right behind the bitmaps. */
  ghost predicate RootThere(dev: seq<byte>, p: Plan, rootTable: seq<byte>) {
    var size := Pow2(7 + p.log);
    SmallThere(dev, size, p.boot * size, rootTable, p.boot + p.table + p.maps)
  }

  /** The records of the bad blocks and the journal are all zeros. */
  ghost predicate EmptyThere(dev: seq<byte>, p: Plan) {
    var at := p.boot * Pow2(7 + p.log);
    at + 192 <= |dev| && forall a: nat :: at + 64 <= a < at + 192 ==> dev[a] == 0
  }

  /** Where the root table lies among the other areas. */
  lemma RootPlaces(fsSize: nat, p: Plan, rootSize: nat, size: nat, table: nat, k: nat)
    requires 1 <= p.log <= 5 && p == PlanFor(fsSize, p.log, rootSize) && Used(p) <= p.blocks
    requires size == Pow2(7 + p.log) && table == p.boot * size && k == p.boot + p.table + p.maps && p.inodes >= 3
    ensures size > 0 && p.root == RoundUp(rootSize, size) && (k + p.root) * size <= fsSize
    ensures SUPER_OFFSET + SUPER_SIZE + 2 <= table && table + 3 * INODE_SIZE <= (p.boot + p.table) * size
    ensures (p.boot + p.table) * size + BitmapBytes(p.blocks) + BitmapBytes(p.inodes) <= k * size
  {
    hide Pow2, RoundUp, BitmapBytes, BlocksAt, InodesFor, FirstInodeBlock;
    PlanFits(fsSize, p.log, rootSize, p, size);
    RootOf(fsSize, p.log, rootSize, p);
    assert (p.boot + p.table) * size == table + p.table * size;
    assert k * size == (p.boot + p.table) * size + p.maps * size;
    MulMono(k + p.root, p.blocks, size);
  }

  /** What mkfs writes after the root table lies elsewhere. */
  lemma RootStays(dev: seq<byte>, fsSize: nat, p: Plan, rootTable: seq<byte>, m: Mounted, pad: seq<byte>)
    requires 1 <= p.log <= 5 && p == PlanFor(fsSize, p.log, |rootTable|) && Used(p) <= p.blocks && fsSize <= |dev|
    requires |pad| == 2 && p.inodes >= 3
    requires m.sb.blockSize as nat == p.log && m.sb.bitmapsBlock == p.boot + p.table && m.sb.blockCount == p.blocks
    requires |m.blockBits| == BitmapBytes(p.blocks) && |m.inodeBits| == BitmapBytes(p.inodes)
    ensures var size := Pow2(7 + p.log);
      RootThere(FormatSave(FilesMade(dev, size, p.boot * size, rootTable, p.boot + p.table + p.maps), m, pad), p,
                rootTable)
  {
    hide Pow2, RoundUp, CloseSmall, EncodeSuper, BitmapBytes, BlocksAt, SmallThere, Store, FormatSave, PlanFor, Used;
    var size, k := Pow2(7 + p.log), p.boot + p.table + p.maps;
    var table := p.boot * size;
    RootPlaces(fsSize, p, |rootTable|, size, table, k);
    FilesStay(dev, size, table, rootTable, k);
    SavedApart(FilesMade(dev, size, table, rootTable, k), m, pad, size, table, rootTable, k);
  }

  lemma FilesStay(dev: seq<byte>, size: nat, table: nat, rootTable: seq<byte>, k: nat)
    requires size > 0 && (k + RoundUp(|rootTable|, size)) * size <= |dev| && table + 3 * INODE_SIZE <= k * size
    ensures SmallThere(FilesMade(dev, size, table, rootTable, k), size, table, rootTable, k)
  {
    hide RoundUp, CloseSmall, SmallThere;
    var j := k + RoundUp(|rootTable|, size);
    CloseSmallStores(dev, size, table, rootTable, k);
    var d1 := CloseSmall(dev, size, table, rootTable, k);
    EmptyFileApart(d1, size, INODE_SIZE + table, j, table, rootTable, k);
    var d2 := CloseSmall(d1, size, INODE_SIZE + table, [], j);
    EmptyFileApart(d2, size, 2 * INODE_SIZE + table, j, table, rootTable, k);
  }

  /** The record of an empty file, in the inode table behind that of the root table. */
  lemma EmptyFileApart(dev: seq<byte>, size: nat, at: nat, j: nat, rec: nat, data: seq<byte>, k: nat)
    requires size > 0 && SmallThere(dev, size, rec, data, k)
    requires rec + RECORD_SIZE <= at && at + RECORD_SIZE <= k * size
    ensures SmallThere(CloseSmall(dev, size, at, [], j), size, rec, data, k)
  {
    NoBlocks(size);
    SmallStays(dev, CloseSmall(dev, size, at, [], j), size, rec, data, k);
  }

  lemma SmallOnDevice(dev: seq<byte>, size: nat, rec: nat, data: seq<byte>, k: nat)
    requires size > 0 && SmallThere(dev, size, rec, data, k)
    ensures rec + RECORD_SIZE <= |dev| && (k + RoundUp(|data|, size)) * size <= |dev|
  {}

  lemma SavedByte(dev: seq<byte>, m: Mounted, pad: seq<byte>, a: nat)
    requires a < |dev| && |m.blockBits| == BitmapBytes(m.sb.blockCount)
    requires SUPER_OFFSET + SUPER_SIZE + |pad| <= a
    requires a < BlockBitmapOffset(m.sb) || InodeBitmapOffset(m.sb) + |m.inodeBits| <= a
    ensures FormatSave(dev, m, pad)[a] == dev[a]
  {
    hide BlockBitmapOffset, BitmapBytes;
    var d1 := Store(dev, SUPER_OFFSET, EncodeSuper(m.sb) + pad);
    var d2 := Store(d1, BlockBitmapOffset(m.sb), m.blockBits);
  }

  lemma SavedApart(dev: seq<byte>, m: Mounted, pad: seq<byte>, size: nat, rec: nat, data: seq<byte>, k: nat)
    requires size > 0 && SmallThere(dev, size, rec, data, k)
    requires SUPER_OFFSET + SUPER_SIZE + |pad| <= rec && rec + RECORD_SIZE <= BlockBitmapOffset(m.sb)
    requires |m.blockBits| == BitmapBytes(m.sb.blockCount)
    requires InodeBitmapOffset(m.sb) + |m.inodeBits| <= k * size
    ensures SmallThere(FormatSave(dev, m, pad), size, rec, data, k)
  {
    hide SmallThere, BlockBitmapOffset, BitmapBytes, FormatSave, RoundUp;
    SmallOnDevice(dev, size, rec, data, k);
    forall a | (rec <= a < rec + RECORD_SIZE || k * size <= a) && a < |dev|
      ensures FormatSave(dev, m, pad)[a] == dev[a]
    {
      SavedByte(dev, m, pad, a);
    }
    SmallStays(dev, FormatSave(dev, m, pad), size, rec, data, k);
  }

  /** The superblock of a formatted device, field by field. */
  lemma SuperWritten(d: seq<byte>, p: Plan, m: Mounted)
    requires Formatted(d, p, m)
    ensures 1024 + 118 <= |d|
    ensures
      && Word(d, 1024 + 0x00) == m.sb.bootLoaderInode && Word(d, 1024 + 0x08) == p.boot
      && Word(d, 1024 + 0x10) == m.sb.signature
      && Word(d, 1024 + 0x18) == p.blocks && Word(d, 1024 + 0x20) == p.inodes
      && Word(d, 1024 + 0x28) == p.blocks - (p.boot + p.table + p.maps + p.root)
      && Word(d, 1024 + 0x30) == p.inodes - 3 && Word(d, 1024 + 0x38) == p.boot + p.table
      && Word(d, 1024 + 0x40) == 2 && Word(d, 1024 + 0x48) == 1 && Word(d, 1024 + 0x50) == 0x75646221
      && Word(d, 1024 + 0x58) == 0 && Word(d, 1024 + 0x60) == 0 && Word(d, 1024 + 0x68) == 0
      && d[1024 + 0x70] == 0 && d[1024 + 0x71] == 0 && d[1024 + 0x72] == 0 && d[1024 + 0x73] == 1
      && d[1024 + 0x74] as nat == p.log && d[1024 + 0x75] == 1
  {
    hide DecodeSuper, Word, TakenBelow, Bits, InodeBitmapOffset, BlockBitmapOffset, BitmapBytes;
    FieldsRead(d, m.sb);
  }

  /** The records of the two empty files stay where they were written. */
  lemma EmptyRecordsStay(dev: seq<byte>, fsSize: nat, p: Plan, rootSize: nat, m: Mounted, pad: seq<byte>)
    requires 1 <= p.log <= 5 && p == PlanFor(fsSize, p.log, rootSize) && Used(p) <= p.blocks && fsSize <= |dev|
    requires |pad| == 2 && p.inodes >= 3
    requires m.sb.blockSize as nat == p.log && m.sb.bitmapsBlock == p.boot + p.table && m.sb.blockCount == p.blocks
    requires |m.blockBits| == BitmapBytes(p.blocks)
    ensures var at := p.boot * Pow2(7 + p.log);
      && at + 192 <= |dev|
      && forall a: nat :: at + 64 <= a < at + 192 ==> FormatSave(dev, m, pad)[a] == dev[a]
  {
    hide Pow2, RoundUp, BitmapBytes, BlocksAt, FormatSave, PlanFor, Used;
    var size, k := Pow2(7 + p.log), p.boot + p.table + p.maps;
    var table := p.boot * size;
    RootPlaces(fsSize, p, rootSize, size, table, k);
    assert BlockBitmapOffset(m.sb) == (p.boot + p.table) * size;
    MulMono(p.boot + p.table, k + p.root, size);
    forall a | table + 64 <= a < table + 192
      ensures FormatSave(dev, m, pad)[a] == dev[a]
    {
      SavedByte(dev, m, pad, a);
    }
  }

  /** What the last writes leave is in order, and the root table is still there. */
  lemma WellFormatted(was: seq<byte>, dev: seq<byte>, fsSize: nat, p: Plan, rootTable: seq<byte>, junk: Super,
                      m: Mounted, pad: seq<byte>)
    requires 1 <= p.log <= 5 && p == PlanFor(fsSize, p.log, |rootTable|) && Used(p) <= p.blocks
    requires fsSize <= |was| == |dev| && fsSize < WORD_LIMIT && Representable(junk) && |pad| == 2 && p.inodes >= 3
    requires m.sb == NewSuper(junk, p, p.boot + p.table, 1, 2, p.blocks - Used(p), p.inodes - 3)
    requires |m.blockBits| == BitmapBytes(p.blocks) && |m.inodeBits| == BitmapBytes(p.inodes)
    requires TakenBelow(Bits(m.blockBits), Used(p)) && TakenBelow(Bits(m.inodeBits), 3)
    requires var size := Pow2(7 + p.log);
      size > 0 && dev == FilesMade(was, size, p.boot * size, rootTable, p.boot + p.table + p.maps)
    requires var at := p.boot * Pow2(7 + p.log);
      at + 192 <= |dev| ==> forall a: nat :: at + 64 <= a < at + 192 ==> dev[a] == 0
    ensures Formatted(FormatSave(dev, m, pad), p, m) && m.sb.blockCount == p.blocks
    ensures m.sb.bootLoaderInode == junk.bootLoaderInode && m.sb.signature == junk.signature
    ensures RootThere(FormatSave(dev, m, pad), p, rootTable) && EmptyThere(FormatSave(dev, m, pad), p)
  {
    hide Bits, TakenBelow, PlanFor, Pow2, BitmapBytes, FormatSave, FilesMade, Formatted, RootThere;
    IsFormatted(dev, fsSize, p.log, |rootTable|, p, junk, m, pad);
    RootStays(was, fsSize, p, rootTable, m, pad);
    EmptyRecordsStay(dev, fsSize, p, |rootTable|, m, pad);
  }

  /** mkfs on a device of fsSize bytes that gives at least 64 blocks. It succeeds exactly when the
      blocks for the boot area, the inode table, the bitmaps and the root table are there; mounting then
      finds the plan, and inode 0 the root table. */
  method Mkfs(device: Device, fsSize: nat, junk: Super, pad: seq<byte>, rootTable: seq<byte>)
    returns (ok: bool, p: Plan, ghost m: Mounted)
    requires fsSize <= |device.bytes| && fsSize < WORD_LIMIT && fsSize >= 64 * 256
    requires Representable(junk) && |pad| == 2 && |rootTable| <= 1024
    modifies device
    ensures |device.bytes| == old(|device.bytes|)
    ensures 1 <= p.log <= 5 && p == PlanFor(fsSize, p.log, |rootTable|)
    ensures p.blocks >= 2000 || p.log == 1
    ensures forall b :: p.log < b <= 5 ==> BlocksAt(fsSize, b) < 2000
    ensures ok <==> Used(p) <= p.blocks
    ensures ok ==> Formatted(device.bytes, p, m) && RootThere(device.bytes, p, rootTable)
    ensures ok ==>
      var at := p.boot * Pow2(7 + p.log);
      at + 192 <= |device.bytes| && forall a: nat :: at + 64 <= a < at + 192 ==> device.bytes[a] == 0
    ensures ok ==> m.sb.bootLoaderInode == junk.bootLoaderInode && m.sb.signature == junk.signature
  {
    hide TakenBelow, RootThere, BlocksAt, Pow2, NewSuper, Representable, Formatted, BitmapBytes, BlockSize, PlanFor,
      FilesMade, FormatSave, RoundUp, BlockBitmapOffset;
    m := Mounted(junk, [], []);
    p := ChoosePlan(fsSize, |rootTable|);
    var size := Pow2(7 + p.log);
    PlanFits(fsSize, p.log, |rootTable|, p, size);
    RootFitsDirect(|rootTable|, p.log);
    RootOf(fsSize, p.log, |rootTable|, p);
    var inodeBitmap := FreshBitmap(p.inodes);
    var blockBitmap := FreshBitmap(p.blocks);
    var bitmapsBlock, bad, journal, freeBlocks, freeInodes;
    ok, bitmapsBlock, freeBlocks := ReserveAreas(blockBitmap, p.blocks, p.boot, p.table, p.maps);
    if !ok {
      return;
    }
    ok, bad, journal, freeBlocks, freeInodes := MakeFiles(device, blockBitmap, inodeBitmap, freeBlocks, p.inodes, size,
                                                          p.boot * size, rootTable, p.boot + p.table + p.maps);
    if !ok {
      return;
    }
    var superblock := NewSuper(junk, p, bitmapsBlock, bad, journal, freeBlocks, freeInodes);
    m := Mounted(superblock, blockBitmap[..], inodeBitmap[..]);
    WellFormatted(old(device.bytes), device.bytes, fsSize, p, rootTable, junk, m, pad);
    WriteFormat(device, superblock, blockBitmap, inodeBitmap, pad);
  }

  lemma RootOf(fsSize: nat, log: nat, rootSize: nat, p: Plan)
    requires p == PlanFor(fsSize, log, rootSize)
    ensures p.root == RoundUp(rootSize, Pow2(7 + log))
  {}
}
