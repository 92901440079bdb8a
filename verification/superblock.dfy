/** The superblock: its bytes, and the places on the device it describes. */
module Superblocks {
  import opened Bytes
  import opened Seqs

  datatype Super = Super(bootLoaderInode: nat, inodeFirstBlock: nat, signature: nat, blockCount: nat,
                         inodeCount: nat, freeBlockCount: nat, freeInodeCount: nat, bitmapsBlock: nat,
                         journalInode: nat, badBlockInode: nat, magic: nat, lastCheck: nat,
                         maxInterval: nat, lastMount: nat,
                         mountCount: byte, maxMountCount: byte, creatorOs: byte, version: byte,
                         blockSize: byte, inodeFormat: byte)

  const SUPER_OFFSET: nat := 1024
  const SUPER_SIZE: nat := 118
  const MAGIC: nat := 0x75646221

  function SuperWords(sb: Super): (xs: seq<nat>)
    ensures |xs| == 14
  {
    [sb.bootLoaderInode, sb.inodeFirstBlock, sb.signature, sb.blockCount, sb.inodeCount, sb.freeBlockCount,
     sb.freeInodeCount, sb.bitmapsBlock, sb.journalInode, sb.badBlockInode, sb.magic, sb.lastCheck,
     sb.maxInterval, sb.lastMount]
  }

  /** The record on the device: fourteen words and six bytes. */
  function EncodeSuper(sb: Super): (s: seq<byte>)
    ensures |s| == SUPER_SIZE
  {
    Words(SuperWords(sb))
    + [sb.mountCount, sb.maxMountCount, sb.creatorOs, sb.version, sb.blockSize, sb.inodeFormat]
  }

  function Field(s: seq<byte>, j: nat): nat
    requires |s| == SUPER_SIZE && j < 14
  {
    Decode(s[8 * j..8 * j + 8])
  }

  function DecodeSuper(s: seq<byte>): Super
    requires |s| == SUPER_SIZE
  {
    Super(Field(s, 0), Field(s, 1), Field(s, 2), Field(s, 3), Field(s, 4), Field(s, 5), Field(s, 6), Field(s, 7),
          Field(s, 8), Field(s, 9), Field(s, 10), Field(s, 11), Field(s, 12), Field(s, 13),
          s[112], s[113], s[114], s[115], s[116], s[117])
  }

  /** Every number fits in its word. */
  predicate Representable(sb: Super) {
    forall j :: 0 <= j < 14 ==> SuperWords(sb)[j] < WORD_LIMIT
  }

  lemma FieldRoundTrip(sb: Super, j: nat)
    requires Representable(sb) && j < 14
    ensures Field(EncodeSuper(sb), j) == SuperWords(sb)[j]
  {
    var xs := SuperWords(sb);
    WordsAt(xs, j);
    assert EncodeSuper(sb)[8 * j..8 * j + 8] == Words(xs)[8 * j..8 * j + 8];
    Word64RoundTrip(xs[j]);
  }

  /** Reading the record back gives the superblock. */
  lemma SuperRoundTrip(sb: Super)
    requires Representable(sb)
    ensures DecodeSuper(EncodeSuper(sb)) == sb
  {
    forall j: nat | j < 14
      ensures Field(EncodeSuper(sb), j) == SuperWords(sb)[j]
    {
      FieldRoundTrip(sb, j);
    }
  }

  /** Whatever is read fits in words. */
  lemma DecodedIsRepresentable(s: seq<byte>)
    requires |s| == SUPER_SIZE
    ensures Representable(DecodeSuper(s))
  {
    forall j: nat | j < 14
      ensures SuperWords(DecodeSuper(s))[j] < WORD_LIMIT
    {
      WordBound(s[8 * j..8 * j + 8]);
      assert SuperWords(DecodeSuper(s))[j] == Field(s, j);
    }
  }

  // ----- the places it describes -----

  function Pow2(n: nat): (r: nat)
    ensures r > 0
  {
    if n == 0 then 1 else 2 * Pow2(n - 1)
  }

  lemma {:induction false} Pow2Splits(n: nat, k: nat)
    requires k <= n
    ensures Pow2(n) == Pow2(k) * Pow2(n - k)
  {
    if k > 0 {
      Pow2Splits(n - 1, k - 1);
    }
  }

  /** 1 << (superblock.block_size + 7). */
  function BlockSize(sb: Super): nat {
    Pow2(sb.blockSize as nat + 7)
  }

  /** (count + 7) >> 3. */
  function BitmapBytes(count: nat): nat {
    (count + 7) / 8
  }

  function BlockBitmapOffset(sb: Super): nat {
    sb.bitmapsBlock * BlockSize(sb)
  }

  function InodeBitmapOffset(sb: Super): nat {
    BlockBitmapOffset(sb) + BitmapBytes(sb.blockCount)
  }

  function InodeTableOffset(sb: Super): nat {
    sb.inodeFirstBlock * BlockSize(sb)
  }

  /** What mounting insists on. */
  predicate Acceptable(sb: Super) {
    && sb.magic == MAGIC
    && sb.version == 1
    && sb.blockSize <= 20
    && sb.freeInodeCount <= sb.inodeCount
    && sb.freeBlockCount <= sb.blockCount
  }

  lemma BlockSizeInEights(sb: Super)
    ensures BlockSize(sb) == 8 * (BlockSize(sb) / 8) && BlockSize(sb) >= 8
  {
    assert Pow2(3) == 8;
    hide Pow2;
    Pow2Splits(sb.blockSize as nat + 7, 3);
  }

  // ----- the places of the fields -----

  lemma FieldIs(dev: seq<byte>, j: nat)
    requires 1024 + 118 <= |dev| && j < 14
    ensures Field(dev[SUPER_OFFSET..SUPER_OFFSET + SUPER_SIZE], j) == Word(dev, 1024 + 8 * j)
  {
    SliceOfSlice(dev, 1024, 1024 + 118, 8 * j, 8 * j + 8);
  }

  /** Where each field is read from. */
  lemma FieldsRead(dev: seq<byte>, sb: Super)
    requires 1024 + 118 <= |dev| && sb == DecodeSuper(dev[SUPER_OFFSET..SUPER_OFFSET + SUPER_SIZE])
    ensures sb.bootLoaderInode == Word(dev, 1024 + 0x00) && sb.inodeFirstBlock == Word(dev, 1024 + 0x08)
    ensures sb.signature == Word(dev, 1024 + 0x10) && sb.blockCount == Word(dev, 1024 + 0x18)
    ensures sb.inodeCount == Word(dev, 1024 + 0x20) && sb.freeBlockCount == Word(dev, 1024 + 0x28)
    ensures sb.freeInodeCount == Word(dev, 1024 + 0x30) && sb.bitmapsBlock == Word(dev, 1024 + 0x38)
    ensures sb.journalInode == Word(dev, 1024 + 0x40) && sb.badBlockInode == Word(dev, 1024 + 0x48)
    ensures sb.magic == Word(dev, 1024 + 0x50) && sb.lastCheck == Word(dev, 1024 + 0x58)
    ensures sb.maxInterval == Word(dev, 1024 + 0x60) && sb.lastMount == Word(dev, 1024 + 0x68)
    ensures sb.mountCount == dev[1024 + 0x70] && sb.maxMountCount == dev[1024 + 0x71]
    ensures sb.creatorOs == dev[1024 + 0x72] && sb.version == dev[1024 + 0x73]
    ensures sb.blockSize == dev[1024 + 0x74] && sb.inodeFormat == dev[1024 + 0x75]
  {
    hide Field, Word;
    var s := dev[SUPER_OFFSET..SUPER_OFFSET + SUPER_SIZE];
    forall j: nat | j < 14
      ensures Field(s, j) == Word(dev, 1024 + 8 * j)
    {
      FieldIs(dev, j);
    }
    assert forall j :: 112 <= j < 118 ==> s[j] == dev[1024 + j];
  }

  lemma FieldStored(dev: seq<byte>, sb: Super, j: nat)
    requires 1024 + 118 <= |dev| && j < 14
    ensures Word(Store(dev, SUPER_OFFSET, EncodeSuper(sb)), 1024 + 8 * j) ==
            SuperWords(sb)[j] % 0x1_0000_0000_0000_0000
  {
    hide SuperWords;
    var d, xs := Store(dev, SUPER_OFFSET, EncodeSuper(sb)), SuperWords(sb);
    WordsAt(xs, j);
    SliceOfSlice(d, 1024, 1024 + 118, 8 * j, 8 * j + 8);
    assert d[1024..1024 + 118] == EncodeSuper(sb);
    assert EncodeSuper(sb)[8 * j..8 * j + 8] == Words(xs)[8 * j..8 * j + 8];
    Word64Cuts(xs[j]);
  }

  /** Where each field is stored. */
  lemma FieldsStored(dev: seq<byte>, sb: Super, d: seq<byte>)
    requires 1024 + 118 <= |dev| && d == Store(dev, SUPER_OFFSET, EncodeSuper(sb))
    ensures Word(d, 1024 + 0x00) == sb.bootLoaderInode % 0x1_0000_0000_0000_0000
    ensures Word(d, 1024 + 0x08) == sb.inodeFirstBlock % 0x1_0000_0000_0000_0000
    ensures Word(d, 1024 + 0x10) == sb.signature % 0x1_0000_0000_0000_0000
    ensures Word(d, 1024 + 0x18) == sb.blockCount % 0x1_0000_0000_0000_0000
    ensures Word(d, 1024 + 0x20) == sb.inodeCount % 0x1_0000_0000_0000_0000
    ensures Word(d, 1024 + 0x28) == sb.freeBlockCount % 0x1_0000_0000_0000_0000
    ensures Word(d, 1024 + 0x30) == sb.freeInodeCount % 0x1_0000_0000_0000_0000
    ensures Word(d, 1024 + 0x38) == sb.bitmapsBlock % 0x1_0000_0000_0000_0000
    ensures Word(d, 1024 + 0x40) == sb.journalInode % 0x1_0000_0000_0000_0000
    ensures Word(d, 1024 + 0x48) == sb.badBlockInode % 0x1_0000_0000_0000_0000
    ensures Word(d, 1024 + 0x50) == sb.magic % 0x1_0000_0000_0000_0000
    ensures Word(d, 1024 + 0x58) == sb.lastCheck % 0x1_0000_0000_0000_0000
    ensures Word(d, 1024 + 0x60) == sb.maxInterval % 0x1_0000_0000_0000_0000
    ensures Word(d, 1024 + 0x68) == sb.lastMount % 0x1_0000_0000_0000_0000
    ensures d[1024 + 0x70] == sb.mountCount && d[1024 + 0x71] == sb.maxMountCount && d[1024 + 0x72] == sb.creatorOs
    ensures d[1024 + 0x73] == sb.version && d[1024 + 0x74] == sb.blockSize && d[1024 + 0x75] == sb.inodeFormat
  {
    hide Word, Words, Store;
    FieldStored(dev, sb, 0);
    FieldStored(dev, sb, 1);
    FieldStored(dev, sb, 2);
    FieldStored(dev, sb, 3);
    FieldStored(dev, sb, 4);
    FieldStored(dev, sb, 5);
    FieldStored(dev, sb, 6);
    FieldStored(dev, sb, 7);
    FieldStored(dev, sb, 8);
    FieldStored(dev, sb, 9);
    FieldStored(dev, sb, 10);
    FieldStored(dev, sb, 11);
    FieldStored(dev, sb, 12);
    FieldStored(dev, sb, 13);
    var s := EncodeSuper(sb);
    assert d[1024..1024 + 118] == s;
    assert forall j :: 112 <= j < 118 ==> d[1024 + j] == s[j];
  }

  lemma PowersOfTwo(n: nat)
    ensures Pow2(0) == 1 && Pow2(n + 1) == 2 * Pow2(n) && Pow2(n + 7) == 128 * Pow2(n)
  {
    Pow2Splits(n + 7, 7);
    assert Pow2(7) == 128;
  }

  // ----- saving and restoring a mount -----

  /** What a mount keeps of the device. */
  datatype Mounted = Mounted(sb: Super, blockBits: seq<byte>, inodeBits: seq<byte>)

  datatype MountResult = Mountable(m: Mounted) | Unmountable

  /** udbfs_mount, as a function of the bytes on the device. */
  function ReadMount(dev: seq<byte>): MountResult {
    if SUPER_OFFSET + SUPER_SIZE > |dev| then Unmountable
    else
      var sb := DecodeSuper(dev[SUPER_OFFSET..SUPER_OFFSET + SUPER_SIZE]);
      var b, i := BlockBitmapOffset(sb), InodeBitmapOffset(sb);
      if !Acceptable(sb) || i + BitmapBytes(sb.inodeCount) > |dev| then Unmountable
      else Mountable(Mounted(sb, dev[b..i], dev[i..i + BitmapBytes(sb.inodeCount)]))
  }

  /** What udbfs_unmount leaves on the device. */
  function SaveMount(dev: seq<byte>, m: Mounted): (r: seq<byte>)
    ensures |r| == |dev|
  {
    Store(Store(Store(dev, BlockBitmapOffset(m.sb), m.blockBits),
                InodeBitmapOffset(m.sb), m.inodeBits),
          SUPER_OFFSET, EncodeSuper(m.sb))
  }

  /** The superblock and the bitmaps are on the device and apart. */
  predicate RoomForMount(m: Mounted, room: nat) {
    && |m.blockBits| == BitmapBytes(m.sb.blockCount)
    && |m.inodeBits| == BitmapBytes(m.sb.inodeCount)
    && SUPER_OFFSET + SUPER_SIZE <= room
    && InodeBitmapOffset(m.sb) + |m.inodeBits| <= room
    && (SUPER_OFFSET + SUPER_SIZE <= BlockBitmapOffset(m.sb)
        || InodeBitmapOffset(m.sb) + |m.inodeBits| <= SUPER_OFFSET)
  }

  /** Unmounting and mounting again restores everything. */
  lemma MountRoundTrip(dev: seq<byte>, m: Mounted)
    requires Representable(m.sb) && Acceptable(m.sb) && RoomForMount(m, |dev|)
    ensures ReadMount(SaveMount(dev, m)) == Mountable(m)
  {
    hide DecodeSuper, EncodeSuper, Pow2, BitmapBytes, Representable, Acceptable;
    var b, i := BlockBitmapOffset(m.sb), InodeBitmapOffset(m.sb);
    var d1 := Store(dev, b, m.blockBits);
    var d2 := Store(d1, i, m.inodeBits);
    var d3 := SaveMount(dev, m);
    SuperRoundTrip(m.sb);
    assert d3[SUPER_OFFSET..SUPER_OFFSET + SUPER_SIZE] == EncodeSuper(m.sb);
    assert d3[b..i] == d1[b..i] == m.blockBits;
    assert d3[i..i + |m.inodeBits|] == d2[i..i + |m.inodeBits|] == m.inodeBits;
  }

  /** Where the bitmaps are, from the fields. */
  lemma PlacesRead(dev: seq<byte>, sb: Super)
    requires 1024 + 118 <= |dev| && sb == DecodeSuper(dev[SUPER_OFFSET..SUPER_OFFSET + SUPER_SIZE])
    ensures BlockBitmapOffset(sb) == Word(dev, 1024 + 0x38) * (128 * Pow2(dev[1024 + 0x74] as nat))
    ensures InodeBitmapOffset(sb) == BlockBitmapOffset(sb) + (Word(dev, 1024 + 0x18) + 7) / 8
    ensures BitmapBytes(sb.inodeCount) == (Word(dev, 1024 + 0x20) + 7) / 8
  {
    hide DecodeSuper, Word, Pow2;
    FieldsRead(dev, sb);
    PowersOfTwo(sb.blockSize as nat);
  }

  /** What can be mounted: a device with the magic number, version 1 and a block size log of at most 20, whose
      free counts are within the counts and whose bitmaps lie on it. */
  lemma MountableIff(dev: seq<byte>)
    ensures ReadMount(dev).Mountable? <==>
      && 1024 + 118 <= |dev|
      && Word(dev, 1024 + 0x50) == 0x75646221 && dev[1024 + 0x73] == 1 && dev[1024 + 0x74] <= 20
      && Word(dev, 1024 + 0x30) <= Word(dev, 1024 + 0x20) && Word(dev, 1024 + 0x28) <= Word(dev, 1024 + 0x18)
      && Word(dev, 1024 + 0x38) * (128 * Pow2(dev[1024 + 0x74] as nat))
         + (Word(dev, 1024 + 0x18) + 7) / 8 + (Word(dev, 1024 + 0x20) + 7) / 8 <= |dev|
  {
    hide DecodeSuper, Word, Pow2, BlockBitmapOffset, InodeBitmapOffset, BitmapBytes;
    if 1024 + 118 <= |dev| {
      var sb := DecodeSuper(dev[SUPER_OFFSET..SUPER_OFFSET + SUPER_SIZE]);
      FieldsRead(dev, sb);
      PlacesRead(dev, sb);
    }
  }

  /** Which bytes of the device the superblock and the bitmaps are: the block bitmap starts at b, the inode
      bitmap at i. */
  lemma BitmapsRead(dev: seq<byte>, m: Mounted) returns (b: nat, i: nat)
    requires ReadMount(dev) == Mountable(m)
    ensures 1024 + 118 <= |dev| && m.sb == DecodeSuper(dev[SUPER_OFFSET..SUPER_OFFSET + SUPER_SIZE])
    ensures b == Word(dev, 1024 + 0x38) * (128 * Pow2(dev[1024 + 0x74] as nat)) == BlockBitmapOffset(m.sb)
    ensures i == b + (Word(dev, 1024 + 0x18) + 7) / 8
    ensures i + (Word(dev, 1024 + 0x20) + 7) / 8 <= |dev|
    ensures m.blockBits == dev[b..i] && m.inodeBits == dev[i..i + (Word(dev, 1024 + 0x20) + 7) / 8]
  {
    b, i := ReadPlaces(dev, m);
    PlacesRead(dev, m.sb);
  }

  lemma ReadPlaces(dev: seq<byte>, m: Mounted) returns (b: nat, i: nat)
    requires ReadMount(dev) == Mountable(m)
    ensures 1024 + 118 <= |dev| && m.sb == DecodeSuper(dev[SUPER_OFFSET..SUPER_OFFSET + SUPER_SIZE])
    ensures b == BlockBitmapOffset(m.sb) && i == InodeBitmapOffset(m.sb)
    ensures b <= i && i + BitmapBytes(m.sb.inodeCount) <= |dev|
    ensures m.blockBits == dev[b..i] && m.inodeBits == dev[i..i + BitmapBytes(m.sb.inodeCount)]
  {
    hide DecodeSuper, BlockBitmapOffset, BitmapBytes, Acceptable;
    b, i := BlockBitmapOffset(m.sb), InodeBitmapOffset(m.sb);
  }
}
