/** Mounting a device and unmounting it again. */
module Mounting {
  import opened Bytes
  import opened Superblocks
  import opened Inodes

  /** What the mount holds of the device: its superblock with what may have changed since. */
  ghost function Held(mount: Mount, signature: nat): Mounted
    reads mount`freeBlockCount, mount`freeInodeCount, mount`bootLoaderInode, mount.blockBitmap, mount.inodeBitmap
  {
    Mounted(mount.sb.(bootLoaderInode := mount.bootLoaderInode, freeBlockCount := mount.freeBlockCount,
                      freeInodeCount := mount.freeInodeCount, signature := signature),
            mount.blockBitmap[..], mount.inodeBitmap[..])
  }

  /** udbfslib_validate_superblock. */
  method ValidateSuperblock(device: Device) returns (ok: bool, sb: Super)
    ensures ok <==> SUPER_OFFSET + SUPER_SIZE <= |device.bytes| && Acceptable(sb)
    ensures SUPER_OFFSET + SUPER_SIZE <= |device.bytes| ==>
      sb == DecodeSuper(device.bytes[SUPER_OFFSET..SUPER_OFFSET + SUPER_SIZE])
  {
    var s;
    ok, s := device.Read(SUPER_OFFSET, SUPER_SIZE);
    if !ok {
      sb := Super(0, 0, 0, 0, 0, 0, 0, 0, 0, 0, 0, 0, 0, 0, 0, 0, 0, 0, 0, 0);
      return;
    }
    sb := DecodeSuper(s);
    if sb.magic != MAGIC {
      ok := false;
    } else if sb.version != 1 {
      ok := false;
    } else if sb.blockSize > 20 || sb.freeInodeCount > sb.inodeCount || sb.freeBlockCount > sb.blockCount {
      ok := false;
    }
  }

  /** Reads `size` bytes into a new array. */
  method LoadBitmap(device: Device, offset: nat, size: nat) returns (ok: bool, bitmap: array<byte>)
    ensures fresh(bitmap)
    ensures ok <==> offset + size <= |device.bytes|
    ensures ok ==> bitmap[..] == device.bytes[offset..offset + size]
  {
    var s;
    ok, s := device.Read(offset, size);
    bitmap := new byte[size](i => 0);
    if ok {
      forall i | 0 <= i < size {
        bitmap[i] := s[i];
      }
      assert bitmap[..] == s;
    }
  }

  /** udbfs_mount: a mount that holds what is on the device, or null when there is nothing to mount. The block
      bitmap is read from address b, the inode bitmap from i. */
  method MountDevice(device: Device) returns (mount: Mount?, ghost b: nat, ghost i: nat)
    ensures mount != null <==> ReadMount(device.bytes).Mountable?
    ensures mount != null ==>
      && fresh(mount) && fresh(mount.blockBitmap) && fresh(mount.inodeBitmap)
      && mount.blockBitmap != mount.inodeBitmap
      && mount.device == device && mount.openedInodes == {} && mount.Sane()
      && ReadMount(device.bytes).m == Held(mount, mount.sb.signature)
      && mount.sizes.bs == BlockSize(mount.sb)
      && mount.inodeTableOffset == InodeTableOffset(mount.sb)
    ensures mount != null ==>
      && 1024 + 118 <= |device.bytes|
      && mount.bootLoaderInode == Word(device.bytes, 1024 + 0x00)
      && mount.sb.signature == Word(device.bytes, 1024 + 0x10)
      && mount.sb.blockCount == Word(device.bytes, 1024 + 0x18)
      && mount.sb.inodeCount == Word(device.bytes, 1024 + 0x20)
      && mount.freeBlockCount == Word(device.bytes, 1024 + 0x28)
      && mount.freeInodeCount == Word(device.bytes, 1024 + 0x30)
      && mount.sb.bitmapsBlock == Word(device.bytes, 1024 + 0x38)
      && mount.sb.journalInode == Word(device.bytes, 1024 + 0x40)
      && mount.sb.badBlockInode == Word(device.bytes, 1024 + 0x48)
      && mount.sb.magic == Word(device.bytes, 1024 + 0x50) == 0x75646221
      && mount.sb.lastCheck == Word(device.bytes, 1024 + 0x58)
      && mount.sb.maxInterval == Word(device.bytes, 1024 + 0x60)
      && mount.sb.lastMount == Word(device.bytes, 1024 + 0x68)
      && mount.sb.mountCount == device.bytes[1024 + 0x70] && mount.sb.maxMountCount == device.bytes[1024 + 0x71]
      && mount.sb.creatorOs == device.bytes[1024 + 0x72] && mount.sb.version == device.bytes[1024 + 0x73] == 1
      && mount.sb.blockSize == device.bytes[1024 + 0x74] && mount.sb.inodeFormat == device.bytes[1024 + 0x75]
    ensures mount != null ==>
      && mount.sizes.bs == 8 * mount.links == 128 * Pow2(device.bytes[1024 + 0x74] as nat)
      && mount.inodeTableOffset == Word(device.bytes, 1024 + 0x08) * mount.sizes.bs
      && b == Word(device.bytes, 1024 + 0x38) * mount.sizes.bs && i == b + (mount.sb.blockCount + 7) / 8
      && i + (mount.sb.inodeCount + 7) / 8 <= |device.bytes|
      && mount.blockBitmap[..] == device.bytes[b..i]
      && mount.inodeBitmap[..] == device.bytes[i..i + (mount.sb.inodeCount + 7) / 8]
  {
    hide ReadMount, Word, DecodeSuper, Pow2, BlockSize, InodeTableOffset;
    mount := MountFrom(device);
    b, i := 0, 0;
    if mount != null {
      b, i := MountFields(device.bytes, ReadMount(device.bytes).m, mount.sb);
    }
  }

  /** The numbers a mount takes from the device. */
  lemma MountFields(dev: seq<byte>, m: Mounted, sb: Super) returns (b: nat, i: nat)
    requires ReadMount(dev) == Mountable(m) && m.sb == sb
    ensures 1024 + 118 <= |dev| && sb == DecodeSuper(dev[SUPER_OFFSET..SUPER_OFFSET + SUPER_SIZE])
    ensures sb.bootLoaderInode == Word(dev, 1024 + 0x00) && sb.inodeFirstBlock == Word(dev, 1024 + 0x08)
    ensures sb.signature == Word(dev, 1024 + 0x10) && sb.blockCount == Word(dev, 1024 + 0x18)
    ensures sb.inodeCount == Word(dev, 1024 + 0x20) && sb.freeBlockCount == Word(dev, 1024 + 0x28)
    ensures sb.freeInodeCount == Word(dev, 1024 + 0x30) && sb.bitmapsBlock == Word(dev, 1024 + 0x38)
    ensures sb.journalInode == Word(dev, 1024 + 0x40) && sb.badBlockInode == Word(dev, 1024 + 0x48)
    ensures sb.magic == Word(dev, 1024 + 0x50) && sb.lastCheck == Word(dev, 1024 + 0x58)
    ensures sb.maxInterval == Word(dev, 1024 + 0x60) && sb.lastMount == Word(dev, 1024 + 0x68)
    ensures sb.mountCount == dev[1024 + 0x70] && sb.maxMountCount == dev[1024 + 0x71]
    ensures sb.creatorOs == dev[1024 + 0x72] && sb.version == dev[1024 + 0x73]
    ensures sb.blockSize == dev[1024 + 0x74] && sb.inodeFormat == dev[1024 + 0x75]
    ensures Word(dev, 1024 + 0x50) == 0x75646221 && dev[1024 + 0x73] == 1
    ensures BlockSize(sb) == 128 * Pow2(dev[1024 + 0x74] as nat)
    ensures InodeTableOffset(sb) == Word(dev, 1024 + 0x08) * BlockSize(sb)
    ensures b == Word(dev, 1024 + 0x38) * BlockSize(sb) && i == b + (sb.blockCount + 7) / 8
    ensures i + (sb.inodeCount + 7) / 8 <= |dev|
    ensures m.blockBits == dev[b..i] && m.inodeBits == dev[i..i + (sb.inodeCount + 7) / 8]
  {
    hide ReadMount, Word, DecodeSuper, Pow2;
    b, i := BitmapsRead(dev, m);
    FieldsRead(dev, sb);
    PowersOfTwo(sb.blockSize as nat);
    MountableIff(dev);
  }

  /** The loads of udbfs_mount. */
  method MountFrom(device: Device) returns (mount: Mount?)
    ensures mount != null <==> ReadMount(device.bytes).Mountable?
    ensures mount != null ==>
      && fresh(mount) && fresh(mount.blockBitmap) && fresh(mount.inodeBitmap)
      && mount.blockBitmap != mount.inodeBitmap
      && mount.device == device && mount.openedInodes == {} && mount.Sane()
      && ReadMount(device.bytes).m == Held(mount, mount.sb.signature)
      && mount.sizes.bs == BlockSize(mount.sb)
      && mount.inodeTableOffset == InodeTableOffset(mount.sb)
      && mount.bootLoaderInode == mount.sb.bootLoaderInode && mount.freeBlockCount == mount.sb.freeBlockCount
      && mount.freeInodeCount == mount.sb.freeInodeCount
  {
    BlockBitmapFirst(device.bytes);
    var ok, sb := ValidateSuperblock(device);
    if !ok {
      return null;
    }
    var blockBitmap, inodeBitmap;
    ok, blockBitmap := LoadBitmap(device, BlockBitmapOffset(sb), BitmapBytes(sb.blockCount));
    if !ok {
      return null;
    }
    ok, inodeBitmap := LoadBitmap(device, InodeBitmapOffset(sb), BitmapBytes(sb.inodeCount));
    if !ok {
      return null;
    }
    mount := new Mount(device, sb, blockBitmap, inodeBitmap);
  }

  lemma BlockBitmapFirst(dev: seq<byte>)
    ensures ReadMount(dev).Mountable? ==>
      BlockBitmapOffset(ReadMount(dev).m.sb) + BitmapBytes(ReadMount(dev).m.sb.blockCount) <= |dev|
  {}

  /** udbfs_unmount without open inodes. The signature is a field that mounting never fills. */
  method Unmount(mount: Mount, signature: nat)
    requires mount.openedInodes == {}
    requires mount.blockBitmap.Length == BitmapBytes(mount.sb.blockCount)
    modifies mount.device
    ensures mount.device.bytes == SaveMount(old(mount.device.bytes), old(Held(mount, signature)))
    ensures 1024 + 118 <= |mount.device.bytes| ==>
      var d := mount.device.bytes;
      && Word(d, 1024 + 0x00) == mount.bootLoaderInode % 0x1_0000_0000_0000_0000
      && Word(d, 1024 + 0x08) == mount.sb.inodeFirstBlock % 0x1_0000_0000_0000_0000
      && Word(d, 1024 + 0x10) == signature % 0x1_0000_0000_0000_0000
      && Word(d, 1024 + 0x18) == mount.sb.blockCount % 0x1_0000_0000_0000_0000
      && Word(d, 1024 + 0x20) == mount.sb.inodeCount % 0x1_0000_0000_0000_0000
      && Word(d, 1024 + 0x28) == mount.freeBlockCount % 0x1_0000_0000_0000_0000
      && Word(d, 1024 + 0x30) == mount.freeInodeCount % 0x1_0000_0000_0000_0000
      && Word(d, 1024 + 0x38) == mount.sb.bitmapsBlock % 0x1_0000_0000_0000_0000
      && Word(d, 1024 + 0x40) == mount.sb.journalInode % 0x1_0000_0000_0000_0000
      && Word(d, 1024 + 0x48) == mount.sb.badBlockInode % 0x1_0000_0000_0000_0000
      && Word(d, 1024 + 0x50) == mount.sb.magic % 0x1_0000_0000_0000_0000
      && Word(d, 1024 + 0x58) == mount.sb.lastCheck % 0x1_0000_0000_0000_0000
      && Word(d, 1024 + 0x60) == mount.sb.maxInterval % 0x1_0000_0000_0000_0000
      && Word(d, 1024 + 0x68) == mount.sb.lastMount % 0x1_0000_0000_0000_0000
      && d[1024 + 0x70] == mount.sb.mountCount && d[1024 + 0x71] == mount.sb.maxMountCount
      && d[1024 + 0x72] == mount.sb.creatorOs && d[1024 + 0x73] == mount.sb.version
      && d[1024 + 0x74] == mount.sb.blockSize && d[1024 + 0x75] == mount.sb.inodeFormat
  {
    hide EncodeSuper, Word, Pow2, BitmapBytes, Store;
    var b, i := BlockBitmapOffset(mount.sb), InodeBitmapOffset(mount.sb);
    var _ := mount.device.Write(b, mount.blockBitmap[..]);
    var _ := mount.device.Write(i, mount.inodeBitmap[..]);
    var superblock := mount.sb.(bootLoaderInode := mount.bootLoaderInode, freeBlockCount := mount.freeBlockCount,
                                freeInodeCount := mount.freeInodeCount, signature := signature);
    assert BlockSize(superblock) == BlockSize(mount.sb);
    ghost var before := mount.device.bytes;
    var _ := mount.device.Write(SUPER_OFFSET, EncodeSuper(superblock));
    if 1024 + 118 <= |before| {
      FieldsStored(before, superblock, mount.device.bytes);
    }
  }
}
