/** The programs one after the other, on one device: format it, mount it, store a file and fetch it. */
module Lifetimes {
  import opened Bytes
  import opened Bitmap
  import opened Layouts
  import opened FileSpec
  import opened Systems
  import opened Superblocks
  import opened Inodes
  import opened Mounting
  import opened Formatting
  import Remounting
  import opened BootLoaders
  import opened Sessions

  /** A mount that holds what is on the device is the system that starts from it. */
  lemma MountIsSystem(mount: Mount, m: Mounted)
    requires mount.Sane() && Held(mount, mount.sb.signature) == m
    requires mount.sizes.bs == BlockSize(mount.sb) && mount.inodeTableOffset == InodeTableOffset(mount.sb)
    ensures SystemNow(mount, map[]) == Remounting.SystemOf(mount.device.bytes, m)
  {}

  /** Whether a file of this size has a place on a device formatted like this: a plan that was carried out, a
      size the record can hold, and blocks for the file behind those that formatting took. */
  predicate HasRoom(p: Plan, size: nat)
    requires 1 <= p.log
  {
    var g := PlanGeo(p.log);
    && Used(p) <= p.blocks && p.inodes > 3 && size < WORD_LIMIT
    && LeavesFor(g, size) <= Capacity(g.p)
    && BlocksFor(g.p, 0, LeavesFor(g, size)) <= p.blocks - Used(p)
  }

  function PlanGeo(log: nat): (g: Geo)
    ensures g.bs == 8 * g.p == Pow2(7 + log)
  {
    Pow2Splits(7 + log, 3);
    assert Pow2(3) == 8;
    Geo(Pow2(4 + log), Pow2(7 + log))
  }

  lemma RoomOnNew(dev: seq<byte>, p: Plan, m: Mounted, size: nat)
    requires 1 <= p.log && Formatted(dev, p, m)
    ensures Room(Remounting.SystemOf(dev, m), size) <==> HasRoom(p, size)
  {
    hide ReadMount, Bits, LeavesFor, BlocksFor, Capacity;
    BlockSizeInEights(m.sb);
    assert BlockSize(m.sb) == Pow2(7 + p.log);
  }

  /** mkudbfs, then a mount, then a file: with room for it, the bytes that are stored are the bytes that are
      fetched, through another inode, from the device that was formatted. */
  method FormatAndStore(device: Device, fsSize: nat, junk: Super, pad: seq<byte>, rootTable: seq<byte>,
                        data: seq<byte>) returns (ok: bool, p: Plan, buffer: array<byte>)
    requires fsSize <= |device.bytes| && fsSize < WORD_LIMIT && fsSize >= 64 * 256
    requires Representable(junk) && |pad| == 2 && |rootTable| <= 1024
    modifies device
    ensures 1 <= p.log <= 5 && p == PlanFor(fsSize, p.log, |rootTable|)
    ensures ok <==> HasRoom(p, |data|)
    ensures ok ==> fresh(buffer) && buffer[..] == data
  {
    hide Formatted, PlanFor, Pow2, Representable, RootThere, Inv, ReadMount, Room, Held, PlanGeo;
    buffer := new byte[0];
    ghost var m;
    ok, p, m := Mkfs(device, fsSize, junk, pad, rootTable);
    if !ok || !HasRoom(p, |data|) {
      return false, p, buffer;
    }
    Remounting.FormatAgrees(device.bytes, fsSize, |rootTable|, p, m);
    FormattedMounts(device.bytes, p, m);
    var mount;
    ghost var b, i;
    mount, b, i := MountDevice(device);
    MountIsSystem(mount, m);
    RoomOnNew(device.bytes, p, m, |data|);
    ghost var s := SystemNow(mount, map[]);
    buffer := StoreAndFetch(mount, data, s, Remounting.LimitsOf(p));
  }

  lemma FormattedMounts(dev: seq<byte>, p: Plan, m: Mounted)
    requires Formatted(dev, p, m)
    ensures ReadMount(dev) == Mountable(m)
  {}
}
