/**
 The bytes a closed file leaves on the device, written out: where each field of the inode record and each
 slot of an index block is, and which byte of a number comes first.
 */
module DiskBytes {
  import opened Arith
  import opened Bytes
  import opened Layouts
  import opened OnDisk

  /** A number read from the device has these digits. */
  lemma {:induction false} DecodeByte(s: seq<byte>, i: nat)
    requires i < |s|
    ensures s[i] as nat == Decode(s) / Pow256(i) % 256
  {
    DivModIs(Decode(s), 256, Decode(s[1..]), s[0] as nat);
    if i > 0 {
      DecodeByte(s[1..], i - 1);
      DivDiv(Decode(s), Pow256(i - 1), 256, Pow256(i));
    }
  }

  lemma WordByteIs(dev: seq<byte>, off: nat, x: nat, i: nat)
    requires WordIs(dev, off, x) && i < 8
    ensures dev[off + i] as nat == x / Pow256(i) % 256
  {
    DecodeByte(dev[off..off + 8], i);
  }

  // ----- the inode record -----

  lemma RecordByte(dev: seq<byte>, lay: Layout, rec: nat, size: nat, j: nat, i: nat)
    requires rec + 64 <= |dev| && j < 8 && i < 8
    ensures Store(dev, rec, Record(lay, size))[rec + 8 * j + i] as nat ==
            (if j == 0 then size else Id(lay, Root(j - 1))) / Pow256(i) % 256
  {
    hide Record;
    var s := Record(lay, size);
    RecordWord(lay, size, j);
    WordByte(if j == 0 then size else Id(lay, Root(j - 1)), i);
    assert s[8 * j + i] == s[8 * j..8 * j + 8][i];
    assert Store(dev, rec, s)[rec..rec + 64][8 * j + i] == s[8 * j + i];
  }

  /** Closing writes the record, whatever the numbers are: the size, the ids of the four direct blocks, and
      those of the indirect, the bi-indirect and the tri-indirect block, eight bytes each, the least
      significant first. A block that is not there has id 0. */
  lemma CloseWritesRecord(g: Geo, dev: seq<byte>, lay: Layout, rec: nat, size: nat, i: nat)
    requires rec + 64 <= |dev| && i < 8
    ensures var d := Close(g, dev, lay, rec, size);
      && d[rec + i] as nat == size / Pow256(i) % 256
      && (forall j: nat :: j < 4 ==>
            d[rec + 8 + 8 * j + i] as nat == (if Leaf(j) in lay then lay[Leaf(j)] else 0) / Pow256(i) % 256)
      && d[rec + 40 + i] as nat == (if Ind(0) in lay then lay[Ind(0)] else 0) / Pow256(i) % 256
      && d[rec + 48 + i] as nat == (if Bind(0) in lay then lay[Bind(0)] else 0) / Pow256(i) % 256
      && d[rec + 56 + i] as nat == (if Tind in lay then lay[Tind] else 0) / Pow256(i) % 256
  {
    hide Pow256, Record, FlushTree;
    var flushed := FlushTree(g, dev, lay);
    RecordByte(flushed, lay, rec, size, 0, i);
    forall j: nat | j < 4
      ensures Close(g, dev, lay, rec, size)[rec + 8 + 8 * j + i] as nat ==
              (if Leaf(j) in lay then lay[Leaf(j)] else 0) / Pow256(i) % 256
    {
      RecordByte(flushed, lay, rec, size, 1 + j, i);
      assert rec + 8 * (1 + j) + i == rec + 8 + 8 * j + i;
    }
    RecordByte(flushed, lay, rec, size, 5, i);
    RecordByte(flushed, lay, rec, size, 6, i);
    RecordByte(flushed, lay, rec, size, 7, i);
  }

  // ----- index blocks -----

  lemma SlotByte(g: Geo, dev: seq<byte>, lay: Layout, s: Pos, k: nat, i: nat)
    requires s in lay && !s.Leaf? && i < 8 && SlotStored(g, dev, lay, s, k)
    ensures lay[s] * g.bs + 8 * k + 8 <= |dev|
    ensures dev[lay[s] * g.bs + 8 * k + i] as nat == Id(lay, Child(g.p, s, k)) / Pow256(i) % 256
  {
    WordByteIs(dev, SlotAddress(g, Id(lay, s), k), Id(lay, Child(g.p, s, k)), i);
  }

  /** Closing writes every index block. Slot k of indirect block m is the id of leaf 4 + m*p + k, where p is the
      number of slots; it is at address a. */
  lemma CloseWritesIndSlot(g: Geo, dev: seq<byte>, lay: Layout, rec: nat, size: nat, m: nat, k: nat, i: nat)
    returns (a: nat)
    requires Storable(g, lay, rec, size, |dev|) && Ind(m) in lay && k < g.p && i < 8
    ensures a == lay[Ind(m)] * g.bs + 8 * k
    ensures var d, c := Close(g, dev, lay, rec, size), Leaf(4 + m * g.p + k);
      && a + 8 <= |d|
      && d[a + i] as nat == (if c in lay then lay[c] else 0) / Pow256(i) % 256
  {
    hide Storable, Close, SlotStored, Pow256;
    CloseStores(g, dev, lay, rec, size);
    a := lay[Ind(m)] * g.bs + 8 * k;
    SlotByte(g, Close(g, dev, lay, rec, size), lay, Ind(m), k, i);
  }

  /** Slot k of bi-indirect block b is the id of indirect block 1 + b*p + k. */
  lemma CloseWritesBindSlot(g: Geo, dev: seq<byte>, lay: Layout, rec: nat, size: nat, b: nat, k: nat, i: nat)
    returns (a: nat)
    requires Storable(g, lay, rec, size, |dev|) && Bind(b) in lay && k < g.p && i < 8
    ensures a == lay[Bind(b)] * g.bs + 8 * k
    ensures var d, c := Close(g, dev, lay, rec, size), Ind(1 + b * g.p + k);
      && a + 8 <= |d|
      && d[a + i] as nat == (if c in lay then lay[c] else 0) / Pow256(i) % 256
  {
    hide Storable, Close, SlotStored, Pow256;
    CloseStores(g, dev, lay, rec, size);
    a := lay[Bind(b)] * g.bs + 8 * k;
    SlotByte(g, Close(g, dev, lay, rec, size), lay, Bind(b), k, i);
  }

  /** Slot k of the tri-indirect block is the id of bi-indirect block 1 + k. */
  lemma CloseWritesTindSlot(g: Geo, dev: seq<byte>, lay: Layout, rec: nat, size: nat, k: nat, i: nat)
    returns (a: nat)
    requires Storable(g, lay, rec, size, |dev|) && Tind in lay && k < g.p && i < 8
    ensures a == lay[Tind] * g.bs + 8 * k
    ensures var d, c := Close(g, dev, lay, rec, size), Bind(1 + k);
      && a + 8 <= |d|
      && d[a + i] as nat == (if c in lay then lay[c] else 0) / Pow256(i) % 256
  {
    hide Storable, Close, SlotStored, Pow256;
    CloseStores(g, dev, lay, rec, size);
    a := lay[Tind] * g.bs + 8 * k;
    SlotByte(g, Close(g, dev, lay, rec, size), lay, Tind, k, i);
  }

  /** What one indirect block looks like once it has been written, whatever else is on the device. */
  lemma {:induction false} FlushWritesInd(g: Geo, dev: seq<byte>, lay: Layout, m: nat, n: nat, k: nat, i: nat)
    requires Id(lay, Ind(m)) * g.bs + 8 * n <= |dev| && k < n && i < 8
    ensures Flush(g, dev, lay, Ind(m), n)[Id(lay, Ind(m)) * g.bs + 8 * k + i] as nat ==
            Id(lay, Child(g.p, Ind(m), k)) / Pow256(i) % 256
  {
    hide Pow256, Id, Flush;
    var at := Id(lay, Ind(m)) * g.bs;
    FlushStep(g, dev, lay, Ind(m), n - 1, at + 8 * (n - 1));
    var before := Flush(g, dev, lay, Ind(m), n - 1);
    var x := Id(lay, Child(g.p, Ind(m), n - 1));
    if k == n - 1 {
      WordByte(x, i);
      assert Put(before, at + 8 * k, x)[at + 8 * k..at + 8 * k + 8][i] == Encode64(x)[i];
    } else {
      FlushWritesInd(g, dev, lay, m, n - 1, k, i);
    }
  }
}
