/** Finding the leaf that holds a file offset. */
module Locating {
  import opened Arith
  import opened Layouts

  /** The storage sizes the mount keeps: bytes in a block, and reachable through the direct blocks,
      one indirect, one bi-indirect and one tri-indirect block. */
  datatype Sizes = Sizes(bs: Size, dir: Size, ind: Size, bind: Size, tind: Size)

  predicate SizesFor(p: Fanout, z: Sizes) {
    z.dir == 4 * z.bs && z.ind == Mul(p, z.bs) && z.bind == Mul(p, z.ind) && z.tind == Mul(p, z.bind)
  }

  /** Which slots lead to the leaf. */
  datatype Where = Direct(id: int) | InInd(id: int) | InBind(indId: int, id: int)
                 | InTind(bindId: int, indId: int, id: int) | PastEnd

  /** The arithmetic of udbfslib_select_active_inode_block. */
  function Locate(z: Sizes, cursor: nat): Where {
    var adjusted := cursor - z.dir;
    if cursor < z.dir then Direct(cursor / z.bs)
    else if cursor < z.ind + z.dir then InInd(adjusted / z.bs)
    else if cursor < z.bind + z.ind + z.dir then
      InBind((adjusted - z.ind) / z.ind, ((adjusted - z.ind) % z.ind) / z.bs)
    else if cursor < z.tind + z.bind + z.ind + z.dir then
      var rest := (adjusted - z.ind - z.bind) % z.bind;
      InTind((adjusted - z.ind - z.bind) / z.bind, rest / z.ind, (rest % z.ind) / z.bs)
    else PastEnd
  }

  /** Slot indices that name a leaf of the tree. */
  predicate InRange(p: Fanout, w: Where) {
    match w
    case Direct(id) => 0 <= id < 4
    case InInd(id) => 0 <= id < p
    case InBind(indId, id) => 0 <= indId < p && 0 <= id < p
    case InTind(bindId, indId, id) => 0 <= bindId < p && 0 <= indId < p && 0 <= id < p
    case PastEnd => false
  }

  /** The leaf a slot path names. */
  function LeafAt(p: Fanout, w: Where): nat
    requires InRange(p, w)
  {
    match w
    case Direct(id) => id
    case InInd(id) => LeafPos(p, 0, id)
    case InBind(indId, id) => LeafPos(p, IndPos(p, 0, indId), id)
    case InTind(bindId, indId, id) => LeafPos(p, IndPos(p, 1 + bindId, indId), id)
  }

  /** Locate, in block numbers. */
  function Slots(p: Fanout, sq: Size, k: nat): Where {
    if k < 4 then Direct(k)
    else if k < 4 + p then InInd(k - 4)
    else if k < 4 + p + sq then InBind((k - 4 - p) / p, (k - 4 - p) % p)
    else if k < 4 + p + sq + p * sq then
      var j := k - 4 - p - sq;
      InTind(j / sq, (j % sq) / p, (j % sq) % p)
    else PastEnd
  }

  predicate InBlocks(p: Fanout, sq: Size, z: Sizes) {
    && sq == p * p
    && z.dir == 4 * z.bs && z.ind == p * z.bs && z.bind == sq * z.bs && z.tind == (p * sq) * z.bs
  }

  /** The regions end at whole numbers of blocks. */
  lemma Regions(p: Fanout, sq: Size, z: Sizes, cursor: nat)
    requires InBlocks(p, sq, z)
    ensures var k := cursor / z.bs;
      && (cursor < z.dir <==> k < 4)
      && (cursor < z.ind + z.dir <==> k < 4 + p)
      && (cursor < z.bind + z.ind + z.dir <==> k < 4 + p + sq)
      && (cursor < z.tind + z.bind + z.ind + z.dir <==> k < 4 + p + sq + p * sq)
  {
    DivBelow(cursor, 4, z.bs, z.dir);
    DivBelow(cursor, 4 + p, z.bs, z.ind + z.dir);
    DivBelow(cursor, 4 + p + sq, z.bs, z.bind + z.ind + z.dir);
    DivBelow(cursor, 4 + p + sq + p * sq, z.bs, z.tind + z.bind + z.ind + z.dir);
  }

  lemma BindSlots(p: Fanout, bs: Size, ind: Size, a: nat)
    requires ind == p * bs
    ensures a / ind == (a / bs) / p && (a % ind) / bs == (a / bs) % p
  {
    DivDiv(a, p, bs, ind);
  }

  lemma TindSlots(p: Fanout, sq: Size, bs: Size, ind: Size, bind: Size, a: nat)
    requires ind == p * bs && bind == sq * bs
    ensures var j, rest := a / bs, a % bind;
      && a / bind == j / sq
      && rest / ind == (j % sq) / p
      && (rest % ind) / bs == (j % sq) % p
  {
    DivDiv(a, sq, bs, bind);
    DivDiv(a % bind, p, bs, ind);
  }

  lemma LocateDirectOrInd(p: Fanout, sq: Size, z: Sizes, cursor: nat)
    requires InBlocks(p, sq, z) && cursor / z.bs < 4 + p
    ensures Locate(z, cursor) == Slots(p, sq, cursor / z.bs)
  {
    Regions(p, sq, z, cursor);
    if cursor >= z.dir {
      DivShift(cursor, 4, z.bs, z.dir);
    }
  }

  lemma RegionEnds(p: Fanout, sq: Size, z: Sizes)
    requires InBlocks(p, sq, z)
    ensures z.ind + z.dir == (4 + p) * z.bs && z.bind + z.ind + z.dir == (4 + p + sq) * z.bs
  {}

  lemma LocateBind(p: Fanout, sq: Size, z: Sizes, cursor: nat)
    requires InBlocks(p, sq, z) && 4 + p <= cursor / z.bs < 4 + p + sq
    ensures Locate(z, cursor) == Slots(p, sq, cursor / z.bs)
  {
    Regions(p, sq, z, cursor);
    var a := cursor - z.dir - z.ind;
    assert a / z.bs == cursor / z.bs - 4 - p by {
      RegionEnds(p, sq, z);
      DivShift(cursor, 4 + p, z.bs, z.ind + z.dir);
    }
    BindSlots(p, z.bs, z.ind, a);
  }

  lemma RegionStart(p: Fanout, sq: Size, z: Sizes, cursor: nat) returns (a: nat)
    requires InBlocks(p, sq, z) && 4 + p + sq <= cursor / z.bs < 4 + p + sq + p * sq
    ensures cursor == z.bind + z.ind + z.dir + a
    ensures Locate(z, cursor) == InTind(a / z.bind, (a % z.bind) / z.ind, ((a % z.bind) % z.ind) / z.bs)
  {
    Regions(p, sq, z, cursor);
    a := cursor - z.dir - z.ind - z.bind;
  }

  lemma LocateTind(p: Fanout, sq: Size, z: Sizes, cursor: nat)
    requires InBlocks(p, sq, z) && 4 + p + sq <= cursor / z.bs < 4 + p + sq + p * sq
    ensures Locate(z, cursor) == Slots(p, sq, cursor / z.bs)
  {
    var a: nat := RegionStart(p, sq, z, cursor);
    assert a / z.bs == cursor / z.bs - 4 - p - sq by {
      RegionEnds(p, sq, z);
      DivShift(cursor, 4 + p + sq, z.bs, z.bind + z.ind + z.dir);
    }
    TindSlots(p, sq, z.bs, z.ind, z.bind, a);
  }

  lemma LocateIsSlots(p: Fanout, sq: Size, z: Sizes, cursor: nat)
    requires InBlocks(p, sq, z)
    ensures Locate(z, cursor) == Slots(p, sq, cursor / z.bs)
  {
    var k := cursor / z.bs;
    if k < 4 + p {
      LocateDirectOrInd(p, sq, z, cursor);
    } else if k < 4 + p + sq {
      LocateBind(p, sq, z, cursor);
    } else if k < 4 + p + sq + p * sq {
      LocateTind(p, sq, z, cursor);
    } else {
      Regions(p, sq, z, cursor);
    }
  }

  lemma SlotsNameLeaf(p: Fanout, sq: Size, k: nat)
    requires sq == p * p
    ensures Slots(p, sq, k).PastEnd? <==> k >= 4 + p + sq + p * sq
    ensures !Slots(p, sq, k).PastEnd? ==> InRange(p, Slots(p, sq, k)) && LeafAt(p, Slots(p, sq, k)) == k
  {
    if 4 + p <= k < 4 + p + sq {
      var q, r := DivModSplit(k - 4 - p, p);
      DivBelow(k - 4 - p, p, p, sq);
      LeafOfBindSlots(p, q, r);
    } else if 4 + p + sq <= k < 4 + p + sq + p * sq {
      var j := k - 4 - p - sq;
      var b, rest := DivModSplit(j, sq);
      var m, i := DivModSplit(rest, p);
      DivBelow(j, p, sq, p * sq);
      DivBelow(rest, p, p, sq);
      LeafOfTindSlots(p, sq, b, m, i);
    }
  }

  lemma LeafOfBindSlots(p: Fanout, m: nat, i: nat)
    ensures LeafPos(p, IndPos(p, 0, m), i) == 4 + p + m * p + i
  {}

  lemma LeafOfTindSlots(p: Fanout, sq: nat, b: nat, m: nat, i: nat)
    requires sq == p * p
    ensures LeafPos(p, IndPos(p, 1 + b, m), i) == 4 + p + sq + b * sq + m * p + i
  {
    assert (1 + (1 + b) * p + m) * p == p + p * p + b * (p * p) + m * p;
  }

  lemma SizesInBlocks(p: Fanout, z: Sizes) returns (sq: Size)
    requires SizesFor(p, z)
    ensures InBlocks(p, sq, z)
    ensures Capacity(p) == 4 + p + sq + p * sq
  {
    MulIs(p, z.bs);
    MulIs(p, z.ind);
    MulIs(p, z.bind);
    sq := p * p;
  }

  lemma LocateInBlocks(p: Fanout, sq: Size, z: Sizes, cursor: nat)
    requires InBlocks(p, sq, z)
    ensures var w, k := Locate(z, cursor), cursor / z.bs;
      && (w.PastEnd? <==> k >= 4 + p + sq + p * sq)
      && (!w.PastEnd? ==> InRange(p, w) && LeafAt(p, w) == k)
  {
    LocateIsSlots(p, sq, z, cursor);
    SlotsNameLeaf(p, sq, cursor / z.bs);
  }

  /** Lookup finds the leaf that holds the cursor, with every slot index in range, for every cursor
      below the maximum file size, and refuses every other cursor. */
  lemma LocateFindsLeaf(p: Fanout, z: Sizes, cursor: nat)
    requires SizesFor(p, z)
    ensures var w, k := Locate(z, cursor), cursor / z.bs;
      && (w.PastEnd? <==> k >= Capacity(p))
      && (!w.PastEnd? ==> InRange(p, w) && LeafAt(p, w) == k)
  {
    var sq := SizesInBlocks(p, z);
    LocateInBlocks(p, sq, z, cursor);
  }
}
