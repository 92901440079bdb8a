/**
 The first-fit bitmap allocator shared by blocks and inodes.

 A set bit marks a free id. `Alloc` is the abstract allocator: the bits and the count the
 library keeps beside them.
 */
module Bitmap {
  import opened Bytes

  datatype Alloc = Alloc(bits: seq<bool>, free: nat)

  datatype Taken = Taken(id: nat, al: Alloc)

  // ----- bits of a byte array -----

  function Mask(k: nat): byte
    requires k < 8
  {
    if k == 0 then 1 else if k == 1 then 2 else if k == 2 then 4 else if k == 3 then 8
    else if k == 4 then 16 else if k == 5 then 32 else if k == 6 then 64 else 128
  }

  predicate BitOf(b: byte, k: nat)
    requires k < 8
  {
    b & Mask(k) != 0
  }

  function Bits(bytes: seq<byte>): (bits: seq<bool>)
    ensures |bits| == 8 * |bytes|
  {
    seq(8 * |bytes|, i requires 0 <= i < 8 * |bytes| => BitOf(bytes[i / 8], i % 8))
  }

  /** Bit j of a bitmap is bit j % 8 of byte j / 8, counted from the lowest. */
  lemma BitsAre(bytes: seq<byte>, j: nat)
    requires j < 8 * |bytes|
    ensures Bits(bytes)[j] <==> (bytes[j / 8] >> (j % 8)) & 1 == 1
  {
    ShiftedDown(bytes[j / 8], j % 8);
  }

  lemma ShiftedDown(b: byte, k: nat)
    requires k < 8
    ensures BitOf(b, k) <==> (b >> k) & 1 == 1
  {}

  /** Subtracting a set bit's mask, as mkudbfs does, is the same as flipping the bit. */
  lemma SubtractClearsBit(b: byte, k: nat)
    requires k < 8 && BitOf(b, k)
    ensures b - Mask(k) == b ^ Mask(k)
  {}

  lemma NonzeroByteHasBit(b: byte)
    ensures b == 0 <==> forall k: nat | k < 8 :: !BitOf(b, k)
  {
    if b != 0 {
      assert BitOf(b, 0) || BitOf(b, 1) || BitOf(b, 2) || BitOf(b, 3)
          || BitOf(b, 4) || BitOf(b, 5) || BitOf(b, 6) || BitOf(b, 7);
    }
  }

  /** b is a with bit k, which was set, cleared. */
  ghost predicate ClearsBit(a: byte, b: byte, k: nat)
    requires k < 8
  {
    BitOf(a, k) && forall j :: 0 <= j < 8 ==> BitOf(b, j) == (j != k && BitOf(a, j))
  }

  lemma XorClearsOneBit(a: byte, k: nat, j: nat)
    requires k < 8 && j < 8 && BitOf(a, k)
    ensures BitOf(a ^ Mask(k), j) == (j != k && BitOf(a, j))
  {}

  lemma XorClearsBit(a: byte, k: nat)
    requires k < 8 && BitOf(a, k)
    ensures ClearsBit(a, a ^ Mask(k), k)
  {
    forall j | 0 <= j < 8
      ensures BitOf(a ^ Mask(k), j) == (j != k && BitOf(a, j))
    {
      XorClearsOneBit(a, k, j);
    }
  }

  lemma ClearingOneBit(s: seq<byte>, q: nat, k: nat, b: byte)
    requires q < |s| && k < 8 && ClearsBit(s[q], b, k)
    ensures Bits(s[q := b]) == Bits(s)[8 * q + k := false]
  {
    var was, now := Bits(s), Bits(s[q := b]);
    forall i | 0 <= i < |was|
      ensures now[i] == was[8 * q + k := false][i]
    {
      assert i == 8 * (i / 8) + i % 8;
    }
  }

  // ----- the abstract allocator -----

  /** Least i >= from whose bit is set, or |bits|. */
  function FirstSet(bits: seq<bool>, from: nat): (i: nat)
    requires from <= |bits|
    ensures from <= i <= |bits|
    ensures i < |bits| ==> bits[i]
    ensures forall j :: from <= j < i ==> !bits[j]
    decreases |bits| - from
  {
    if from == |bits| || bits[from] then from else FirstSet(bits, from + 1)
  }

  /** One allocation. Id 0 is the failure value. */
  function Take(al: Alloc): Taken
  {
    var i := FirstSet(al.bits, 0);
    if al.free > |al.bits| || al.free == 0 || i == |al.bits| then
      Taken(0, al)
    else
      Taken(i, Alloc(al.bits[i := false], al.free - 1))
  }

  function CountBelow(bits: seq<bool>, c: nat): nat
    requires c <= |bits|
  {
    if c == 0 then 0 else CountBelow(bits, c - 1) + (if bits[c - 1] then 1 else 0)
  }

  /** The allocator is healthy for ids below c: bit 0 is never handed out, and the free count is
      the number of free ids below c. */
  predicate Healthy(al: Alloc, c: nat)
  {
    && 0 < c <= |al.bits|
    && !al.bits[0]
    && al.free == CountBelow(al.bits, c)
  }

  lemma {:induction false} CountAfterClear(bits: seq<bool>, i: nat, c: nat)
    requires i < |bits| && bits[i] && c <= |bits|
    ensures CountBelow(bits[i := false], c) == CountBelow(bits, c) - (if i < c then 1 else 0)
  {
    if c > 0 {
      CountAfterClear(bits, i, c - 1);
    }
  }

  lemma {:induction false} CountZeroIffNoneSet(bits: seq<bool>, c: nat)
    requires c <= |bits|
    ensures CountBelow(bits, c) == 0 <==> forall i :: 0 <= i < c ==> !bits[i]
    ensures CountBelow(bits, c) <= c
  {
    if c > 0 {
      CountZeroIffNoneSet(bits, c - 1);
    }
  }

  /** A healthy allocator hands out an unused nonzero id below c exactly when something is free,
      clears that bit only, and stays healthy. */
  lemma TakeHealthy(al: Alloc, c: nat)
    requires Healthy(al, c)
    ensures Healthy(Take(al).al, c)
    ensures Take(al).id == 0 <==> al.free == 0
    ensures Take(al).id == 0 ==> Take(al).al == al
    ensures Take(al).id != 0 ==>
      && Take(al).id < c
      && al.bits[Take(al).id]
      && Take(al).al.free == al.free - 1
      && Take(al).al.bits == al.bits[Take(al).id := false]
      && (forall j :: 0 <= j < Take(al).id ==> !al.bits[j])
  {
    CountZeroIffNoneSet(al.bits, c);
    var i := FirstSet(al.bits, 0);
    if al.free != 0 {
      assert i < c;
      CountAfterClear(al.bits, i, c);
    }
  }

  /** Bit 0 is the one id the failure value hides: a failed return means nothing was taken exactly when
      nothing is free, the count is refused, or bit 0 is clear. */
  lemma FailureValueHonest(al: Alloc)
    ensures (Take(al).id == 0 ==> Take(al).al == al) <==>
            (al.free == 0 || al.free > |al.bits| || !al.bits[0])
  {
    if 0 < al.free <= |al.bits| && al.bits[0] {
      assert Take(al) == Taken(0, Alloc(al.bits[0 := false], al.free - 1));
    }
  }

  // ----- runs of allocations -----

  function TakeMany(al: Alloc, k: nat): (r: (seq<nat>, Alloc))
    ensures |r.0| == k
  {
    if k == 0 then ([], al)
    else
      var (ids, a) := TakeMany(al, k - 1);
      (ids + [Take(a).id], Take(a).al)
  }

  /** Over any run of k <= free allocations the ids strictly increase, were free before and are
      taken after; nothing else changes. */
  lemma {:induction false} TakeManyRun(al: Alloc, k: nat, c: nat)
    requires Healthy(al, c) && k <= al.free
    ensures var (ids, a) := TakeMany(al, k);
      && Healthy(a, c)
      && a.free == al.free - k
      && |a.bits| == |al.bits|
      && (forall i, j :: 0 <= i < j < k ==> ids[i] < ids[j])
      && (forall i :: 0 <= i < k ==> 0 < ids[i] < c && al.bits[ids[i]])
      && (forall x :: 0 <= x < |al.bits| ==> a.bits[x] == (al.bits[x] && x !in ids))
      && (k > 0 ==> forall x :: 0 <= x <= ids[k - 1] ==> !a.bits[x])
  {
    if k > 0 {
      TakeManyRun(al, k - 1, c);
      var (ids, a) := TakeMany(al, k - 1);
      TakeHealthy(a, c);
    }
  }

  // ----- udbfslib_allocate_bit -----

  lemma NoBitBelow(s: seq<byte>, byteIndex: nat)
    requires byteIndex <= |s|
    requires forall k :: 0 <= k < byteIndex ==> s[k] == 0
    ensures forall j :: 0 <= j < 8 * byteIndex ==> !Bits(s)[j]
  {
    forall j | 0 <= j < 8 * byteIndex
      ensures !Bits(s)[j]
    {
      NonzeroByteHasBit(s[j / 8]);
    }
  }

  lemma FirstSetIs(bits: seq<bool>, i: nat)
    requires i < |bits| && bits[i] && forall j :: 0 <= j < i ==> !bits[j]
    ensures FirstSet(bits, 0) == i
  {}

  /** The bit the two scanning loops stop at is the least set one. */
  lemma ScanFindsFirst(s: seq<byte>, q: nat, k: nat)
    requires q < |s| && k < 8 && BitOf(s[q], k)
    requires forall i :: 0 <= i < q ==> s[i] == 0
    requires forall j :: 0 <= j < k ==> !BitOf(s[q], j)
    ensures FirstSet(Bits(s), 0) == 8 * q + k
  {
    NoBitBelow(s, q);
    forall i | 8 * q <= i < 8 * q + k
      ensures !Bits(s)[i]
    {
      assert i / 8 == q && i % 8 == i - 8 * q;
    }
    FirstSetIs(Bits(s), 8 * q + k);
  }

  lemma TakingFound(s: seq<byte>, freeCount: nat, q: nat, k: nat, b: byte)
    requires 0 < freeCount <= 8 * |s|
    requires q < |s| && k < 8 && ClearsBit(s[q], b, k)
    requires forall i :: 0 <= i < q ==> s[i] == 0
    requires forall j :: 0 <= j < k ==> !BitOf(s[q], j)
    ensures Take(Alloc(Bits(s), freeCount)) == Taken(8 * q + k, Alloc(Bits(s[q := b]), freeCount - 1))
  {
    ScanFindsFirst(s, q, k);
    ClearingOneBit(s, q, k, b);
  }

  /** What an allocation does, whatever the count says. */
  lemma TakeIs(al: Alloc)
    ensures var t := Take(al);
      if al.free == 0 || al.free > |al.bits| || (forall j :: 0 <= j < |al.bits| ==> !al.bits[j]) then
        t == Taken(0, al)
      else
        && t.id < |al.bits| && al.bits[t.id] && (forall j :: 0 <= j < t.id ==> !al.bits[j])
        && t.al.bits == al.bits[t.id := false] && t.al.free == al.free - 1
  {}

  method FlipBit(a: byte, k: nat) returns (b: byte)
    requires k < 8 && BitOf(a, k)
    ensures ClearsBit(a, b, k)
  {
    XorClearsBit(a, k);
    b := a ^ Mask(k);
  }

  /** Returns the id and the new free count; the C function updates the count through a pointer. */
  method AllocateBit(bitmap: array<byte>, freeCount: nat) returns (id: nat, newFree: nat)
    modifies bitmap
    ensures Taken(id, Alloc(Bits(bitmap[..]), newFree)) == Take(Alloc(Bits(old(bitmap[..])), freeCount))
    ensures var was, now := Bits(old(bitmap[..])), Bits(bitmap[..]);
      if freeCount == 0 || freeCount > 8 * bitmap.Length || (forall j :: 0 <= j < |was| ==> !was[j]) then
        id == 0 && newFree == freeCount && now == was
      else
        && id < |was| && was[id] && (forall j :: 0 <= j < id ==> !was[j])
        && now == was[id := false] && newFree == freeCount - 1
  {
    TakeIs(Alloc(Bits(bitmap[..]), freeCount));
    id, newFree := TakeBit(bitmap, freeCount);
  }

  /** The two scanning loops and the flip. */
  method TakeBit(bitmap: array<byte>, freeCount: nat) returns (id: nat, newFree: nat)
    modifies bitmap
    ensures Taken(id, Alloc(Bits(bitmap[..]), newFree)) == Take(Alloc(Bits(old(bitmap[..])), freeCount))
  {
    if freeCount > 8 * bitmap.Length {
      return 0, freeCount;
    }
    if freeCount == 0 {
      return 0, freeCount;
    }
    ghost var s := bitmap[..];
    var byteIndex := 0;
    while byteIndex < bitmap.Length && bitmap[byteIndex] == 0
      invariant 0 <= byteIndex <= bitmap.Length
      invariant forall k :: 0 <= k < byteIndex ==> s[k] == 0
    {
      byteIndex := byteIndex + 1;
    }
    if byteIndex == bitmap.Length {
      NoBitBelow(s, byteIndex);
      return 0, freeCount;
    }
    var bit := FirstBitOf(bitmap[byteIndex]);
    var flipped := FlipBit(bitmap[byteIndex], bit);
    TakingFound(s, freeCount, byteIndex, bit, flipped);
    bitmap[byteIndex] := flipped;
    assert bitmap[..] == s[byteIndex := flipped];
    id, newFree := 8 * byteIndex + bit, freeCount - 1;
  }

  /** The inner loop: the least set bit of a nonzero byte. */
  method FirstBitOf(b: byte) returns (bit: nat)
    requires b != 0
    ensures bit < 8 && BitOf(b, bit)
    ensures forall k :: 0 <= k < bit ==> !BitOf(b, k)
  {
    NonzeroByteHasBit(b);
    bit := 0;
    while !BitOf(b, bit)
      invariant 0 <= bit < 8
      invariant forall k :: 0 <= k < bit ==> !BitOf(b, k)
      decreases 8 - bit
    {
      bit := bit + 1;
    }
  }
}
