/**
 Bytes, little-endian 64-bit words and the block device they live on.

 The library moves ids and sizes between memory and disk by writing the bytes of a
 `uint64_t`; this module says which bytes those are and proves that reading them back
 gives the number.
 */
module Bytes {
  import opened Arith

  type byte = bv8

  const WORD_LIMIT: nat := 0x1_0000_0000_0000_0000

  // ----- little-endian encoding -----

  function Pow256(n: nat): (r: nat)
    ensures r > 0
  {
    if n == 0 then 1 else 256 * Pow256(n - 1)
  }

  /** The low n bytes of x, least significant first; higher digits are dropped, as a cast would. */
  function Encode(x: nat, n: nat): (s: seq<byte>)
    ensures |s| == n
  {
    if n == 0 then [] else [(x % 256) as byte] + Encode(x / 256, n - 1)
  }

  function Decode(s: seq<byte>): nat
  {
    if s == [] then 0 else (s[0] as nat) + 256 * Decode(s[1..])
  }

  lemma ByteRoundTrip(n: nat)
    requires n < 256
    ensures (n as byte) as nat == n
  {
    // By the number of significant bits.
    if n < 16 {
    } else if n < 32 {
    } else if n < 64 {
    } else if n < 128 {
    } else {
    }
  }

  lemma {:induction false} EncodeRoundTrip(x: nat, n: nat)
    requires x < Pow256(n)
    ensures Decode(Encode(x, n)) == x
  {
    if n > 0 {
      ByteRoundTrip(x % 256);
      assert Encode(x, n)[1..] == Encode(x / 256, n - 1);
      EncodeRoundTrip(x / 256, n - 1);
    }
  }

  /** Byte i of an encoded number is its digit i to the base 256, and a number that is read is made of these
      digits. */
  lemma {:induction false} EncodeByte(x: nat, n: nat, i: nat)
    requires i < n
    ensures Encode(x, n)[i] as nat == x / Pow256(i) % 256
  {
    if i == 0 {
      ByteRoundTrip(x % 256);
    } else {
      EncodeByte(x / 256, n - 1, i - 1);
      DivDiv(x, Pow256(i - 1), 256, Pow256(i));
    }
  }

  /** Numbers that are too large lose their upper digits. */
  lemma {:induction false} EncodeCuts(x: nat, n: nat)
    ensures Decode(Encode(x, n)) == x % Pow256(n)
  {
    if n > 0 {
      ByteRoundTrip(x % 256);
      assert Encode(x, n)[1..] == Encode(x / 256, n - 1);
      EncodeCuts(x / 256, n - 1);
      DivDiv(x, Pow256(n - 1), 256, Pow256(n));
      LowDigit(x, Pow256(n - 1));
    }
  }

  lemma LowDigit(x: nat, b: nat)
    requires b > 0
    ensures x % (256 * b) == x % 256 + 256 * (x / 256 % b)
  {
    var k, o := DivModSplit(x, 256);
    var d, r := DivModSplit(k, b);
    Regroup(x, b, 256, b * 256, d, r, o);
    DivModIs(x, b * 256, d, r * 256 + o);
  }

  lemma {:induction false} DecodeBound(s: seq<byte>)
    ensures Decode(s) < Pow256(|s|)
  {
    if s != [] {
      DecodeBound(s[1..]);
    }
  }

  lemma WordBound(s: seq<byte>)
    requires |s| == 8
    ensures Decode(s) < WORD_LIMIT
  {
    DecodeBound(s);
    WordLimitIsPow();
  }

  lemma WordLimitIsPow()
    ensures Pow256(8) == WORD_LIMIT
  {
    assert Pow256(2) == 0x1_0000;
    assert Pow256(4) == 0x1_0000_0000;
    assert Pow256(6) == 0x1_0000_0000_0000;
  }

  function Encode64(x: nat): (s: seq<byte>)
    ensures |s| == 8
  {
    Encode(x, 8)
  }

  lemma Word64RoundTrip(x: nat)
    requires x < WORD_LIMIT
    ensures Decode(Encode64(x)) == x
  {
    WordLimitIsPow();
    EncodeRoundTrip(x, 8);
  }

  /** A word is stored least significant byte first. */
  lemma WordByte(x: nat, i: nat)
    requires i < 8
    ensures Encode64(x)[i] as nat == x / Pow256(i) % 256
  {
    EncodeByte(x, 8, i);
  }

  lemma Word64Cuts(x: nat)
    ensures Decode(Encode64(x)) == x % 0x1_0000_0000_0000_0000
  {
    EncodeCuts(x, 8);
    WordLimitIsPow();
  }

  lemma PowersOf256()
    ensures Pow256(0) == 1 && Pow256(1) == 0x100 && Pow256(2) == 0x1_0000 && Pow256(3) == 0x100_0000
    ensures Pow256(4) == 0x1_0000_0000 && Pow256(5) == 0x100_0000_0000
    ensures Pow256(6) == 0x1_0000_0000_0000 && Pow256(7) == 0x100_0000_0000_0000
  {
    assert Pow256(2) == 0x1_0000;
    assert Pow256(4) == 0x1_0000_0000;
    assert Pow256(6) == 0x1_0000_0000_0000;
  }

  /** Several words one after the other. */
  function Words(xs: seq<nat>): (s: seq<byte>)
    ensures |s| == 8 * |xs|
  {
    if xs == [] then [] else Encode64(xs[0]) + Words(xs[1..])
  }

  lemma {:induction false} WordsAt(xs: seq<nat>, j: nat)
    requires j < |xs|
    ensures Words(xs)[8 * j..8 * j + 8] == Encode64(xs[j])
  {
    if j > 0 {
      WordsAt(xs[1..], j - 1);
      assert Words(xs)[8 * j..8 * j + 8] == Words(xs[1..])[8 * (j - 1)..8 * (j - 1) + 8];
    }
  }

  // ----- stretches of a device -----

  function Splice(d: seq<byte>, off: nat, s: seq<byte>): (r: seq<byte>)
    requires off + |s| <= |d|
    ensures |r| == |d|
    ensures r[off..off + |s|] == s
    ensures forall a :: 0 <= a < |d| && !(off <= a < off + |s|) ==> r[a] == d[a]
    ensures forall a :: off <= a < off + |s| ==> r[a] == s[a - off]
  {
    d[..off] + s + d[off + |s|..]
  }

  lemma SpliceTwice(d: seq<byte>, a: nat, s: seq<byte>, t: seq<byte>)
    requires a + |s| + |t| <= |d|
    ensures Splice(Splice(d, a, s), a + |s|, t) == Splice(d, a, s + t)
  {}

  /** s written at byte offset off, unless it does not fit on the device. */
  function Store(d: seq<byte>, off: nat, s: seq<byte>): (r: seq<byte>)
    ensures |r| == |d|
    ensures forall a :: 0 <= a < |d| && !(off <= a < off + |s|) ==> r[a] == d[a]
    ensures off + |s| <= |d| ==> r[off..off + |s|] == s
  {
    if off + |s| <= |d| then Splice(d, off, s) else d
  }

  /** The 64-bit word stored at byte offset off. */
  function Word(d: seq<byte>, off: nat): nat
    requires off + 8 <= |d|
  {
    Decode(d[off..off + 8])
  }

  /** What the word is, byte by byte. */
  lemma WordIsLittleEndian(d: seq<byte>, off: nat)
    requires off + 8 <= |d|
    ensures Word(d, off) ==
      d[off] as nat + 0x100 * d[off + 1] as nat + 0x1_0000 * d[off + 2] as nat + 0x100_0000 * d[off + 3] as nat
      + 0x1_0000_0000 * d[off + 4] as nat + 0x100_0000_0000 * d[off + 5] as nat
      + 0x1_0000_0000_0000 * d[off + 6] as nat + 0x100_0000_0000_0000 * d[off + 7] as nat
  {
    DecodeEight(d[off..off + 8]);
  }

  lemma DecodeEight(s: seq<byte>)
    requires |s| == 8
    ensures Decode(s) ==
      s[0] as nat + 0x100 * s[1] as nat + 0x1_0000 * s[2] as nat + 0x100_0000 * s[3] as nat
      + 0x1_0000_0000 * s[4] as nat + 0x100_0000_0000 * s[5] as nat
      + 0x1_0000_0000_0000 * s[6] as nat + 0x100_0000_0000_0000 * s[7] as nat
  {
    assert Decode(s) == s[0] as nat + 0x100 * s[1] as nat + 0x1_0000 * Decode(s[2..]) by { DecodeTwo(s); }
    DecodeTwo(s[2..]);
    DecodeTwo(s[2..][2..]);
    DecodeTwo(s[2..][2..][2..]);
    assert s[2..][2..][2..][2..] == [];
  }

  lemma DecodeTwo(s: seq<byte>)
    requires |s| >= 2
    ensures Decode(s) == s[0] as nat + 0x100 * s[1] as nat + 0x1_0000 * Decode(s[2..])
  {
    assert s[1..][1..] == s[2..];
  }

  lemma WordWritten(d: seq<byte>, off: nat, x: nat)
    requires off + 8 <= |d| && x < WORD_LIMIT
    ensures Word(Splice(d, off, Encode64(x)), off) == x
  {
    Word64RoundTrip(x);
  }

  lemma WordUntouched(d: seq<byte>, d': seq<byte>, off: nat)
    requires |d| == |d'| && off + 8 <= |d|
    requires forall a :: off <= a < off + 8 ==> d'[a] == d[a]
    ensures Word(d', off) == Word(d, off)
  {
    assert d'[off..off + 8] == d[off..off + 8];
  }

  // ----- the device -----

  /** The block device behind the mount's file descriptor: a fixed number of bytes. A transfer
      that does not fit on the device fails and moves nothing. */
  class Device {
    var bytes: seq<byte>

    method Write(off: nat, s: seq<byte>) returns (ok: bool)
      modifies this
      ensures ok <==> off + |s| <= |bytes|
      ensures |bytes| == old(|bytes|)
      ensures bytes == Store(old(bytes), off, s)
    {
      ok := off + |s| <= |bytes|;
      if ok {
        bytes := Splice(bytes, off, s);
      }
    }

    method Read(off: nat, len: nat) returns (ok: bool, s: seq<byte>)
      ensures ok <==> off + len <= |bytes|
      ensures s == if ok then bytes[off..off + len] else []
    {
      ok := off + len <= |bytes|;
      s := if ok then bytes[off..off + len] else [];
    }
  }
}
