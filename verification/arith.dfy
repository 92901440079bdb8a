/** Facts about division by a variable that the solver needs spelled out. */
module Arith {

  /** a * b, by repeated addition: the solver does not multiply unless MulIs is called. */
  function Mul(a: nat, b: nat): nat {
    if a == 0 then 0 else Mul(a - 1, b) + b
  }

  /** Whole times b fits into a. */
  function Quotient(a: nat, b: nat): nat
    requires b > 0
  {
    a / b
  }

  lemma {:induction false} MulIs(a: nat, b: nat)
    ensures Mul(a, b) == a * b
  {
    if a > 0 {
      MulIs(a - 1, b);
      assert a * b == (a - 1) * b + b;
    }
  }

  lemma MulPlus(a: nat, b: nat, c: nat)
    ensures Mul(a + b, c) == Mul(a, c) + Mul(b, c)
  {
    MulIs(a, c);
    MulIs(b, c);
    MulIs(a + b, c);
    assert (a + b) * c == a * c + b * c;
  }

  lemma MulMono(a: nat, b: nat, p: nat)
    requires a <= b
    ensures a * p <= b * p
  {}

  lemma {:induction false} MulAssoc(a: nat, b: nat, c: nat)
    ensures Mul(Mul(a, b), c) == Mul(a, Mul(b, c))
  {
    if a > 0 {
      MulAssoc(a - 1, b, c);
      MulPlus(Mul(a - 1, b), b, c);
    }
  }

  /** A block number below n ends below n blocks. */
  lemma BlockEnd(k: nat, n: nat, s: nat)
    requires k < n
    ensures k * s + s <= n * s
  {
    MulMono(k + 1, n, s);
    assert (k + 1) * s == k * s + s;
  }

  lemma SmallMultiple(d: int, w: int)
    requires w > 0 && -w < d * w < w
    ensures d == 0
  {}

  lemma DivModUnique(p: nat, q: nat, r: nat)
    requires r < p
    ensures (q * p + r) / p == q && (q * p + r) % p == r
  {
    var width: int := p;
    var x: int := q * width + r;
    var d: int := q - x / width;
    assert d * width == x % width - r;
    SmallMultiple(d, width);
  }

  lemma DivModIs(a: nat, p: nat, q: nat, r: nat)
    requires r < p && a == q * p + r
    ensures a / p == q && a % p == r
  {
    DivModUnique(p, q, r);
  }

  lemma DivModSplit(a: nat, p: nat) returns (q: nat, r: nat)
    requires p > 0
    ensures a == q * p + r && r < p && q == a / p && r == a % p
  {
    q, r := a / p, a % p;
  }

  lemma Regroup(a: nat, q: nat, s: nat, t: nat, d: nat, r: nat, o: nat)
    requires t == q * s && r < q && o < s && a == (d * q + r) * s + o
    ensures t > 0 && a == d * t + (r * s + o) && r * s + o < t
  {
    assert (r + 1) * s <= q * s;
    assert (d * q) * s == d * (q * s);
  }

  /** Dividing by q*s is dividing by s and then by q. */
  lemma DivDiv(a: nat, q: nat, s: nat, t: nat)
    requires q > 0 && s > 0 && t == q * s
    ensures t > 0
    ensures a / t == (a / s) / q
    ensures (a % t) / s == (a / s) % q
  {
    var k, o := DivModSplit(a, s);
    var d, r := DivModSplit(k, q);
    Regroup(a, q, s, t, d, r, o);
    DivModIs(a, t, d, r * s + o);
    DivModIs(r * s + o, s, r, o);
  }

  lemma DivBelow(a: nat, q: nat, s: nat, t: nat)
    requires s > 0 && t == q * s
    ensures a < t <==> a / s < q
  {
    var k, o := DivModSplit(a, s);
    if k < q {
      MulMono(k + 1, q, s);
    } else {
      MulMono(q, k, s);
    }
  }

  lemma DivShift(a: nat, q: nat, s: nat, t: nat)
    requires s > 0 && t == q * s && a >= t
    ensures (a - t) / s == a / s - q
  {
    DivBelow(a, q, s, t);
    var k, o := DivModSplit(a, s);
    assert a - t == (k - q) * s + o;
    DivModIs(a - t, s, k - q, o);
  }

  lemma DivMono(a: nat, b: nat, s: nat)
    requires s > 0 && a <= b
    ensures a / s <= b / s
  {
    var k, o := DivModSplit(a, s);
    var q, r := DivModSplit(b, s);
    if q < k {
      MulMono(q + 1, k, s);
    }
  }
}
