/** Floating-point numbers f * 2^e with 64-bit significands. */
module DiyFp {
  import opened Powers
  import opened Sizes

  datatype Fp = Fp(f: nat, e: int)

  /** The halves of a 64-bit number. */
  function Lo(x: nat): (r: nat)
    ensures r < 0x1_0000_0000
  {
    x % 0x1_0000_0000
  }

  function Hi(x: nat): nat {
    x / 0x1_0000_0000
  }

  /** The four partial products and the rounded middle column, each as the 64-bit
      machine computes it. */
  function Partial(a: nat, b: nat): nat {
    U64(a * b)
  }

  function Column(p0: nat, p1: nat, p2: nat): nat {
    U64(U64(Hi(p0) + Lo(p1)) + Lo(p2))
  }

  /** diyfp::mul, from 32-bit halves. */
  function Mul(x: Fp, y: Fp): Fp {
    var p0 := Partial(Lo(x.f), Lo(y.f));
    var p1 := Partial(Lo(x.f), Hi(y.f));
    var p2 := Partial(Hi(x.f), Lo(y.f));
    var p3 := Partial(Hi(x.f), Hi(y.f));
    var q := U64(Column(p0, p1, p2) + 0x8000_0000);
    Fp(U64(U64(U64(p3 + Hi(p2)) + Hi(p1)) + Hi(q)), x.e + y.e + 64)
  }

  lemma HalfProduct(a: nat, b: nat)
    requires a < 0x1_0000_0000 && b < 0x1_0000_0000
    ensures a * b <= 0xFFFF_FFFE_0000_0001 && Partial(a, b) == a * b
  {
    hide U64;
    Products(a, 0xFFFF_FFFF, b, 0xFFFF_FFFF);
  }

  lemma Products(a: nat, c: nat, b: nat, d: nat)
    requires a <= c && b <= d
    ensures a * b <= c * d
  {
    Monotone(a, c, b);
    Monotone(b, d, c);
  }

  lemma Expand(a: nat, b: nat, c: nat, d: nat)
    ensures (a + 0x1_0000_0000 * b) * (c + 0x1_0000_0000 * d) ==
            a * c + 0x1_0000_0000 * (a * d + b * c) + TWO_64 * (b * d)
  {
  }

  /** The 64x64-bit product, rounded (ties up) to its upper half. No intermediate
      sum wraps. */
  lemma MulRounds(x: Fp, y: Fp)
    requires x.f < TWO_64 && y.f < TWO_64
    ensures Mul(x, y).f == (x.f * y.f + 0x8000_0000_0000_0000) / TWO_64
    ensures Mul(x, y).e == x.e + y.e + 64
  {
    var a, b, c, d := Lo(x.f), Hi(x.f), Lo(y.f), Hi(y.f);
    HalfProduct(a, c);
    HalfProduct(a, d);
    HalfProduct(b, c);
    HalfProduct(b, d);
    Expand(a, b, c, d);
    Columns(a * c, a * d, b * c, b * d);
  }

  /** Carrying: the sum of the columns without any wrap-around. */
  lemma Columns(p0: nat, p1: nat, p2: nat, p3: nat)
    requires p0 <= 0xFFFF_FFFE_0000_0001 && p1 <= 0xFFFF_FFFE_0000_0001 && p2 <= 0xFFFF_FFFE_0000_0001
      && p3 <= 0xFFFF_FFFE_0000_0001
    requires p0 + 0x1_0000_0000 * (p1 + p2) + TWO_64 * p3 < 0xFFFF_FFFF_FFFF_FFFF_0000_0000_0000_0000
    ensures
      var q := U64(Column(p0, p1, p2) + 0x8000_0000);
      U64(U64(U64(p3 + Hi(p2)) + Hi(p1)) + Hi(q)) ==
      (p0 + 0x1_0000_0000 * (p1 + p2) + TWO_64 * p3 + 0x8000_0000_0000_0000) / TWO_64
  {
    var q := Hi(p0) + Lo(p1) + Lo(p2) + 0x8000_0000;
    assert U64(Column(p0, p1, p2) + 0x8000_0000) == q;
    var total := p0 + 0x1_0000_0000 * (p1 + p2) + TWO_64 * p3 + 0x8000_0000_0000_0000;
    assert total == TWO_64 * (p3 + Hi(p2) + Hi(p1) + Hi(q)) + 0x1_0000_0000 * Lo(q) + Lo(p0);
  }

  /** diyfp::normalize: the same number with the top bit set. */
  method Normalize(x: Fp) returns (r: Fp, ghost s: nat)
    requires 0 < x.f < TWO_64
    ensures 0x8000_0000_0000_0000 <= r.f < TWO_64
    ensures r.f == x.f * Pow(2, s) && r.e == x.e - s
  {
    r, s := x, 0;
    while r.f / 0x8000_0000_0000_0000 == 0
      invariant 0 < r.f < TWO_64
      invariant r.f == x.f * Pow(2, s) && r.e == x.e - s
      decreases TWO_64 - r.f
    {
      Twice(x.f, s);
      r := Fp(U64(r.f * 2), r.e - 1);
      s := s + 1;
    }
  }

  lemma Twice(f: nat, s: nat)
    ensures f * Pow(2, s + 1) == 2 * (f * Pow(2, s))
  {
    assert f * (2 * Pow(2, s)) == 2 * (f * Pow(2, s));
  }

  /** diyfp::normalize_to: the same number with a given smaller exponent. */
  function NormalizeTo(x: Fp, e: int): Fp
    requires e <= x.e
  {
    Fp(U64(x.f * Pow(2, x.e - e)), e)
  }
}
