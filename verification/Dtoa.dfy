/** Shortest decimal output of a double: its rounding interval, the scaling by a
    cached power of ten, and digit generation. */
module Dtoa {
  import opened Powers
  import opened DiyFp
  import opened Grisu
  import opened Sizes

  /** Significand and exponent of a positive finite double. */
  function Decode(bits: nat): Fp {
    var e, f := bits / 0x10_0000_0000_0000, bits % 0x10_0000_0000_0000;
    if e == 0 then Fp(f, -1074) else Fp(f + 0x10_0000_0000_0000, e - 1075)
  }

  /** The next double below is only half as far away as the next one above. */
  predicate LowerIsCloser(bits: nat) {
    bits % 0x10_0000_0000_0000 == 0 && bits / 0x10_0000_0000_0000 > 1
  }

  /** `w` is the double scaled by a power of two, and `minus` and `plus` are the
      midpoints to its neighbours, all exact and with one exponent. In their units
      half the distance to the next double above is 2^s. */
  ghost predicate Boundaries(bits: nat, minus: Fp, w: Fp, plus: Fp, s: nat) {
    && 10 <= s && 0x8000_0000_0000_0000 <= plus.f < TWO_64
    && minus.e == w.e == plus.e == Decode(bits).e - 1 - s
    && w.f == 2 * Decode(bits).f * Pow(2, s)
    && plus.f == w.f + Pow(2, s)
    && minus.f == w.f - (if LowerIsCloser(bits) then Pow(2, s - 1) else Pow(2, s))
  }

  ghost predicate Bounds(bits: nat, minus: Fp, w: Fp, plus: Fp) {
    exists s: nat :: Boundaries(bits, minus, w, plus, s)
  }

  /** compute_boundaries */
  method ComputeBoundaries(bits: nat) returns (minus: Fp, w: Fp, plus: Fp)
    requires 0 < bits < 0x7FF0_0000_0000_0000
    ensures Bounds(bits, minus, w, plus)
  {
    hide Pow;
    var v := Decode(bits);
    assert 0 < v.f < 0x20_0000_0000_0000;
    var mPlus := Fp(2 * v.f + 1, v.e - 1);
    var mMinus := if LowerIsCloser(bits) then Fp(4 * v.f - 1, v.e - 2) else Fp(2 * v.f - 1, v.e - 1);
    ghost var s, t;
    plus, s := Normalize(mPlus);
    ShiftAtLeast(v.f, s);
    minus := NormalizeTo(mMinus, plus.e);
    w, t := Normalize(v);
    SameShift(v.f, s, t);
    Midpoints(v.f, s);
    assert Boundaries(bits, minus, w, plus, s);
  }

  lemma ShiftAtLeast(f: nat, s: nat)
    requires f < 0x20_0000_0000_0000 && 0x8000_0000_0000_0000 <= (2 * f + 1) * Pow(2, s)
    ensures 10 <= s
  {
    if s < 10 {
      PowPositive(2, s);
      if s < 9 { PowGrows(2, s, 9); }
      assert Pow(2, 9) == 512;
      Products(2 * f + 1, 0x3F_FFFF_FFFF_FFFF, Pow(2, s), 512);
      assert false;
    }
  }

  /** The double and its upper midpoint normalise to the same exponent. */
  lemma SameShift(f: nat, s: nat, t: nat)
    requires 0 < f && 0 < s
    requires 0x8000_0000_0000_0000 <= (2 * f + 1) * Pow(2, s) < TWO_64
    requires 0x8000_0000_0000_0000 <= f * Pow(2, t) < TWO_64
    ensures t == s + 1
  {
    hide Pow;
    HalfNormal(f, s);
    if t < s + 1 {
      AtLeastTwice(f, t, s + 1);
    } else if s + 1 < t {
      AtLeastTwice(f, s + 1, t);
    }
  }

  lemma AtLeastTwice(f: nat, s: nat, t: nat)
    requires s < t
    ensures 2 * (f * Pow(2, s)) <= f * Pow(2, t)
  {
    Twice(f, s);
    if s + 1 < t {
      PowGrows(2, s + 1, t);
      Monotone(Pow(2, s + 1), Pow(2, t), f);
    }
  }

  lemma ShiftAtMost(f: nat, s: nat)
    requires 0 < f && f * Pow(2, s) < 0x8000_0000_0000_0000
    ensures s <= 62
  {
    if 63 <= s {
      PowTwos();
      PowAdds(2, 60, 3);
      assert Pow(2, 3) == 8;
      if 63 < s { PowGrows(2, 63, s); }
      Monotone(1, f, Pow(2, s));
      assert false;
    }
  }

  /** Dropping the half keeps the top bit where it is, because 2^63 is even. */
  lemma HalfNormal(f: nat, s: nat)
    requires 0 < f
    requires 0x8000_0000_0000_0000 <= (2 * f + 1) * Pow(2, s) < TWO_64
    ensures 0x8000_0000_0000_0000 <= f * Pow(2, s + 1) < TWO_64
  {
    hide Pow;
    PowPositive(2, s);
    WholeAndHalf(f, Pow(2, s));
    ShiftAtMost(f, s);
    Twice(f, s);
    PowDoubles(s);
    SixtyThree(s);
    TopBitStays(f, Pow(2, s), Pow(2, 62 - s));
  }

  lemma WholeAndHalf(f: nat, g: nat)
    ensures (2 * f + 1) * g == f * (2 * g) + g == 2 * (f * g) + g
  {
  }

  lemma PowDoubles(s: nat)
    ensures Pow(2, s + 1) == 2 * Pow(2, s)
  {
  }

  lemma SixtyThree(s: nat)
    requires s <= 62
    ensures Pow(2, 62 - s) * (2 * Pow(2, s)) == 0x8000_0000_0000_0000
  {
    PowAdds(2, 62 - s, s + 1);
    PowTwos();
    PowAdds(2, 60, 3);
    assert Pow(2, 3) == 8;
  }

  lemma TopBitStays(f: nat, g: nat, h: nat)
    requires h * (2 * g) == 0x8000_0000_0000_0000 <= f * (2 * g) + g && 0 < g
    ensures 0x8000_0000_0000_0000 <= f * (2 * g)
  {
    if f < h {
      Monotone(f + 1, h, 2 * g);
      assert false;
    }
    Monotone(h, f, 2 * g);
  }

  lemma Midpoints(f: nat, s: nat)
    requires 1 <= s
    ensures 2 * f * Pow(2, s) == f * Pow(2, s + 1)
    ensures (2 * f + 1) * Pow(2, s) == 2 * f * Pow(2, s) + Pow(2, s)
    ensures (2 * f - 1) * Pow(2, s) == 2 * f * Pow(2, s) - Pow(2, s)
    ensures (4 * f - 1) * Pow(2, s - 1) == 2 * f * Pow(2, s) - Pow(2, s - 1)
  {
    var p := Pow(2, s - 1);
    assert Pow(2, s) == 2 * p && Pow(2, s + 1) == 2 * Pow(2, s);
    assert 2 * f * (2 * p) == 4 * f * p;
  }

  /** A gap of four survives the rounded multiplication by a normalised power. */
  lemma MulGap(x: Fp, y: Fp, c: Fp)
    requires x.f + 4 <= y.f < TWO_64 && 0x8000_0000_0000_0000 <= c.f < TWO_64
    ensures Mul(x, c).f + 2 <= Mul(y, c).f
  {
    hide Mul;
    MulRounds(x, c);
    MulRounds(y, c);
    Monotone(x.f + 4, y.f, c.f);
    assert (x.f + 4) * c.f == x.f * c.f + 4 * c.f;
  }

  const TEN_16: nat := 10_000_000_000_000_000

  /** The interval is wide enough for a significand of 53 bits: the number is less
      than 2^53 times its width, and the scaling leaves ten bits below that. */
  predicate Wide(minus: Fp, plus: Fp) {
    minus.f + 1536 <= plus.f < 0x20_0000_0000_0000 * (plus.f - minus.f)
  }

  /** So seventeen digits reach down to its width, even after rounding the products
      and stepping one unit inwards on both sides. */
  lemma SeventeenEnough(minus: Fp, plus: Fp, c: Fp)
    requires Wide(minus, plus) && plus.f < TWO_64 && 0x8000_0000_0000_0000 <= c.f < TWO_64
    ensures Mul(minus, c).f + 1 <= Mul(plus, c).f - 1
    ensures Mul(plus, c).f - 1 <= TEN_16 * (Mul(plus, c).f - Mul(minus, c).f - 2)
  {
    hide Mul;
    var gap := plus.f - minus.f;
    MulRounds(minus, c);
    MulRounds(plus, c);
    assert plus.f * c.f - minus.f * c.f == gap * c.f;
    Products(1536, gap, 0x8000_0000_0000_0000, c.f);
    Monotone(plus.f, 0x20_0000_0000_0000 * gap, c.f);
    assert 0x20_0000_0000_0000 * gap * c.f == 0x20_0000_0000_0000 * (gap * c.f);
    StillWide(plus.f * c.f, gap * c.f, Mul(plus, c).f, Mul(minus, c).f);
  }

  lemma StillWide(a: nat, x: nat, p: nat, m: nat)
    requires 768 * TWO_64 <= x <= a <= 0x20_0000_0000_0000 * x
    requires p == (a + 0x8000_0000_0000_0000) / TWO_64 && m == (a - x + 0x8000_0000_0000_0000) / TWO_64
    ensures m + 1 <= p - 1 && p - 1 <= TEN_16 * (p - m - 2)
  {
    assert 256 * TWO_64 * (p - m - 2) >= 255 * x;
    assert TWO_64 * (p - 1) <= a;
  }

  lemma MulSize(x: Fp, c: Fp)
    requires 0x8000_0000_0000_0000 <= x.f < TWO_64
      && 0x8000_0000_0000_0000 <= c.f < TWO_64
    ensures 0x4000_0000_0000_0000 <= Mul(x, c).f < TWO_64
  {
    hide Mul;
    MulRounds(x, c);
    Products(0x8000_0000_0000_0000, x.f, 0x8000_0000_0000_0000, c.f);
    Products(x.f, 0xFFFF_FFFF_FFFF_FFFF, c.f, 0xFFFF_FFFF_FFFF_FFFF);
  }

  /** One unit inwards from a rounded product is strictly inside the exact one. */
  lemma OneInwards(x: Fp, c: Fp)
    requires x.f < TWO_64 && c.f < TWO_64
    ensures (Mul(x, c).f - 1) * TWO_64 < x.f * c.f < (Mul(x, c).f + 1) * TWO_64
  {
    hide Mul;
    MulRounds(x, c);
  }

  /** An entry of the table of powers of ten: f * 2^e approximates 10^k. */
  datatype Cached = Cached(f: nat, e: int, k: int)

  /** What the table promises for binary exponent `e`. */
  predicate Suitable(c: Cached, e: int) {
    0x8000_0000_0000_0000 <= c.f < TWO_64 && -60 <= e + c.e + 64 <= -32
  }

  predicate Spaced(minus: Fp, w: Fp, plus: Fp) {
    && minus.e == w.e == plus.e && minus.f + 4 <= w.f && w.f + 4 <= plus.f && Wide(minus, plus)
    && 0x8000_0000_0000_0000 <= plus.f < TWO_64
  }

  /** The digits stand for V = ds * 10^k with m- * c < V < m+ * c (exact products);
      V is as short as the interval one unit inside these bounds allows, and as
      close to the rounded product v * c as that length allows. */
  ghost predicate ReadsBack(ds: seq<nat>, k: int, minus: Fp, w: Fp, plus: Fp, c: Fp) {
    && plus.e + c.e + 64 <= 0
    && Generated(ds, k, Pow(2, -(plus.e + c.e + 64)), Mul(minus, c).f + 1, Mul(w, c).f, Mul(plus, c).f - 1)
    && minus.f * c.f < (Mul(minus, c).f + 1) * TWO_64
    && (Mul(plus, c).f - 1) * TWO_64 < plus.f * c.f
  }

  /** grisu2: scale by the cached power, step one unit inwards, generate. */
  method Grisu2(buf: array<nat>, minus: Fp, v: Fp, plus: Fp, c: Cached) returns (len: nat, k: int)
    requires Spaced(minus, v, plus) && Suitable(c, plus.e) && 17 <= buf.Length
    modifies buf
    ensures 1 <= len <= 17 && ReadsBack(buf[..len], k + c.k, minus, v, plus, Fp(c.f, c.e))
  {
    hide Mul, Generated, Pow;
    var p := Fp(c.f, c.e);
    var w, wMinus, wPlus := Mul(v, p), Mul(minus, p), Mul(plus, p);
    MulRounds(minus, p);
    MulRounds(v, p);
    MulRounds(plus, p);
    MulGap(minus, v, p);
    MulGap(v, plus, p);
    MulSize(plus, p);
    OneInwards(minus, p);
    OneInwards(plus, p);
    SeventeenEnough(minus, plus, p);
    EnoughIs(wPlus.f - 1, wPlus.f - wMinus.f - 2);
    len, k := DigitGen(buf, Fp(wMinus.f + 1, wMinus.e), w, Fp(wPlus.f - 1, wPlus.e), -c.k, 17);
  }

  lemma EnoughIs(f: nat, delta: nat)
    requires f <= TEN_16 * delta
    ensures Enough(17, f, delta)
  {
    PowTens();
    PowAdds(10, 8, 8);
  }

  lemma BoundariesSpaced(bits: nat, minus: Fp, w: Fp, plus: Fp)
    requires 0 < bits < 0x7FF0_0000_0000_0000 && Bounds(bits, minus, w, plus)
    ensures Spaced(minus, w, plus) && -1137 <= plus.e <= 960
  {
    var s: nat :| Boundaries(bits, minus, w, plus, s);
    assert 0 < Decode(bits).f;
    assert Pow(2, 9) == 512;
    if 9 < s - 1 { PowGrows(2, 9, s - 1); }
    PowGrows(2, 9, s);
    assert 2 * Decode(bits).f * Pow(2, s) == 2 * (Decode(bits).f * Pow(2, s));
    ShiftAtMost(Decode(bits).f, s);
    WideBoundaries(bits, minus, w, plus, s);
  }

  lemma WideBoundaries(bits: nat, minus: Fp, w: Fp, plus: Fp, s: nat)
    requires 0 < bits < 0x7FF0_0000_0000_0000 && Boundaries(bits, minus, w, plus, s)
    ensures Wide(minus, plus)
  {
    var f, p := Decode(bits).f, Pow(2, s - 1);
    assert Pow(2, s) == 2 * p;
    assert Pow(2, 9) == 512;
    if 9 < s - 1 { PowGrows(2, 9, s - 1); }
    assert f < 0x20_0000_0000_0000;
    assert plus.f == (4 * f + 2) * p;
    if LowerIsCloser(bits) {
      assert f == 0x10_0000_0000_0000;
    } else {
      Monotone(4 * f + 2, 0x7F_FFFF_FFFF_FFFF, p);
    }
  }

  /** What is printed for the double with these bits: digits and exponent for some
      boundaries of it, scaled by the table's power for their exponent. */
  ghost predicate Formatted(bits: nat, power: int -> Cached, ds: seq<nat>, k: int) {
    exists minus: Fp, w: Fp, plus: Fp :: Bounds(bits, minus, w, plus)
      && ReadsBackBy(power(plus.e), ds, k, minus, w, plus)
  }

  ghost predicate ReadsBackBy(c: Cached, ds: seq<nat>, k: int, minus: Fp, w: Fp, plus: Fp) {
    ReadsBack(ds, k + c.k, minus, w, plus, Fp(c.f, c.e))
  }

  /** The whole path, for every positive finite double. */
  method FormatDouble(buf: array<nat>, bits: nat, power: int -> Cached) returns (len: nat, k: int)
    requires 0 < bits < 0x7FF0_0000_0000_0000 && 17 <= buf.Length
    requires forall e :: -1137 <= e <= 960 ==> Suitable(power(e), e)
    modifies buf
    ensures 1 <= len <= 17 && Formatted(bits, power, buf[..len], k)
  {
    hide ReadsBack, Bounds, Suitable, Spaced;
    var minus, w, plus := ComputeBoundaries(bits);
    BoundariesSpaced(bits, minus, w, plus);
    len, k := Grisu2(buf, minus, w, plus, power(plus.e));
    assert ReadsBackBy(power(plus.e), buf[..len], k, minus, w, plus);
  }
}
