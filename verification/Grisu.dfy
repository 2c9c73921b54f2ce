/** Digit generation of Grisu2: the shortest decimal in an interval, closest to
    a given point, computed with 64-bit integers only. */
module Grisu {
  import opened Powers
  import opened DiyFp
  import opened Sizes

  function Abs(x: int): nat {
    if x < 0 then -x else x
  }

  /** `x` units of size `u` lie in [lo, hi]. */
  ghost predicate InRange(x: int, u: int, lo: int, hi: int) {
    lo <= x * u <= hi
  }

  /** `v` units of size `u` lie in [lo, hi], no multiple of ten units does, and of
      all multiples of one unit that do, none is closer to `mid`. */
  ghost predicate Optimal(v: int, u: int, lo: int, mid: int, hi: int) {
    && InRange(v, u, lo, hi)
    && (forall x: int :: !InRange(x, 10 * u, lo, hi))
    && (forall x: int :: InRange(x, u, lo, hi) ==> Abs(v * u - mid) <= Abs(x * u - mid))
  }

  /** Distance below M+ after `j` decrements, and its distance from w. */
  function Below(rest: nat, unit: nat, j: nat): nat {
    rest + j * unit
  }

  function Away(rest: nat, unit: nat, dist: nat, j: nat): nat {
    Abs(Below(rest, unit, j) - dist)
  }

  /** grisu2_round. The last digit is lowered while that brings the number closer
      to w; it never reaches '0', because the digits before this one were not
      enough (delta < previous remainder). */
  method Round(buf: array<nat>, len: nat, dist: nat, delta: nat, rest0: nat, unit: nat) returns (ghost c: nat)
    requires 0 < len <= buf.Length && 48 <= buf[len - 1]
    requires 0 < unit && rest0 <= delta && dist <= delta < TWO_64
    requires delta < Below(rest0, unit, buf[len - 1] - 48)
    modifies buf
    ensures c < old(buf[len - 1]) - 48 && buf[..] == old(buf[..])[len - 1 := old(buf[len - 1]) - c]
    ensures Below(rest0, unit, c) <= delta
    ensures forall j: nat :: Below(rest0, unit, j) <= delta ==> Away(rest0, unit, dist, c) <= Away(rest0, unit, dist, j)
  {
    hide U64;
    c := 0;
    var rest := rest0;
    FewerDecrements(rest0, unit, delta, 0, buf[len - 1] - 48);
    while rest < dist && delta - rest >= unit &&
          (U64(rest + unit) < dist || dist - rest > U64(U64(rest + unit) - dist))
      invariant rest == Below(rest0, unit, c) <= delta
      invariant c < old(buf[len - 1]) - 48 && buf[..] == old(buf[..])[len - 1 := old(buf[len - 1]) - c]
      invariant forall j: nat :: j <= c ==> Away(rest0, unit, dist, c) <= Away(rest0, unit, dist, j)
      decreases delta - rest
    {
      buf[len - 1] := buf[len - 1] - 1;
      rest := U64(rest + unit);
      NextBelow(rest0, unit, c);
      c := c + 1;
      FewerDecrements(rest0, unit, delta, c, old(buf[len - 1]) - 48);
    }
    forall j: nat | c < j && Below(rest0, unit, j) <= delta
      ensures Away(rest0, unit, dist, c) <= Away(rest0, unit, dist, j)
    {
      NextBelow(rest0, unit, c);
      BelowGrows(rest0, unit, c + 1, j);
    }
  }

  lemma NextBelow(rest: nat, unit: nat, j: nat)
    ensures Below(rest, unit, j + 1) == Below(rest, unit, j) + unit
  {
  }

  lemma BelowGrows(rest: nat, unit: nat, i: nat, j: nat)
    requires i <= j
    ensures Below(rest, unit, i) <= Below(rest, unit, j)
  {
    assert i * unit <= j * unit;
  }

  lemma FewerDecrements(rest: nat, unit: nat, delta: nat, c: nat, d: nat)
    requires Below(rest, unit, c) <= delta < Below(rest, unit, d)
    ensures c < d
  {
    if d <= c {
      BelowGrows(rest, unit, d, c);
    }
  }

  // ----- Digits -----

  predicate Digits(ds: seq<nat>) {
    forall i :: 0 <= i < |ds| ==> 48 <= ds[i] <= 57
  }

  /** The number a string of decimal digits stands for. */
  function Value(ds: seq<nat>): int {
    if ds == [] then 0 else Value(ds[..|ds| - 1]) * 10 + ds[|ds| - 1] - 48
  }

  lemma ValueSnoc(ds: seq<nat>, d: nat)
    ensures Value(ds + [d]) == Value(ds) * 10 + (d - 48)
  {
    assert (ds + [d])[..|ds|] == ds;
  }

  lemma ValueLast(ds: seq<nat>, d: nat)
    requires ds != []
    ensures Value(ds[|ds| - 1 := d]) == Value(ds) + d - ds[|ds| - 1]
  {
    var es := ds[|ds| - 1 := d];
    assert es[..|es| - 1] == ds[..|ds| - 1];
  }

  /** find_largest_pow10: for n > 0, 10^(k-1) <= n < 10^k. */
  method FindLargestPow10(n: nat) returns (k: nat, pow10: nat)
    requires n < 0x1_0000_0000
    ensures 1 <= k <= 10 && pow10 == Pow(10, k - 1)
    ensures n < Pow(10, k) && (0 < n ==> pow10 <= n)
  {
    PowTens();
    if n >= 1000000000 { k, pow10 := 10, 1000000000; }
    else if n >= 100000000 { k, pow10 := 9, 100000000; }
    else if n >= 10000000 { k, pow10 := 8, 10000000; }
    else if n >= 1000000 { k, pow10 := 7, 1000000; }
    else if n >= 100000 { k, pow10 := 6, 100000; }
    else if n >= 10000 { k, pow10 := 5, 10000; }
    else if n >= 1000 { k, pow10 := 4, 1000; }
    else if n >= 100 { k, pow10 := 3, 100; }
    else if n >= 10 { k, pow10 := 2, 10; }
    else { k, pow10 := 1, 1; }
  }

  /** The argument of the whole algorithm in one place. `f` is M+ in the current
      units, `before` the value of all digits but the last, `d` the last digit,
      `c` how often it was lowered. */
  lemma OptimalNow(f: int, before: int, d: int, rest: nat, unit: nat, dist: nat, delta: nat, c: nat)
    requires 0 < unit && 0 <= d <= 9 && rest < unit && f == before * (10 * unit) + Below(rest, unit, d)
    requires dist <= delta < Below(rest, unit, d) && Below(rest, unit, c) <= delta
    requires forall j: nat :: Below(rest, unit, j) <= delta ==> Away(rest, unit, dist, c) <= Away(rest, unit, dist, j)
    ensures Optimal(before * 10 + d - c, unit, f - delta, f - dist, f)
  {
    hide InRange;
    var v, ten, lo := before * 10 + d, 10 * unit, f - delta;
    TenTimes(before, d, unit);
    BelowIs(rest, unit, d);
    StillInside(f, v, rest, unit, delta, c);
    forall x: int ensures !InRange(x, ten, lo, f) {
      assert Below(rest, unit, d) < ten by { BelowTen(rest, unit, d); }
      NoShorter(f, before, Below(rest, unit, d), ten, delta, x);
    }
    forall x: int | InRange(x, unit, lo, f) ensures Abs((v - c) * unit - (f - dist)) <= Abs(x * unit - (f - dist)) {
      NoneCloser(f, v, rest, unit, dist, delta, c, x);
    }
  }

  lemma TenTimes(before: int, d: int, unit: int)
    ensures (before * 10 + d) * unit == before * (10 * unit) + d * unit
  {
  }

  lemma BelowIs(rest: nat, unit: nat, d: nat)
    ensures Below(rest, unit, d) == rest + d * unit
  {
  }

  lemma BelowTen(rest: nat, unit: nat, d: nat)
    requires d <= 9 && rest < unit
    ensures Below(rest, unit, d) < 10 * unit
  {
    assert d * unit <= 9 * unit;
  }

  lemma StillInside(f: int, v: int, rest: nat, unit: nat, delta: nat, c: nat)
    requires f == v * unit + rest && Below(rest, unit, c) <= delta
    ensures InRange(v - c, unit, f - delta, f)
  {
    Lowered(v, unit, c);
    assert 0 <= c * unit;
  }

  lemma NoneCloser(f: int, v: int, rest: nat, unit: nat, dist: nat, delta: nat, c: nat, x: int)
    requires 0 < unit && rest < unit && f == v * unit + rest && InRange(x, unit, f - delta, f)
    requires forall j: nat :: Below(rest, unit, j) <= delta ==> Away(rest, unit, dist, c) <= Away(rest, unit, dist, j)
    ensures Abs((v - c) * unit - (f - dist)) <= Abs(x * unit - (f - dist))
  {
    NotAbove(f, v, rest, unit, x);
    var j := v - x;
    Lowered(v, unit, j);
    Lowered(v, unit, c);
    assert Below(rest, unit, j) == f - x * unit;
    assert Below(rest, unit, c) == f - (v - c) * unit;
  }

  lemma Lowered(v: int, unit: int, c: int)
    ensures (v - c) * unit == v * unit - c * unit
  {
  }

  lemma NoShorter(f: int, before: int, prev: int, ten: int, delta: int, x: int)
    requires 0 < ten && f == before * ten + prev && delta < prev < ten
    ensures !InRange(x, ten, f - delta, f)
  {
    if x <= before {
      Monotone(x, before, ten);
    } else {
      Monotone(before + 1, x, ten);
    }
  }

  lemma NotAbove(f: int, v: int, rest: int, unit: int, x: int)
    requires 0 < unit && f == v * unit + rest && rest < unit && x * unit <= f
    ensures x <= v
  {
    if v < x {
      Monotone(v + 1, x, unit);
      assert false;
    }
  }

  /** Rounding off once enough digits are there. `f` is M+ in the current units. */
  method Finish(buf: array<nat>, len: nat, dist: nat, delta: nat, rest: nat, unit: nat, ghost f: int)
    requires 0 < len <= buf.Length && Digits(buf[..len]) && 48 < buf[0]
    requires rest <= delta && rest < unit && dist <= delta < TWO_64 && 48 <= buf[len - 1]
    requires f == Times(Value(buf[..len - 1]), 10 * unit) + Below(rest, unit, buf[len - 1] - 48)
    requires delta < Below(rest, unit, buf[len - 1] - 48)
    modifies buf
    ensures Digits(buf[..len]) && 48 < buf[0] && 48 < buf[len - 1]
    ensures Optimal(Value(buf[..len]), unit, f - delta, f - dist, f)
  {
    hide Optimal, Below, Away;
    ghost var ds := buf[..len];
    assert ds[..len - 1] == buf[..len - 1];
    ghost var c := Round(buf, len, dist, delta, rest, unit);
    assert buf[..len] == ds[len - 1 := ds[len - 1] - c];
    ValueLast(ds, ds[len - 1] - c);
    OptimalNow(f, Value(ds[..len - 1]), ds[len - 1] - 48, rest, unit, dist, delta, c);
  }

  /** What digit generation promises: digits, with neither end zero, whose number
      times 10^k is optimal in [lo, hi]. All three are multiples of 2^e = 1 / one;
      a negative `k` is cleared by scaling. */
  ghost predicate Generated(ds: seq<nat>, k: int, one: nat, lo: int, mid: int, hi: int) {
    && Digits(ds) && ds != [] && 48 < ds[0] && 48 < ds[|ds| - 1]
    && if 0 <= k then Optimal(Value(ds), Pow(10, k) * one, lo, mid, hi)
       else Optimal(Value(ds), one, lo * Pow(10, -k), mid * Pow(10, -k), hi * Pow(10, -k))
  }

  /** Multiplication kept symbolic, so that only the lemmas below open it. */
  function Times(x: int, y: int): int {
    x * y
  }

  /** M+ in terms of the digits so far, the integral part still to come and the
      fraction, with the next digit worth `unit`. */
  ghost predicate Split(f: nat, b: int, tens: nat, p1: nat, p2: nat, one: nat) {
    f == Times(b, Times(tens, one)) + (Times(p1, one) + p2)
  }

  /** Taking one digit off the integral part. */
  method TakeDigit(pow10: nat, p1: nat, p2: nat, one: nat, ghost f: nat, ghost b: int) returns (d: nat, r: nat)
    requires 0 < pow10 && p1 < 10 * pow10 && p2 < one && Split(f, b, 10 * pow10, p1, p2, one)
    ensures d <= 9 && r < pow10 && (pow10 <= p1 ==> 0 < d)
    ensures Split(f, b * 10 + d, pow10, r, p2, one)
    ensures 0 <= Times(r, one) && Times(r, one) + p2 < Times(pow10, one)
    ensures Times(p1, one) + p2 == Below(Times(r, one) + p2, Times(pow10, one), d)
    ensures f == Times(b, 10 * Times(pow10, one)) + Below(Times(r, one) + p2, Times(pow10, one), d)
  {
    d, r := p1 / pow10, p1 % pow10;
    DigitSplits(pow10, p1, p2, one, f, b);
  }

  lemma DigitSplits(pow10: nat, p1: nat, p2: nat, one: nat, f: nat, b: int)
    requires 0 < pow10 && p1 < 10 * pow10 && p2 < one
    requires f == b * (10 * pow10 * one) + (p1 * one + p2)
    ensures p1 / pow10 <= 9
    ensures p1 % pow10 * one + p2 < pow10 * one
    ensures p1 * one + p2 == Below(p1 % pow10 * one + p2, pow10 * one, p1 / pow10)
    ensures f == (b * 10 + p1 / pow10) * (pow10 * one) + (p1 % pow10 * one + p2)
    ensures f == b * (10 * (pow10 * one)) + Below(p1 % pow10 * one + p2, pow10 * one, p1 / pow10)
  {
    var d, r := p1 / pow10, p1 % pow10;
    assert d <= 9;
    assert p1 * one == (d * pow10 + r) * one == d * (pow10 * one) + r * one;
    Monotone(r + 1, pow10, one);
    assert 10 * pow10 * one == 10 * (pow10 * one);
    TenTimes(b, d, pow10 * one);
  }

  /** M+ as an integral part of at most 32 bits and a fraction. */
  method SplitPlus(f: nat, one: nat) returns (p1: nat, p2: nat)
    requires 0x1_0000_0000 <= one <= f < TWO_64
    ensures 1 <= p1 < 0x1_0000_0000 && p2 < one && f == Times(p1, one) + p2
  {
    p1, p2 := f / one, f % one;
    assert p1 * one + p2 == f;
    if 0x1_0000_0000 <= p1 {
      Monotone(0x1_0000_0000, p1, one);
      assert false;
    }
  }

  lemma SplitStarts(f: nat, tens: nat, p1: nat, p2: nat, one: nat)
    requires f == Times(p1, one) + p2
    ensures Split(f, 0, tens, p1, p2, one)
  {
  }

  lemma TimesGrows(x: int, y: int, u: int)
    requires x <= y && 0 <= u
    ensures Times(x, u) <= Times(y, u)
  {
  }

  lemma SplitEnds(f: nat, b: int, p2: nat, one: nat)
    requires Split(f, b, 1, 0, p2, one)
    ensures f == Times(b, one) + p2 && Times(0, one) == 0
  {
  }

  lemma NoDigits()
    ensures Value([]) == 0 && Digits([]) && Pow(10, 0) == 1
  {
  }

  lemma PowStep(n: nat)
    requires 0 < n
    ensures Pow(10, n) == 10 * Pow(10, n - 1) && 0 < Pow(10, n - 1)
    ensures 1 < n ==> Pow(10, n - 1) / 10 == Pow(10, n - 2)
  {
    PowPositive(10, n - 1);
  }

  lemma GeneratedWhole(ds: seq<nat>, k: nat, one: nat, lo: int, mid: int, hi: int)
    requires Digits(ds) && ds != [] && 48 < ds[0] && 48 < ds[|ds| - 1]
    requires Optimal(Value(ds), Times(Pow(10, k), one), lo, mid, hi)
    ensures Generated(ds, k, one, lo, mid, hi)
  {
    hide Optimal;
  }

  /** buffer[length++] = '0' + d */
  method Append(buf: array<nat>, len: nat, d: nat)
    requires len < buf.Length && d <= 9 && Digits(buf[..len]) && (len == 0 ==> 0 < d) && (0 < len ==> 48 < buf[0])
    modifies buf
    ensures Digits(buf[..len + 1]) && 48 < buf[0] && buf[len] == 48 + d && buf[..len] == old(buf[..len])
    ensures Value(buf[..len + 1]) == Value(buf[..len]) * 10 + d
  {
    hide Value;
    buf[len] := 48 + d;
    assert buf[..len + 1] == buf[..len] + [48 + d];
    ValueSnoc(buf[..len], 48 + d);
  }

  /** `max` digits are enough: the interval is not smaller than their last place. */
  ghost predicate Enough(max: nat, f: nat, delta: nat) {
    1 <= max && (70 <= max || f <= Times(Pow(10, max - 1), delta))
  }

  /** If `len` digits down to 10^n are not enough, there are fewer than `max`. */
  lemma MoreToCome(max: nat, f: nat, delta: nat, len: nat, n: nat, one: nat)
    requires Enough(max, f, delta) && 1 <= len < 70
    requires Times(Pow(10, len + n - 1), one) <= f && delta < Times(Pow(10, n), one)
    ensures len < max
  {
    if max <= len {
      PowAdds(10, max - 1, n);
      if max < len { PowGrows(10, max + n - 1, len + n - 1); }
      Monotone(Pow(10, max + n - 1), Pow(10, len + n - 1), one);
      PowPositive(10, max - 1);
      Stretch(Pow(10, max - 1), delta, Pow(10, n), one);
      assert false;
    }
  }

  lemma Stretch(p: nat, delta: nat, q: nat, one: nat)
    requires 0 < p && delta < q * one
    ensures p * delta < (p * q) * one
  {
    assert (p * q) * one == p * (q * one);
    Strict(delta, q * one, p);
  }

  lemma Strict(x: int, y: int, p: int)
    requires x < y && 0 < p
    ensures p * x < p * y
  {
  }

  /** First loop of grisu2_digit_gen: the digits of the integral part. */
  method Integral(buf: array<nat>, one: nat, f: nat, delta: nat, dist: nat, ghost max: nat)
    returns (done: bool, len: nat, k: nat, p2: nat)
    requires 0x1_0000_0000 <= one <= 0x1000_0000_0000_0000 && Enough(max, f, delta) && max <= buf.Length
    requires one <= f < TWO_64 && dist <= delta < f
    modifies buf
    ensures 1 <= len <= 10 && len <= max
    ensures done ==> Generated(buf[..len], k, one, f - delta, f - dist, f)
    ensures !done ==> Digits(buf[..len]) && 48 < buf[0] && f == Times(Value(buf[..len]), one) + p2 && delta < p2 < one
    ensures !done ==> Times(Pow(10, len - 1), one) <= f
  {
    hide U64, Optimal, Pow, Below, Value, Times, Split, Generated, Digits, Enough;
    assert 1 <= max by { AtLeastOne(max, f, delta); }
    var p1: nat, n: nat, pow10: nat;
    p1, p2 := SplitPlus(f, one);
    n, pow10 := FindLargestPow10(p1);
    len := 0;
    SplitStarts(f, Pow(10, n), p1, p2, one);
    NoDigits();
    assert buf[..0] == [];
    TimesGrows(pow10, p1, one);
    ghost var n0 := n;
    while 0 < n
      invariant len + n == n0 <= 10 && (n == 0 ==> 0 < len)
      invariant len <= max && (0 < n ==> len < max)
      invariant Times(Pow(10, n0 - 1), one) <= f
      invariant Digits(buf[..len]) && (len == 0 ==> pow10 <= p1) && (0 < len ==> 48 < buf[0])
      invariant p1 < Pow(10, n) && (0 < n ==> pow10 == Pow(10, n - 1))
      invariant Times(pow10, one) <= f && delta < Times(p1, one) + p2
      invariant Split(f, Value(buf[..len]), Pow(10, n), p1, p2, one)
      decreases n
    {
      PowStep(n);
      var d, r := TakeDigit(pow10, p1, p2, one, f, Value(buf[..len]));
      Append(buf, len, d);
      len := len + 1;
      p1 := r;
      n := n - 1;
      var rest := U64(U64(Times(p1, one)) + p2);
      if rest <= delta {
        Finish(buf, len, dist, delta, rest, U64(Times(pow10, one)), f);
        GeneratedWhole(buf[..len], n, one, f - delta, f - dist, f);
        return true, len, n, p2;
      }
      MoreToCome(max, f, delta, len, n, one);
      TimesGrows(pow10 / 10, pow10, one);
      pow10 := pow10 / 10;
    }
    SplitEnds(f, Value(buf[..len]), p2, one);
    done, k := false, 0;
  }

  lemma AtLeastOne(max: nat, f: nat, delta: nat)
    requires Enough(max, f, delta)
    ensures 1 <= max
  {
  }

  ghost predicate DividedBy(x: nat, u: nat) {
    exists t: nat :: x == Times(t, u)
  }

  /** The state of the second loop after `m` digits of the fraction: everything is
      scaled by 10^m, and 2^m divides what is left. */
  ghost predicate Scaled(f: nat, b: int, m: nat, p2: nat, delta: nat, dist: nat, one: nat, delta0: nat, dist0: nat) {
    && Times(f, Pow(10, m)) == Times(b, one) + p2
    && delta == Times(delta0, Pow(10, m)) && dist == Times(dist0, Pow(10, m))
    && DividedBy(p2, Pow(2, m))
  }

  lemma ScaledStarts(f: nat, b: int, p2: nat, delta: nat, dist: nat, one: nat)
    requires f == Times(b, one) + p2
    ensures Scaled(f, b, 0, p2, delta, dist, one, delta, dist)
  {
    assert p2 == Times(p2, Pow(2, 0));
  }

  /** While something is left there are fewer than q digits: 2^m divides p2 < 2^q. */
  lemma DigitsLeft(p2: nat, m: nat, q: nat)
    requires 0 < p2 < Pow(2, q) && DividedBy(p2, Pow(2, m))
    ensures m < q
  {
    var t: nat :| p2 == Times(t, Pow(2, m));
    if q <= m {
      assert 1 <= t;
      Monotone(1, t, Pow(2, m));
      if q < m {
        PowGrows(2, q, m);
      }
      assert false;
    }
  }

  lemma DivisibleNext(p2: nat, m: nat, q: nat, d: nat, r: nat)
    requires m < q && 10 * p2 == Times(d, Pow(2, q)) + r && DividedBy(p2, Pow(2, m))
    ensures DividedBy(r, Pow(2, m + 1))
  {
    hide Times;
    var t: nat :| p2 == Times(t, Pow(2, m));
    var s := Pow(2, q - m - 1);
    PowAdds(2, m + 1, q - m - 1);
    PowPositive(2, m);
    Remainder(p2, t, Pow(2, m), d, s, Pow(2, q), r);
    assert r == Times(5 * t - d * s, Pow(2, m + 1));
  }

  lemma Remainder(p2: nat, t: nat, u: nat, d: nat, s: nat, one: nat, r: nat)
    requires 0 < u && p2 == Times(t, u) && one == (2 * u) * s && 10 * p2 == Times(d, one) + r
    ensures 0 <= 5 * t - d * s && r == Times(5 * t - d * s, 2 * u)
  {
    var v := 2 * u;
    assert 10 * p2 == 5 * t * v;
    assert d * one == d * s * v by {
      assert (d * s) * v == d * (s * v);
    }
    Lowered(5 * t, v, d * s);
    NonNegative(5 * t - d * s, v);
  }

  lemma NonNegative(x: int, u: int)
    requires 0 <= x * u && 0 < u
    ensures 0 <= x
  {
  }

  /** One turn of the second loop. */
  method TakeFraction(p2: nat, one: nat, ghost f: int, ghost b: int) returns (d: nat, r: nat)
    requires 0 < one <= 0x1000_0000_0000_0000 && p2 < one && f == Times(b, one) + p2
    ensures d <= 9 && r < one && 10 * p2 == Times(d, one) + r == Below(r, one, d)
    ensures 10 * f == Times(b * 10 + d, one) + r == Times(b, 10 * one) + Below(r, one, d)
  {
    hide U64, Times, Below;
    var p := U64(p2 * 10);
    d, r := p / one, p % one;
    FractionDigit(p, one);
    FractionSplits(f, b, one, p2, d, r);
  }

  lemma FractionDigit(p: nat, one: nat)
    requires 0 < one && p < 10 * one
    ensures p / one <= 9 && p % one < one && p == Times(p / one, one) + p % one
  {
    var d := p / one;
    assert p == d * one + p % one;
    if 10 <= d {
      Monotone(10, d, one);
      assert false;
    }
  }

  lemma FractionSplits(f: int, b: int, one: nat, p2: nat, d: nat, r: nat)
    requires f == Times(b, one) + p2 && 10 * p2 == Times(d, one) + r
    ensures 10 * p2 == Below(r, one, d)
    ensures 10 * f == Times(b * 10 + d, one) + r == Times(b, 10 * one) + Below(r, one, d)
  {
    TenTimes(b, d, one);
    assert 10 * (b * one) == b * (10 * one);
  }

  lemma ScaledNext(f: nat, b: int, m: nat, p2: nat, delta: nat, dist: nat, q: nat, delta0: nat, dist0: nat, d: nat,
          r: nat)
    requires Scaled(f, b, m, p2, delta, dist, Pow(2, q), delta0, dist0)
    requires m < q && 10 * p2 == Times(d, Pow(2, q)) + r
    requires 10 * Times(f, Pow(10, m)) == Times(b * 10 + d, Pow(2, q)) + r
    ensures Scaled(f, b * 10 + d, m + 1, r, delta * 10, dist * 10, Pow(2, q), delta0, dist0)
  {
    hide Times;
    DivisibleNext(p2, m, q, d, r);
    TenPow(f, m);
    TenPow(delta0, m);
    TenPow(dist0, m);
  }

  lemma TenPow(x: nat, m: nat)
    ensures Times(x, Pow(10, m + 1)) == 10 * Times(x, Pow(10, m))
  {
    assert x * (10 * Pow(10, m)) == 10 * (x * Pow(10, m));
  }

  lemma GeneratedFraction(ds: seq<nat>, m: nat, one: nat, f: nat, delta: nat, dist: nat)
    requires Digits(ds) && ds != [] && 48 < ds[0] && 48 < ds[|ds| - 1] && 0 < m
    requires
      var p := Pow(10, m);
      Optimal(Value(ds), one, Times(f, p) - Times(delta, p), Times(f, p) - Times(dist, p), Times(f, p))
    ensures Generated(ds, 0 - m, one, f - delta, f - dist, f)
  {
    hide Optimal;
    Lowered(f, Pow(10, m), delta);
    Lowered(f, Pow(10, m), dist);
  }

  /** Second loop of grisu2_digit_gen: the digits of the fraction. It takes at most
      q = -e turns. */
  method Fractional(buf: array<nat>, len0: nat, q: nat, one: nat, f: nat, p20: nat, delta0: nat, dist0: nat,
          ghost max: nat)
    returns (len: nat, m: nat)
    requires 0 < one <= 0x1000_0000_0000_0000 && one == Pow(2, q) && q <= 60
    requires Enough(max, f, delta0) && max <= buf.Length
    requires 1 <= len0 <= 10 && len0 <= max && Digits(buf[..len0]) && 48 < buf[0] && Times(Pow(10, len0 - 1), one) <= f
    requires f == Times(Value(buf[..len0]), one) + p20 && dist0 <= delta0 < p20 < one
    modifies buf
    ensures len == len0 + m && 0 < m <= q && len <= max
    ensures Generated(buf[..len], 0 - m, one, f - delta0, f - dist0, f)
  {
    hide U64, Optimal, Pow, Below, Value, Times, Generated, Digits, Scaled, Enough;
    var p2: nat, delta: nat, dist: nat := p20, delta0, dist0;
    len, m := len0, 0;
    ScaledStarts(f, Value(buf[..len]), p2, delta, dist, one);
    ScaledValue(f, Value(buf[..len]), 0, p2, delta, dist, one, delta, dist);
    DigitsLeft(p2, 0, q);
    FractionToCome(max, f, delta0, len0, 0, one, delta);
    while true
      invariant len == len0 + m && m < q && len < max && Digits(buf[..len]) && 48 < buf[0]
      invariant dist <= delta < p2 < one
      invariant Scaled(f, Value(buf[..len]), m, p2, delta, dist, one, delta0, dist0)
      decreases q - m
    {
      ghost var fm := Times(f, Pow(10, m));
      ScaledValue(f, Value(buf[..len]), m, p2, delta, dist, one, delta0, dist0);
      var d, r := TakeFraction(p2, one, fm, Value(buf[..len]));
      ScaledNext(f, Value(buf[..len]), m, p2, delta, dist, q, delta0, dist0, d, r);
      Append(buf, len, d);
      len := len + 1;
      p2 := r;
      m := m + 1;
      delta := U64(delta * 10);
      dist := U64(dist * 10);
      ScaledValue(f, Value(buf[..len]), m, p2, delta, dist, one, delta0, dist0);
      if p2 <= delta {
        Finish(buf, len, dist, delta, p2, one, 10 * fm);
        TenPow(f, m - 1);
        GeneratedFraction(buf[..len], m, one, f, delta0, dist0);
        return;
      }
      DigitsLeft(p2, m, q);
      FractionToCome(max, f, delta0, len0, m, one, delta);
    }
  }

  lemma FractionToCome(max: nat, f: nat, delta0: nat, len0: nat, m: nat, one: nat, delta: nat)
    requires Enough(max, f, delta0) && 1 <= len0 && len0 + m < 70 && Times(Pow(10, len0 - 1), one) <= f
    requires delta == Times(delta0, Pow(10, m)) && delta < one
    ensures len0 + m < max
  {
    if max <= len0 + m {
      var p := Pow(10, len0 - 1);
      PowAdds(10, len0 - 1, m);
      if max < len0 + m { PowGrows(10, max - 1, len0 + m - 1); }
      Monotone(Pow(10, max - 1), Pow(10, len0 + m - 1), delta0);
      PowPositive(10, len0 - 1);
      Strict(delta, one, p);
      Regroup(p, Pow(10, m), delta0);
      assert false;
    }
  }

  lemma Regroup(p: nat, q: nat, d: nat)
    ensures (p * q) * d == p * (d * q)
  {
  }

  lemma ScaledValue(f: nat, b: int, m: nat, p2: nat, delta: nat, dist: nat, one: nat, delta0: nat, dist0: nat)
    requires Scaled(f, b, m, p2, delta, dist, one, delta0, dist0)
    ensures Times(f, Pow(10, m)) == Times(b, one) + p2 && DividedBy(p2, Pow(2, m))
    ensures delta == Times(delta0, Pow(10, m)) && dist == Times(dist0, Pow(10, m))
  {
  }

  /** grisu2_digit_gen. For M- <= w <= M+ with a common exponent e in [-60, -32] and
      M+ at least 2^60 (so that it has an integral part) it ends with digits d1..dn and exponent k such that
      V = d1..dn * 10^k lies in [M-, M+], no multiple of 10^(k+1) does, and no
      multiple of 10^k in the interval is closer to w. It writes at most `max` digits
      if that many reach down to the size of the interval, and 70 in any case. */
  method DigitGen(buf: array<nat>, lo: Fp, w: Fp, hi: Fp, k0: int, ghost max: nat) returns (len: nat, k: int)
    requires -60 <= hi.e <= -32 && lo.e == w.e == hi.e
    requires 0 < lo.f <= w.f <= hi.f && 0x1000_0000_0000_0000 <= hi.f < TWO_64
    requires Enough(max, hi.f, hi.f - lo.f) && max <= buf.Length
    modifies buf
    ensures 1 <= len <= 70 && len <= max && Generated(buf[..len], k - k0, Pow(2, -hi.e), lo.f, w.f, hi.f)
  {
    hide Pow, Generated, Times, Value, Digits, Enough;
    var delta, dist := hi.f - lo.f, hi.f - w.f;
    var one := Pow(2, -hi.e);
    OneBounds(-hi.e);
    var done, n, p2;
    done, len, n, p2 := Integral(buf, one, hi.f, delta, dist, max);
    if done {
      k := k0 + n;
    } else {
      var m;
      len, m := Fractional(buf, len, -hi.e, one, hi.f, p2, delta, dist, max);
      k := k0 - m;
    }
  }

  lemma OneBounds(q: nat)
    requires 32 <= q <= 60
    ensures 0x1_0000_0000 <= Pow(2, q) <= 0x1000_0000_0000_0000
  {
    PowTwos();
    if 32 < q {
      PowGrows(2, 32, q);
    }
    if q < 60 {
      PowGrows(2, q, 60);
    }
  }
}
