/** Decimals of at most 768 digits and their exact division by powers of two,
    done in place, digit by digit. */
module DecimalShift {
  import opened Powers
  import opened Sizes

  // ----- The numbers digits stand for -----

  /** The first `i` digits as a number; digits past the end are zero. */
  function Prefix(ds: seq<nat>, i: nat): nat {
    if i == 0 then 0 else 10 * Prefix(ds, i - 1) + if i - 1 < |ds| then ds[i - 1] else 0
  }

  function Number(ds: seq<nat>): nat {
    Prefix(ds, |ds|)
  }

  predicate Digits(ds: seq<nat>) {
    forall i :: 0 <= i < |ds| ==> ds[i] <= 9
  }

  function Ten(e: int): real
    decreases if e < 0 then -e else e
  {
    if e == 0 then 1.0 else if 0 < e then 10.0 * Ten(e - 1) else Ten(e + 1) / 10.0
  }

  /** 0.d1d2...dn * 10^point */
  function Value(ds: seq<nat>, point: int): real {
    Number(ds) as real * Ten(point - |ds|)
  }

  lemma {:induction false} PrefixSame(ds: seq<nat>, es: seq<nat>, i: nat)
    requires i <= |ds| && i <= |es| && ds[..i] == es[..i]
    ensures Prefix(ds, i) == Prefix(es, i)
    decreases i
  {
    if i != 0 {
      assert ds[..i - 1] == ds[..i][..i - 1] == es[..i][..i - 1] == es[..i - 1];
      assert ds[i - 1] == ds[..i][i - 1] == es[..i][i - 1] == es[i - 1];
      PrefixSame(ds, es, i - 1);
    }
  }

  lemma NumberSnoc(ds: seq<nat>, d: nat)
    ensures Number(ds + [d]) == 10 * Number(ds) + d
  {
    PrefixSame(ds + [d], ds, |ds|);
  }

  lemma TenMore(a: nat, k: nat)
    ensures a * Pow(10, k + 1) == 10 * (a * Pow(10, k))
  {
    assert a * (10 * Pow(10, k)) == 10 * (a * Pow(10, k));
  }

  /** Reading zeros past the end multiplies by ten. */
  lemma {:induction false} PrefixPast(ds: seq<nat>, k: nat)
    ensures Prefix(ds, |ds| + k) == Number(ds) * Pow(10, k)
  {
    if k != 0 {
      PrefixPast(ds, k - 1);
      TenMore(Number(ds), k - 1);
    }
  }

  lemma {:induction false} TenAdds(d: nat, e: int)
    ensures Ten(d + e) == Pow(10, d) as real * Ten(e)
    decreases d
  {
    if d != 0 {
      TenAdds(d - 1, e);
      TenStep(d - 1 + e);
      assert Pow(10, d) as real == 10.0 * Pow(10, d - 1) as real;
    }
  }

  lemma TenStep(e: int)
    ensures Ten(e + 1) == 10.0 * Ten(e)
  {
  }

  lemma {:induction false} TenPositive(e: int)
    ensures 0.0 < Ten(e)
    decreases if e < 0 then -e else e
  {
    if 0 < e {
      TenPositive(e - 1);
    } else if e < 0 {
      TenPositive(e + 1);
    }
  }

  // ----- Cutting off digits -----

  /** The number of the first `k` digits and of the rest. */
  lemma {:induction false} Cut(ds: seq<nat>, k: nat)
    requires k <= |ds|
    ensures Number(ds) == Number(ds[..k]) * Pow(10, |ds| - k) + Number(ds[k..])
    decreases |ds|
  {
    hide Number, Pow;
    if k == |ds| {
      assert ds[..k] == ds && ds[k..] == [];
      Nothing();
    } else {
      var front, last := ds[..|ds| - 1], ds[|ds| - 1];
      assert ds == front + [last];
      NumberSnoc(front, last);
      Cut(front, k);
      assert front[..k] == ds[..k];
      assert ds[k..] == front[k..] + [last];
      NumberSnoc(front[k..], last);
      TenMore(Number(ds[..k]), |front| - k);
    }
  }

  lemma {:induction false} NumberBound(ds: seq<nat>)
    requires Digits(ds)
    ensures Number(ds) < Pow(10, |ds|)
  {
    if ds != [] {
      var front, last := ds[..|ds| - 1], ds[|ds| - 1];
      assert ds == front + [last];
      NumberBound(front);
      NumberSnoc(front, last);
    }
  }

  lemma Nothing()
    ensures Number([]) == 0 && Pow(10, 0) == 1
  {
  }

  predicate AllZero(ds: seq<nat>) {
    forall i :: 0 <= i < |ds| ==> ds[i] == 0
  }

  lemma NoneZero()
    ensures AllZero([])
  {
  }

  lemma SnocCut(ds: seq<nat>, d: nat, w: nat)
    requires w <= |ds|
    ensures (ds + [d])[..w] == ds[..w] && (ds + [d])[w..] == ds[w..] + [d]
    ensures w == |ds| ==> (ds + [d])[..w + 1] == ds[..w] + [d]
  {
  }

  lemma ZeroSnoc(ds: seq<nat>, d: nat)
    ensures AllZero(ds + [d]) <==> AllZero(ds) && d == 0
  {
    if AllZero(ds + [d]) {
      assert (ds + [d])[|ds|] == d;
      assert forall k :: 0 <= k < |ds| ==> ds[k] == (ds + [d])[k];
    }
  }

  lemma {:induction false} ZeroNumber(ds: seq<nat>)
    requires Digits(ds)
    ensures Number(ds) == 0 <==> AllZero(ds)
  {
    if ds != [] {
      var front, last := ds[..|ds| - 1], ds[|ds| - 1];
      assert ds == front + [last];
      ZeroNumber(front);
      NumberSnoc(front, last);
    }
  }

  // ----- One step of the long division -----

  /** The invariant of the division: `n` is the running remainder after the first
      `i` digits, `w` the number of the quotient digits so far, `p` = 2^shift. */
  ghost predicate Dividing(ds: seq<nat>, i: nat, p: nat, w: nat, n: nat) {
    Prefix(ds, i) == Product(10 * p, w) + n && n < 10 * p
  }

  function Product(x: nat, y: nat): nat {
    x * y
  }

  /** n >> shift and n & mask, for p = 2^shift. */
  function High(n: nat, p: nat): nat
    requires 0 < p
  {
    n / p
  }

  function Low(n: nat, p: nat): nat
    requires 0 < p
  {
    n % p
  }

  /** Quotient digit and new remainder when the digit `d` comes in. */
  lemma DivideStep(ds: seq<nat>, i: nat, p: nat, w: nat, n: nat, d: nat)
    requires 0 < p && Dividing(ds, i, p, w, n) && d <= 9 && d == (if i < |ds| then ds[i] else 0)
    ensures High(n, p) <= 9 && Low(n, p) < p
    ensures Dividing(ds, i + 1, p, 10 * w + High(n, p), 10 * Low(n, p) + d)
  {
    var q, r := n / p, n % p;
    assert n == q * p + r;
    if 10 <= q {
      Monotone(10, q, p);
      assert false;
    }
    Carry(p, w, q);
  }

  lemma Carry(p: nat, w: nat, q: nat)
    ensures Product(10 * p, 10 * w + q) == 10 * Product(10 * p, w) + 10 * (q * p)
  {
    assert (10 * p) * (10 * w + q) == 10 * ((10 * p) * w) + 10 * (q * p);
  }

  /** struct decimal. */
  class Decimal {
    var numDigits: nat
    var decimalPoint: int
    var negative: bool
    var truncated: bool
    const digits: array<nat>

    ghost predicate Valid()
      reads this, digits
    {
      digits.Length == 768 && numDigits <= 768 && forall i :: 0 <= i < numDigits ==> digits[i] <= 9
    }

    ghost function Shown(): seq<nat>
      requires Valid()
      reads this, digits
    {
      digits[..numDigits]
    }

    constructor (ds: seq<nat>, point: int, negative: bool)
      requires |ds| <= 768 && Digits(ds)
      ensures Valid() && Shown() == ds && decimalPoint == point && this.negative == negative && !truncated
      ensures fresh(digits)
    {
      digits := new nat[768](i => if 0 <= i < |ds| then ds[i] else 0);
      numDigits, decimalPoint, truncated := |ds|, point, false;
      this.negative := negative;
    }

    /** First loop of decimal_right_shift: read digits, then zeros, until the
        quotient's first digit is there. */
    method Lead(p: nat) returns (zero: bool, r: nat, n: nat)
      requires Valid() && 0 < p <= 0x1000_0000_0000_0000
      ensures zero <==> Number(Shown()) == 0
      ensures !zero ==> FirstDigit(Shown(), p, r) && n == Prefix(Shown(), r)
    {
      hide Prefix, U64;
      ghost var ds := Shown();
      r, n, zero := 0, 0, false;
      PrefixStep(ds, 0);
      while n / p == 0
        invariant r <= numDigits && n == Prefix(ds, r) && n < 10 * p && (0 < r ==> Prefix(ds, r - 1) < p)
        decreases numDigits - r
      {
        Quotient(n, p);
        PrefixStep(ds, r);
        if r < numDigits {
          n := U64(U64(10 * n) + digits[r]);
          r := r + 1;
        } else if n == 0 {
          return true, r, n;
        } else {
          while n / p == 0
            invariant numDigits <= r && 0 < n == Prefix(ds, r) && n < 10 * p && (0 < r ==> Prefix(ds, r - 1) < p)
            decreases p - n
          {
            Quotient(n, p);
            PrefixStep(ds, r);
            n := U64(10 * n);
            r := r + 1;
          }
          break;
        }
      }
      Quotient(n, p);
      NonZero(ds, r);
    }

    /** Second loop: divide the remaining digits, writing quotient digits over
        digits already read. */
    method Divide(p: nat, r: nat, n0: nat, ghost ds: seq<nat>) returns (w: nat, i: nat, n: nat, ghost out: seq<nat>)
      requires Valid() && ds == Shown() && 0 < r && 0 < p <= 0x1000_0000_0000_0000 && Dividing(ds, r, p, 0, n0)
      modifies digits
      ensures digits.Length == 768 && w == |out| <= 768 && digits[..w] == out && Digits(out)
      ensures i == (if r < numDigits then numDigits else r) && w == i - r
      ensures Dividing(ds, i, p, Number(out), n)
    {
      hide Dividing, Number, U64, High, Low;
      w, i, n, out := 0, r, n0, [];
      Nothing();
      while i < numDigits
        invariant r <= i && (r <= numDigits ==> i <= numDigits) && w == i - r == |out| && (numDigits < r ==> i == r)
        invariant w <= 768 && digits[..w] == out && Digits(out)
        invariant forall k :: i <= k < numDigits ==> digits[k] == ds[k]
        invariant Dividing(ds, i, p, Number(out), n)
      {
        var newDigit := High(n, p);
        DivideStep(ds, i, p, Number(out), n, ds[i]);
        n := U64(U64(10 * Low(n, p)) + digits[i]);
        i := i + 1;
        digits[w] := newDigit;
        w := w + 1;
        NumberSnoc(out, newDigit);
        out := out + [newDigit];
      }
    }

    /** Third loop: flush the remainder. Digits past the 768th are dropped, with a
        note if one of them is not zero. */
    method Flush(p: nat, shift: nat, w0: nat, i0: nat, n0: nat, ghost ds: seq<nat>, ghost out: seq<nat>)
      returns (w: nat, ghost full: seq<nat>, ghost i: nat)
      requires digits.Length == 768 && p == Pow(2, shift) && 0 < p <= 0x1000_0000_0000_0000
      requires w0 == |out| <= 768 && digits[..w0] == out && Digits(out) && |ds| <= i0
      requires Dividing(ds, i0, p, Number(out), n0)
      modifies digits, this`truncated
      ensures w <= 768 && w <= |full| && digits[..w] == full[..w] && Digits(full)
      ensures |full| == |out| + (i - i0) && i0 <= i && (w < 768 ==> w == |full|)
      ensures truncated == (old(truncated) || !AllZero(full[w..]))
      ensures Dividing(ds, i, p, Number(full), 0)
    {
      hide Dividing, Number, U64, Pow, Product, High, Low, AllZero;
      NoneZero();
      var n: nat := n0;
      w, full, i := w0, out, i0;
      ghost var j: nat := 0;
      DivisibleStarts(n);
      assert full[w..] == [];
      while 0 < n
        invariant i0 <= i && |full| == |out| + (i - i0) && Digits(full)
        invariant w <= 768 && w <= |full| && (w < 768 ==> w == |full|) && digits[..w] == full[..w]
        invariant truncated == (old(truncated) || !AllZero(full[w..]))
        invariant Dividing(ds, i, p, Number(full), n)
        invariant j <= shift && Divisible(n, Pow(2, j))
        decreases shift - j, n
      {
        var newDigit := High(n, p);
        DivideStep(ds, i, p, Number(full), n, 0);
        MoreTwos(n, p, j, shift);
        n := U64(10 * Low(n, p));
        i := i + 1;
        j := if j < shift then j + 1 else j;
        NumberSnoc(full, newDigit);
        ghost var before := full;
        full := full + [newDigit];
        SnocCut(before, newDigit, w);
        if w < 768 {
          ghost var kept := digits[..w];
          digits[w] := newDigit;
          assert digits[..w + 1] == kept + [newDigit];
          w := w + 1;
          assert full[w..] == [];
        } else {
          ZeroSnoc(before[w..], newDigit);
          if 0 < newDigit {
            truncated := true;
          }
        }
      }
    }

    /** trim: drop final zeros. */
    method Trim()
      requires Valid()
      modifies this`numDigits
      ensures Valid() && numDigits <= old(numDigits)
      ensures 0 < numDigits ==> digits[numDigits - 1] != 0
      ensures Value(Shown(), decimalPoint) == old(Value(Shown(), decimalPoint))
    {
      while 0 < numDigits && digits[numDigits - 1] == 0
        invariant Valid() && numDigits <= old(numDigits)
        invariant Value(Shown(), decimalPoint) == old(Value(Shown(), decimalPoint))
      {
        DropZero(Shown(), decimalPoint);
        assert Shown()[..numDigits - 1] == digits[..numDigits - 1];
        numDigits := numDigits - 1;
      }
    }

    /** decimal_right_shift. A zero stays as it is. Otherwise, unless the decimal
        point falls out of range, the value is divided by 2^shift exactly, or, if a
        non-zero digit had to be dropped, rounded down to 768 digits. */
    method RightShift(shift: nat) returns (ghost r: nat, ghost lost: bool)
      requires Valid() && shift <= 60
      modifies this, digits
      ensures Valid()
      ensures old(Number(Shown())) == 0 ==>
        Shown() == old(Shown()) && decimalPoint == old(decimalPoint) && truncated == old(truncated)
      ensures old(Number(Shown())) != 0 ==> FirstDigit(old(Shown()), Pow(2, shift), r)
      ensures old(Number(Shown())) != 0 && old(decimalPoint) - (r - 1) < -2047 ==>
        numDigits == 0 && decimalPoint == 0 && !negative && !truncated
      ensures old(Number(Shown())) != 0 && old(decimalPoint) - (r - 1) >= -2047 ==>
        && decimalPoint == old(decimalPoint) - (r - 1) && negative == old(negative)
          && truncated == (old(truncated) || lost)
        && Shifted(old(Value(Shown(), decimalPoint)), Value(Shown(), decimalPoint), Ten(decimalPoint - 768),
          Pow(2, shift), lost)
        && (0 < numDigits ==> digits[numDigits - 1] != 0)
    {
      hide Pow, Number, FirstDigit, Dividing, Value, Shifted, Ten;
      ghost var ds := Shown();
      var p := Pow(2, shift);
      ShiftBounds(shift);
      lost := false;
      var zero, lead, n := Lead(p);
      r := lead;
      if zero { return; }
      FirstDivides(ds, p, lead);
      decimalPoint := decimalPoint - (lead - 1);
      if decimalPoint < -2047 {
        numDigits, decimalPoint, negative, truncated := 0, 0, false, false;
        return;
      }
      ghost var out, full, last;
      var w, i;
      w, i, n, out := Divide(p, lead, n, ds);
      w, full, last := Flush(p, shift, w, i, n, ds, out);
      lost := !AllZero(full[w..]);
      numDigits := w;
      assert forall k :: 0 <= k < w ==> digits[k] == full[..w][k] <= 9;
      assert Shown() == full[..w];
      QuotientValue(ds, old(decimalPoint), full, w, last, p, lead, lost);
      Trim();
    }
  }

  lemma ShiftBounds(shift: nat)
    requires shift <= 60
    ensures 0 < Pow(2, shift) <= 0x1000_0000_0000_0000
  {
    PowPositive(2, shift);
    PowTwos();
    if shift < 60 { PowGrows(2, shift, 60); }
  }

  lemma FirstDivides(ds: seq<nat>, p: nat, r: nat)
    requires FirstDigit(ds, p, r)
    ensures 0 < r && Dividing(ds, r, p, 0, Prefix(ds, r))
  {
  }

  /** `y` is x / p, exactly, or, if digits were lost, rounded down to a unit. */
  ghost predicate Shifted(x: real, y: real, unit: real, p: nat, lost: bool) {
    if lost then y * p as real < x < (y + unit) * p as real else y * p as real == x
  }

  lemma QuotientValue(ds: seq<nat>, point: int, full: seq<nat>, w: nat, i: nat, p: nat, r: nat, lost: bool)
    requires w <= |full| && (w < |full| ==> w == 768) && Digits(full) && lost == !AllZero(full[w..])
    requires 0 < p && |ds| <= i && 0 < r && |full| == i - r && Dividing(ds, i, p, Number(full), 0)
    ensures Shifted(Value(ds, point), Value(full[..w], point - (r - 1)), Ten(point - (r - 1) - 768), p, lost)
  {
    hide Value, Number, Ten, Pow, Dividing, Digits, AllZero;
    var k, u := |full| - w, 10.0 * p as real * Ten(point - i);
    var head, tail := Number(full[..w]), Number(full[w..]);
    Dividend(ds, point, i, p, Number(full), u);
    Kept(full[..w], point - (r - 1), k, point - i, p, u);
    Cut(full, w);
    Tail(full, w);
    TenPositive(point - i);
    LastPlace(point - (r - 1) - w, k, point - i, p, u);
    Compare(Value(ds, point), Value(full[..w], point - (r - 1)), Ten(point - (r - 1) - w), p, head * Pow(10, k), tail,
      Pow(10, k), u);
  }

  lemma Tail(full: seq<nat>, w: nat)
    requires w <= |full| && Digits(full)
    ensures Number(full[w..]) < Pow(10, |full| - w) && (Number(full[w..]) == 0 <==> AllZero(full[w..]))
    ensures w == |full| ==> AllZero(full[w..])
  {
    NumberBound(full[w..]);
    ZeroNumber(full[w..]);
  }

  lemma Dividend(ds: seq<nat>, point: int, i: nat, p: nat, f: nat, u: real)
    requires |ds| <= i && Dividing(ds, i, p, f, 0) && u == 10.0 * p as real * Ten(point - i)
    ensures Value(ds, point) == f as real * u
  {
    hide Pow, Number, Prefix, Ten;
    PrefixPast(ds, i - |ds|);
    assert |ds| + (i - |ds|) == i;
    TenAdds(i - |ds|, point - i);
    assert i - |ds| + (point - i) == point - |ds|;
    Reals(Number(ds), Pow(10, i - |ds|), Product(10 * p, f), Ten(point - i));
    Shuffle(p, f, Ten(point - i));
  }

  lemma Reals(d: nat, t: nat, m: nat, e: real)
    requires d * t == m
    ensures d as real * (t as real * e) == m as real * e
  {
    assert d as real * t as real == m as real;
  }

  lemma Shuffle(p: nat, f: nat, e: real)
    ensures Product(10 * p, f) as real * e == f as real * (10.0 * p as real * e)
  {
    assert ((10 * p) * f) as real == 10.0 * p as real * f as real;
  }

  lemma Kept(es: seq<nat>, point: int, k: nat, e: int, p: nat, u: real)
    requires point - |es| == e + 1 + k && u == 10.0 * p as real * Ten(e)
    ensures Value(es, point) * p as real == (Number(es) * Pow(10, k)) as real * u
  {
    hide Number, Pow, Ten;
    LastPlace(point - |es|, k, e, p, u);
    var n, t, q := Number(es), Pow(10, k), p as real;
    var l := Ten(point - |es|);
    assert n as real * l * q == n as real * (l * q);
    assert (n * t) as real * u == n as real * (t as real * u) by { assert (n * t) as real == n as real * t as real; }
  }

  lemma LastPlace(x: int, k: nat, e: int, p: nat, u: real)
    requires x == e + 1 + k && u == 10.0 * p as real * Ten(e)
    ensures Ten(x) * p as real == Pow(10, k) as real * u
  {
    hide Pow, Ten;
    TenStep(e);
    TenAdds(k, e + 1);
    assert k + (e + 1) == x;
    var t, e1 := Pow(10, k) as real, Ten(e);
    assert (t * (10.0 * e1)) * p as real == t * (10.0 * p as real * e1);
  }

  lemma Compare(x: real, y: real, unit: real, p: nat, head: nat, tail: nat, ten: nat, u: real)
    requires 0.0 < u && x == (head + tail) as real * u && y * p as real == head as real * u
      && unit * p as real == ten as real * u
    requires tail < ten
    ensures if tail == 0 then y * p as real == x else y * p as real < x < (y + unit) * p as real
  {
    assert (head + tail) as real * u == head as real * u + tail as real * u;
    assert (y + unit) * p as real == y * p as real + unit * p as real;
    if tail != 0 {
      assert 0.0 < tail as real * u;
      RealScale(tail as real, ten as real, u);
    }
  }

  lemma RealScale(a: real, b: real, u: real)
    requires a < b && 0.0 < u
    ensures a * u < b * u
  {
  }

  lemma DropZero(ds: seq<nat>, point: int)
    requires ds != [] && ds[|ds| - 1] == 0
    ensures Value(ds[..|ds| - 1], point) == Value(ds, point)
  {
    var front := ds[..|ds| - 1];
    assert ds == front + [0];
    NumberSnoc(front, 0);
    TenStep(point - |ds|);
    assert Number(ds) as real == 10.0 * Number(front) as real;
  }

  /** `r` is the first position at which the quotient by `p` has a digit. */
  ghost predicate FirstDigit(ds: seq<nat>, p: nat, r: nat) {
    0 < r && Prefix(ds, r - 1) < p <= Prefix(ds, r) < 10 * p
  }

  lemma PrefixStep(ds: seq<nat>, i: nat)
    ensures Prefix(ds, 0) == 0
    ensures Prefix(ds, i + 1) == 10 * Prefix(ds, i) + if i < |ds| then ds[i] else 0
  {
  }

  lemma Quotient(n: nat, p: nat)
    requires 0 < p
    ensures n / p == 0 <==> n < p
  {
    if n < p {
      assert n / p == 0;
    } else {
      Monotone(1, n / p, p);
    }
  }

  /** A non-zero prefix means a non-zero number. */
  lemma {:induction false} NonZero(ds: seq<nat>, r: nat)
    ensures 0 < Prefix(ds, r) ==> 0 < Number(ds)
    decreases if r <= |ds| then |ds| - r else r
  {
    if r < |ds| {
      NonZero(ds, r + 1);
    } else if |ds| < r {
      NonZero(ds, r - 1);
    }
  }

  // ----- The flush loop ends -----

  ghost predicate Divisible(n: nat, u: nat) {
    exists t: nat :: n == Product(u, t)
  }

  lemma DivisibleStarts(n: nat)
    ensures Divisible(n, Pow(2, 0))
  {
    assert n == Product(Pow(2, 0), n);
  }

  /** Every round the remainder gains a factor two, until nothing is left. */
  lemma MoreTwos(n: nat, p: nat, j: nat, shift: nat)
    requires j <= shift && p == Pow(2, shift) && 0 < p && Divisible(n, Pow(2, j))
    ensures j < shift ==> Divisible(10 * Low(n, p), Pow(2, j + 1))
    ensures j == shift ==> Low(n, p) == 0 && Divisible(0, Pow(2, j))
  {
    var t: nat :| n == Product(Pow(2, j), t);
    var u, v := Pow(2, j), Pow(2, shift - j);
    PowAdds(2, j, shift - j);
    PowPositive(2, j);
    PowPositive(2, shift - j);
    Factor(n, u, t, v);
    if j < shift {
      var k := t - n / p * v;
      assert 10 * (n % p) == Product(2 * u, 5 * k) by { Fives(u, k); }
      assert Pow(2, j + 1) == 2 * u;
    } else {
      assert v == 1 && p == u;
      Multiple(p, t);
      assert 0 == Product(Pow(2, j), 0);
    }
  }

  lemma Factor(n: nat, u: nat, t: nat, v: nat)
    requires n == u * t && 0 < u && 0 < v && 0 < u * v
    ensures 0 <= t - n / (u * v) * v && n % (u * v) == u * (t - n / (u * v) * v)
  {
    var q := n / (u * v);
    assert n == (u * v) * q + n % (u * v);
    assert (u * v) * q == u * (q * v);
    assert u * t - u * (q * v) == u * (t - q * v);
    if t - q * v < 0 {
      Monotone(t - q * v, -1, u);
      assert false;
    }
  }

  lemma Fives(u: nat, k: nat)
    ensures 10 * (u * k) == Product(2 * u, 5 * k)
  {
  }

  lemma Multiple(p: nat, t: nat)
    requires 0 < p
    ensures (p * t) % p == 0
  {
    var q, r := (p * t) / p, (p * t) % p;
    assert p * t == p * q + r;
    assert p * (t - q) == r;
    if t - q != 0 {
      if 0 < t - q {
        Monotone(1, t - q, p);
      } else {
        Monotone(t - q, -1, p);
      }
      assert false;
    }
  }
}
