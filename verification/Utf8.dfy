/** UTF-8 as section 3 of RFC 3629 defines it. */
module Utf8 {

  type Octet = n: nat | n < 256

  /** A Unicode scalar value: any code point but a surrogate. */
  predicate Scalar(cp: nat) {
    cp <= 0x10FFFF && !(0xD800 <= cp <= 0xDFFF)
  }

  /** The octets of a character. */
  function Encode(cp: nat): (s: seq<Octet>)
    requires cp <= 0x10FFFF
    ensures 1 <= |s| <= 4
  {
    if cp < 0x80 then [cp]
    else if cp <= 0x7FF then [0xC0 + cp / 0x40, 0x80 + cp % 0x40]
    else if cp <= 0xFFFF then [0xE0 + cp / 0x40 / 0x40, 0x80 + cp / 0x40 % 0x40, 0x80 + cp % 0x40]
    else [0xF0 + cp / 0x40 / 0x40 / 0x40, 0x80 + cp / 0x40 / 0x40 % 0x40, 0x80 + cp / 0x40 % 0x40, 0x80 + cp % 0x40]
  }

  predicate Scalars(cps: seq<nat>) {
    forall i :: 0 <= i < |cps| ==> Scalar(cps[i])
  }

  function EncodeAll(cps: seq<nat>): seq<Octet>
    requires Scalars(cps)
  {
    if cps == [] then [] else
      assert Scalar(cps[|cps| - 1]);
      EncodeAll(cps[..|cps| - 1]) + Encode(cps[|cps| - 1])
  }

  lemma EncodeSnoc(cps: seq<nat>, cp: nat)
    requires Scalars(cps) && Scalar(cp)
    ensures Scalars(cps + [cp]) && EncodeAll(cps + [cp]) == EncodeAll(cps) + Encode(cp)
  {
    assert (cps + [cp])[..|cps|] == cps;
  }

  function At(s: seq<Octet>, i: nat): (c: nat)
    ensures c < 256
  {
    if i < |s| then s[i] else 0
  }

  /** `s` has the octets of `t` at position `i`. */
  predicate Has(s: seq<Octet>, i: nat, t: seq<Octet>) {
    i + |t| <= |s| && s[i..i + |t|] == t
  }

  lemma HasAt(s: seq<Octet>, i: nat, t: seq<Octet>)
    requires Has(s, i, t)
    ensures forall k :: 0 <= k < |t| ==> At(s, i + k) == t[k]
  {
    forall k | 0 <= k < |t| ensures At(s, i + k) == t[k] {
      assert s[i..i + |t|][k] == s[i + k];
    }
  }

  lemma HasJoin(s: seq<Octet>, i: nat, t: seq<Octet>, u: seq<Octet>)
    requires Has(s, i, t) && Has(s, i + |t|, u)
    ensures Has(s, i, t + u)
  {
    assert s[i..i + |t| + |u|] == s[i..i + |t|] + s[i + |t|..i + |t| + |u|];
  }

  lemma HasParts(s: seq<Octet>, i: nat, t: seq<Octet>, u: seq<Octet>)
    requires Has(s, i, t + u)
    ensures Has(s, i, t) && Has(s, i + |t|, u)
  {
    var m, n := i + |t|, i + |t| + |u|;
    forall k | 0 <= k < |t| ensures s[i..m][k] == t[k] {
      assert s[i..n][k] == (t + u)[k];
    }
    forall k | 0 <= k < |u| ensures s[m..n][k] == u[k] {
      assert s[i..n][|t| + k] == (t + u)[|t| + k];
    }
  }

  lemma HasPair(s: seq<Octet>, i: nat, c: Octet, d: Octet)
    requires c != 0 && d != 0
    ensures Has(s, i, [c, d]) <==> At(s, i) == c && At(s, i + 1) == d
  {
    if i + 2 <= |s| {
      assert s[i..i + 2] == [s[i], s[i + 1]];
    }
  }

  lemma HasSplit(s: seq<Octet>, i: nat, t: seq<Octet>, u: seq<Octet>)
    ensures Has(s, i, t + u) <==> Has(s, i, t) && Has(s, i + |t|, u)
  {
    hide Has;
    if Has(s, i, t + u) {
      HasParts(s, i, t, u);
    }
    if Has(s, i, t) && Has(s, i + |t|, u) {
      HasJoin(s, i, t, u);
    }
  }

  lemma HasOne(s: seq<Octet>, i: nat, c: Octet)
    ensures c != 0 ==> (Has(s, i, [c]) <==> At(s, i) == c)
  {
    if i < |s| {
      assert s[i..i + 1] == [s[i]];
    }
  }

  lemma AtFirst(s: seq<Octet>, i: nat, t: seq<Octet>)
    requires Has(s, i, t) && t != []
    ensures At(s, i) == t[0]
  {
    HasAt(s, i, t);
    assert At(s, i + 0) == t[0];
  }

  predicate Tail(c: nat) {
    0x80 <= c <= 0xBF
  }

  /** Six bits from each octet after the first. */
  function Join(a: nat, b: nat): nat
    requires 0x80 <= b
  {
    a * 0x40 + (b - 0x80)
  }

  /** The character that starts at position `i`, or 0x110000 if the octets there are
      not well formed in the sense of section 4 of RFC 3629. */
  function Decode(s: seq<Octet>, i: nat): nat {
    Character(At(s, i), At(s, i + 1), At(s, i + 2), At(s, i + 3))
  }

  function Character(c0: nat, c1: nat, c2: nat, c3: nat): nat {
    if c0 <= 0x7F then c0
    else if 0xC2 <= c0 <= 0xDF && Tail(c1) then Join(c0 - 0xC0, c1)
    else if SecondOfThree(c0, c1) && Tail(c2) then Join(Join(c0 - 0xE0, c1), c2)
    else if SecondOfFour(c0, c1) && Tail(c2) && Tail(c3) then Join(Join(Join(c0 - 0xF0, c1), c2), c3)
    else 0x11_0000
  }

  predicate SecondOfThree(c0: nat, c1: nat) {
    || (c0 == 0xE0 && 0xA0 <= c1 <= 0xBF)
    || (0xE1 <= c0 <= 0xEC && Tail(c1))
    || (c0 == 0xED && 0x80 <= c1 <= 0x9F)
    || (0xEE <= c0 <= 0xEF && Tail(c1))
  }

  predicate SecondOfFour(c0: nat, c1: nat) {
    || (c0 == 0xF0 && 0x90 <= c1 <= 0xBF)
    || (0xF1 <= c0 <= 0xF3 && Tail(c1))
    || (c0 == 0xF4 && 0x80 <= c1 <= 0x8F)
  }

  lemma Split(a: nat, b: nat)
    requires Tail(b)
    ensures Join(a, b) / 0x40 == a && 0x80 + Join(a, b) % 0x40 == b
  {
  }

  lemma TwoOctets(c0: nat, c1: nat)
    requires 0xC2 <= c0 <= 0xDF && Tail(c1)
    ensures Scalar(Join(c0 - 0xC0, c1)) && Encode(Join(c0 - 0xC0, c1)) == [c0, c1]
  {
    Split(c0 - 0xC0, c1);
  }

  lemma ThreeOctets(c0: nat, c1: nat, c2: nat)
    requires SecondOfThree(c0, c1) && Tail(c2)
    ensures Scalar(Join(Join(c0 - 0xE0, c1), c2)) && Encode(Join(Join(c0 - 0xE0, c1), c2)) == [c0, c1, c2]
  {
    var a := Join(c0 - 0xE0, c1);
    assert 0x20 <= a < 0x400 && !(0x360 <= a < 0x380);
    var cp := Join(a, c2);
    assert a * 0x40 <= cp < a * 0x40 + 0x40;
    Split(c0 - 0xE0, c1);
    Split(a, c2);
    hide Join;
    assert 0x7FF < cp <= 0xFFFF;
  }

  lemma FourOctets(c0: nat, c1: nat, c2: nat, c3: nat)
    requires SecondOfFour(c0, c1) && Tail(c2) && Tail(c3)
    ensures Scalar(Join(Join(Join(c0 - 0xF0, c1), c2), c3))
    ensures Encode(Join(Join(Join(c0 - 0xF0, c1), c2), c3)) == [c0, c1, c2, c3]
  {
    Split(c0 - 0xF0, c1);
    Split(Join(c0 - 0xF0, c1), c2);
    Split(Join(Join(c0 - 0xF0, c1), c2), c3);
  }

  lemma CharacterEncodes(c0: nat, c1: nat, c2: nat, c3: nat)
    requires c0 < 256 && c1 < 256 && c2 < 256 && c3 < 256 && Character(c0, c1, c2, c3) != 0x11_0000
    ensures Scalar(Character(c0, c1, c2, c3))
    ensures Encode(Character(c0, c1, c2, c3)) == [c0, c1, c2, c3][..|Encode(Character(c0, c1, c2, c3))|]
    ensures |Encode(Character(c0, c1, c2, c3))| ==
      (if c0 <= 0x7F then 1 else if c0 <= 0xDF then 2 else if c0 <= 0xEF then 3 else 4)
  {
    hide Join;
    if c0 <= 0x7F {
    } else if c0 <= 0xDF {
      TwoOctets(c0, c1);
    } else if c0 <= 0xEF {
      ThreeOctets(c0, c1, c2);
    } else {
      FourOctets(c0, c1, c2, c3);
    }
  }

  lemma SecondOctetOfThree(cp: nat)
    requires Scalar(cp) && 0x7FF < cp <= 0xFFFF
    ensures SecondOfThree(0xE0 + cp / 0x40 / 0x40, 0x80 + cp / 0x40 % 0x40)
  {
    var a := cp / 0x40;
    assert 0x20 <= a < 0x400 && !(0x360 <= a < 0x380);
    var b := a / 0x40;
    assert a == b * 0x40 + a % 0x40;
    assert b < 0x10;
  }

  lemma SecondOctetOfFour(cp: nat)
    requires 0xFFFF < cp <= 0x10FFFF
    ensures SecondOfFour(0xF0 + cp / 0x40 / 0x40 / 0x40, 0x80 + cp / 0x40 / 0x40 % 0x40)
  {
    var b := cp / 0x40 / 0x40;
    assert 0x10 <= b < 0x110;
  }

  lemma EncodeIsCharacter(cp: nat, c1: nat, c2: nat, c3: nat)
    requires Scalar(cp)
    requires |Encode(cp)| > 1 ==> c1 == Encode(cp)[1]
    requires |Encode(cp)| > 2 ==> c2 == Encode(cp)[2]
    requires |Encode(cp)| > 3 ==> c3 == Encode(cp)[3]
    ensures Character(Encode(cp)[0], c1, c2, c3) == cp
  {
    hide Join, SecondOfThree, SecondOfFour;
    Rejoin(cp);
    Rejoin(cp / 0x40);
    Rejoin(cp / 0x40 / 0x40);
    if cp < 0x80 {
    } else if cp <= 0x7FF {
      assert 2 <= cp / 0x40 < 0x20;
    } else if cp <= 0xFFFF {
      SecondOctetOfThree(cp);
    } else {
      SecondOctetOfFour(cp);
      NotThree(0xF0 + cp / 0x40 / 0x40 / 0x40, c1);
    }
  }

  lemma NotThree(c0: nat, c1: nat)
    requires 0xF0 <= c0
    ensures !SecondOfThree(c0, c1)
  {
  }

  lemma Rejoin(x: nat)
    ensures Join(x / 0x40, 0x80 + x % 0x40) == x
  {
  }

  /** The byte grammar accepts exactly the encodings of scalar values. */
  lemma DecodeSound(s: seq<Octet>, i: nat)
    requires i < |s| && Decode(s, i) != 0x11_0000
    ensures Scalar(Decode(s, i)) && Has(s, i, Encode(Decode(s, i)))
  {
    hide Encode, Character;
    var c0, c1, c2, c3 := At(s, i), At(s, i + 1), At(s, i + 2), At(s, i + 3);
    CharacterEncodes(c0, c1, c2, c3);
    CharacterInside(c0, c1, c2, c3);
    var e := Encode(Decode(s, i));
    assert i + |e| <= |s|;
    forall k | 0 <= k < |e| ensures s[i..i + |e|][k] == e[k] {
      assert e[k] == [c0, c1, c2, c3][k];
      assert At(s, i + k) == [c0, c1, c2, c3][k];
    }
  }

  /** No octet of a well-formed character is zero, but for the character itself. */
  lemma CharacterInside(c0: nat, c1: nat, c2: nat, c3: nat)
    requires Character(c0, c1, c2, c3) != 0x11_0000
    ensures c0 > 0x7F ==> c1 != 0
    ensures c0 > 0xDF ==> c2 != 0
    ensures c0 > 0xEF ==> c3 != 0
  {
  }

  lemma DecodeComplete(s: seq<Octet>, i: nat, cp: nat)
    requires Scalar(cp) && Has(s, i, Encode(cp))
    ensures Decode(s, i) == cp
  {
    hide Encode, Character;
    HasAt(s, i, Encode(cp));
    EncodeIsCharacter(cp, At(s, i + 1), At(s, i + 2), At(s, i + 3));
    assert At(s, i + 0) == Encode(cp)[0];
  }
}
