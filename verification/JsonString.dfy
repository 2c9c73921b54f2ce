/** String literals of JSON (section 7 of RFC 8259) and the scanner for them. */
module JsonString {
  import opened Options
  import opened Utf8

  // ----- The grammar -----

  /** One character of a literal: written as itself, as a two-character escape, as
      \uXXXX, or as a surrogate pair of those. */
  datatype Item =
    | Plain(cp: nat)
    | Short(letter: Octet)
    | Unit(hex: seq<Octet>)
    | Pair(high: seq<Octet>, low: seq<Octet>)

  function HexDigit(c: nat): int {
    if 0x30 <= c <= 0x39 then c - 0x30
    else if 0x41 <= c <= 0x46 then c - 0x37
    else if 0x61 <= c <= 0x66 then c - 0x57
    else -1
  }

  predicate Hex4(h: seq<Octet>) {
    |h| == 4 && forall i :: 0 <= i < 4 ==> HexDigit(h[i]) >= 0
  }

  function HexValue(h: seq<Octet>): (v: nat)
    requires Hex4(h)
    ensures v <= 0xFFFF
  {
    HexDigit(h[0]) * 0x1000 + HexDigit(h[1]) * 0x100 + HexDigit(h[2]) * 0x10 + HexDigit(h[3])
  }

  predicate IsHigh(cp: nat) {
    0xD800 <= cp <= 0xDBFF
  }

  predicate IsLow(cp: nat) {
    0xDC00 <= cp <= 0xDFFF
  }

  /** What the letter of a two-character escape stands for. */
  function ShortMeaning(c: nat): int {
    if c == 0x22 || c == 0x5C || c == 0x2F then c
    else if c == 0x62 then 0x08
    else if c == 0x66 then 0x0C
    else if c == 0x6E then 0x0A
    else if c == 0x72 then 0x0D
    else if c == 0x74 then 0x09
    else -1
  }

  predicate Legal(it: Item) {
    match it
    case Plain(cp) => Scalar(cp) && 0x20 <= cp && cp != 0x22 && cp != 0x5C
    case Short(c) => ShortMeaning(c) >= 0
    case Unit(h) => Hex4(h) && Scalar(HexValue(h))
    case Pair(h, l) => Hex4(h) && Hex4(l) && IsHigh(HexValue(h)) && IsLow(HexValue(l))
  }

  function Spelling(it: Item): (s: seq<Octet>)
    requires Legal(it)
    ensures |s| > 0
  {
    match it
    case Plain(cp) => Encode(cp)
    case Short(c) => [0x5C, c]
    case Unit(h) => [0x5C, 0x75] + h
    case Pair(h, l) => [0x5C, 0x75] + h + [0x5C, 0x75] + l
  }

  /** The character it stands for; surrogates combine as in section 3 of RFC 2781. */
  function Meaning(it: Item): (cp: nat)
    requires Legal(it)
    ensures Scalar(cp)
  {
    match it
    case Plain(cp) => cp
    case Short(c) => ShortMeaning(c)
    case Unit(h) => HexValue(h)
    case Pair(h, l) => 0x1_0000 + (HexValue(h) - 0xD800) * 0x400 + (HexValue(l) - 0xDC00)
  }

  predicate AllLegal(items: seq<Item>) {
    forall i :: 0 <= i < |items| ==> Legal(items[i])
  }

  function Spell(items: seq<Item>): seq<Octet>
    requires AllLegal(items)
  {
    if items == [] then [] else Spelling(items[0]) + Spell(items[1..])
  }

  function Meanings(items: seq<Item>): (cps: seq<nat>)
    requires AllLegal(items)
    ensures |cps| == |items| && Scalars(cps)
  {
    if items == [] then [] else Meanings(items[..|items| - 1]) + [Meaning(items[|items| - 1])]
  }

  // ----- Reading one item -----

  function HexAt(s: seq<Octet>, i: nat): Option<seq<Octet>> {
    if i + 4 <= |s| && Hex4(s[i..i + 4]) then Some(s[i..i + 4]) else None
  }

  function EscapeAt(s: seq<Octet>, i: nat): Option<Item> {
    var c := At(s, i + 1);
    if ShortMeaning(c) >= 0 then Some(Short(c))
    else if c != 0x75 then None
    else match HexAt(s, i + 2)
      case None => None
      case Some(h) =>
        if IsHigh(HexValue(h)) then
          if At(s, i + 6) == 0x5C && At(s, i + 7) == 0x75 && HexAt(s, i + 8).Some?
            && IsLow(HexValue(HexAt(s, i + 8).value))
          then Some(Pair(h, HexAt(s, i + 8).value)) else None
        else if IsLow(HexValue(h)) then None else Some(Unit(h))
  }

  function ItemAt(s: seq<Octet>, i: nat): Option<Item> {
    if At(s, i) == 0x5C then EscapeAt(s, i)
    else if 0x20 <= At(s, i) && At(s, i) != 0x22 && Decode(s, i) != 0x11_0000 then Some(Plain(Decode(s, i)))
    else None
  }

  lemma EscapeSound(s: seq<Octet>, i: nat)
    requires i < |s| && At(s, i) == 0x5C && EscapeAt(s, i).Some?
    ensures Legal(EscapeAt(s, i).value) && Has(s, i, Spelling(EscapeAt(s, i).value))
  {
    hide HexValue, Hex4, Has;
    var it := EscapeAt(s, i).value;
    match it
    case Short(c) =>
      HasPair(s, i, 0x5C, c);
    case Unit(h) =>
      HasPair(s, i, 0x5C, 0x75);
      HexIsThere(s, i + 2);
      HasJoin(s, i, [0x5C, 0x75], h);
    case Pair(h, l) =>
      HasPair(s, i, 0x5C, 0x75);
      HexIsThere(s, i + 2);
      HasJoin(s, i, [0x5C, 0x75], h);
      HasPair(s, i + 6, 0x5C, 0x75);
      HasJoin(s, i, [0x5C, 0x75] + h, [0x5C, 0x75]);
      HexIsThere(s, i + 8);
      HasJoin(s, i, [0x5C, 0x75] + h + [0x5C, 0x75], l);
  }

  lemma HexIsThere(s: seq<Octet>, i: nat)
    requires HexAt(s, i).Some?
    ensures Hex4(HexAt(s, i).value) && |HexAt(s, i).value| == 4 && Has(s, i, HexAt(s, i).value)
  {
  }

  lemma HexIsRead(s: seq<Octet>, i: nat, h: seq<Octet>)
    requires Hex4(h) && Has(s, i, h)
    ensures HexAt(s, i) == Some(h)
  {
  }

  /** What a unicode escape at `i` amounts to, by its one or two groups of digits. */
  lemma UnicodeEscape(s: seq<Octet>, i: nat)
    requires At(s, i) == 0x5C && At(s, i + 1) == 0x75
    ensures HexAt(s, i + 2).None? ==> EscapeAt(s, i).None?
    ensures HexAt(s, i + 2).Some? ==>
      var v := HexValue(HexAt(s, i + 2).value);
      var paired := At(s, i + 6) == 0x5C && At(s, i + 7) == 0x75 && HexAt(s, i + 8).Some?;
      && (EscapeAt(s, i).Some? <==> if IsHigh(v) then paired && IsLow(HexValue(HexAt(s, i + 8).value)) else !IsLow(v))
      && (EscapeAt(s, i).Some? ==>
            var it := EscapeAt(s, i).value;
            && Legal(it) && Has(s, i, Spelling(it))
            && |Spelling(it)| == (if IsHigh(v) then 12 else 6)
            && Meaning(it) == (if IsHigh(v) then v * 0x400 + HexValue(HexAt(s, i + 8).value) - 0x35FDC00 else v))
  {
    hide HexValue;
    if EscapeAt(s, i).Some? {
      EscapeSound(s, i);
    }
  }

  lemma ItemSound(s: seq<Octet>, i: nat)
    requires i < |s| && ItemAt(s, i).Some?
    ensures Legal(ItemAt(s, i).value) && Has(s, i, Spelling(ItemAt(s, i).value))
  {
    hide EscapeAt, Encode, Decode;
    if At(s, i) == 0x5C {
      EscapeSound(s, i);
    } else {
      DecodeSound(s, i);
      FirstOctet(Decode(s, i));
      HasAt(s, i, Encode(Decode(s, i)));
      assert At(s, i + 0) == Encode(Decode(s, i))[0];
    }
  }

  lemma FirstOctet(cp: nat)
    requires Scalar(cp)
    ensures cp < 0x80 <==> Encode(cp)[0] < 0x80
    ensures cp < 0x80 ==> Encode(cp) == [cp]
  {
  }

  lemma ItemComplete(s: seq<Octet>, i: nat, it: Item)
    requires Legal(it) && Has(s, i, Spelling(it))
    ensures ItemAt(s, i) == Some(it)
  {
    hide HexValue, Has, HexAt, Decode, Encode;
    match it
    case Plain(cp) =>
      DecodeComplete(s, i, cp);
      FirstOctet(cp);
      HasAt(s, i, Encode(cp));
      assert At(s, i + 0) == Encode(cp)[0];
    case Short(c) =>
      HasPair(s, i, 0x5C, c);
    case Unit(h) =>
      HasParts(s, i, [0x5C, 0x75], h);
      HasPair(s, i, 0x5C, 0x75);
      HexIsRead(s, i + 2, h);
    case Pair(h, l) =>
      PairComplete(s, i, h, l);
  }

  lemma PairComplete(s: seq<Octet>, i: nat, h: seq<Octet>, l: seq<Octet>)
    requires Hex4(h) && Hex4(l) && Has(s, i, [0x5C, 0x75] + h + [0x5C, 0x75] + l)
    ensures At(s, i) == 0x5C && At(s, i + 1) == 0x75 && HexAt(s, i + 2) == Some(h)
    ensures At(s, i + 6) == 0x5C && At(s, i + 7) == 0x75 && HexAt(s, i + 8) == Some(l)
  {
    hide Has, HexAt, At;
    assert |h| == 4;
    HasParts(s, i, [0x5C, 0x75] + h + [0x5C, 0x75], l);
    HasParts(s, i, [0x5C, 0x75] + h, [0x5C, 0x75]);
    HasParts(s, i, [0x5C, 0x75], h);
    HasPair(s, i, 0x5C, 0x75);
    HexIsRead(s, i + 2, h);
    HasPair(s, i + 6, 0x5C, 0x75);
    HexIsRead(s, i + 8, l);
  }

  // ----- Whole literals -----

  /** Items from position `i` up to the closing quote, and where that is. */
  function Scan(s: seq<Octet>, i: nat): Option<(seq<Item>, nat)>
    decreases |s| - i
  {
    if i >= |s| then None
    else if s[i] == 0x22 then Some(([], i))
    else match ItemAt(s, i)
      case None => None
      case Some(it) =>
        ItemSound(s, i);
        match Scan(s, i + |Spelling(it)|)
        case None => None
        case Some((rest, e)) => Some(([it] + rest, e))
  }

  /** A literal with its meaning: a legal spelling between position `i` and the
      quote at `e`. */
  ghost predicate Literal(s: seq<Octet>, i: nat, items: seq<Item>, e: nat) {
    AllLegal(items) && Has(s, i, Spell(items)) && e == i + |Spell(items)| && e < |s| && s[e] == 0x22
  }

  lemma LiteralCons(s: seq<Octet>, i: nat, it: Item, rest: seq<Item>, e: nat)
    requires Legal(it) && Has(s, i, Spelling(it)) && Literal(s, i + |Spelling(it)|, rest, e)
    ensures Literal(s, i, [it] + rest, e)
  {
    hide Spelling, Legal;
    var t := Spelling(it);
    assert ([it] + rest)[1..] == rest;
    assert s[i..e] == s[i..i + |t|] + s[i + |t|..e];
  }

  /** Scanning finds a literal exactly when there is one, and there is one way to
      read it. */
  lemma {:induction false} ScanSound(s: seq<Octet>, i: nat)
    requires Scan(s, i).Some?
    ensures Literal(s, i, Scan(s, i).value.0, Scan(s, i).value.1)
    decreases |s| - i
  {
    hide ItemAt, Spelling, Legal;
    if s[i] == 0x22 {
      assert s[i..i] == [];
    } else {
      hide Has;
      var it := ItemAt(s, i).value;
      ItemSound(s, i);
      var t := Spelling(it);
      ScanSound(s, i + |t|);
      var (rest, e) := Scan(s, i + |t|).value;
      LiteralCons(s, i, it, rest, e);
    }
  }

  lemma {:induction false} ScanComplete(s: seq<Octet>, i: nat, items: seq<Item>, e: nat)
    requires Literal(s, i, items, e)
    ensures Scan(s, i) == Some((items, e))
    decreases |items|
  {
    hide ItemAt, Spelling, Legal;
    if items != [] {
      var it, rest := items[0], items[1..];
      LiteralTail(s, i, items, e);
      ItemComplete(s, i, it);
      NotQuote(it);
      HasAt(s, i, Spelling(it));
      assert At(s, i + 0) == Spelling(it)[0];
      ScanComplete(s, i + |Spelling(it)|, rest, e);
      assert [it] + rest == items;
    }
  }

  lemma LiteralTail(s: seq<Octet>, i: nat, items: seq<Item>, e: nat)
    requires Literal(s, i, items, e) && items != []
    ensures Legal(items[0]) && Has(s, i, Spelling(items[0])) && Literal(s, i + |Spelling(items[0])|, items[1..], e)
  {
    hide Spelling, Legal, Has;
    var t, u := Spelling(items[0]), Spell(items[1..]);
    assert Spell(items) == t + u;
    HasParts(s, i, t, u);
  }

  lemma NotQuote(it: Item)
    requires Legal(it)
    ensures Spelling(it)[0] != 0x22
  {
    if it.Plain? {
      FirstOctet(it.cp);
    }
  }

  // ----- The scanner -----

  lemma SliceSnoc(s: seq<Octet>, i: nat, m: nat)
    requires i <= m < |s|
    ensures s[i..m + 1] == s[i..m] + [s[m]]
  {
  }

  class StringParser {
    var input: seq<Octet>
    var currIdx: nat
    var current: Octet
    var token: seq<Octet>

    constructor (input: seq<Octet>)
      ensures this.input == input && currIdx == 0 && token == []
    {
      this.input := input;
      currIdx, current, token := 0, 0, [];
    }

    method Reset()
      modifies this
      ensures input == old(input) && currIdx == 0 && token == [] && current == At(input, 0)
    {
      current := if |input| > 0 then input[0] else 0;
      currIdx := 0;
      token := [];
    }

    /** Fetch the next byte; past the end it is 0 and the position stays. */
    method Get() returns (c: Octet)
      modifies this`currIdx, this`current
      ensures c == current == At(input, old(currIdx) + 1)
      ensures currIdx == if old(currIdx) + 1 < |input| then old(currIdx) + 1 else old(currIdx)
    {
      if currIdx + 1 < |input| {
        currIdx := currIdx + 1;
        current := input[currIdx];
      } else {
        current := 0;
      }
      c := current;
    }

    /** get_codepoint: the value of four hex digits, or -1. */
    method GetCodepoint() returns (r: int)
      requires current == 0x75
      modifies this`currIdx, this`current
      ensures r == -1 <==> HexAt(input, old(currIdx) + 1).None?
      ensures r != -1 ==> r == HexValue(HexAt(input, old(currIdx) + 1).value) && currIdx == old(currIdx) + 4
    {
      ghost var i, got := currIdx + 1, [];
      var codepoint, k := 0, 0;
      while k < 4
        invariant 0 <= k <= 4 == |got| + (4 - k) && currIdx == i + k - 1 && (k == 0 || i + k <= |input|)
        invariant k > 0 ==> got == input[i..i + k]
        invariant forall j :: 0 <= j < k ==> HexDigit(got[j]) >= 0
        invariant codepoint == HexSum(got)
      {
        var c := Get();
        var d := HexDigit(c);
        if d < 0 {
          NoHex(input, i, k);
          return -1;
        }
        codepoint := codepoint + d * Weight(k);
        HexSumSnoc(got, c);
        got := got + [c];
        k := k + 1;
      }
      assert got == input[i..i + 4];
      HexSumIs(got);
      r := codepoint;
    }

    method Add(c: Octet)
      modifies this`token
      ensures token == old(token) + [c]
    {
      token := token + [c];
    }

    /** next_byte_in_range: copy the current byte and as many more as there are
        ranges, each inside its own. */
    method NextByteInRange(ranges: seq<(Octet, Octet)>) returns (ok: bool)
      requires currIdx < |input| && current == input[currIdx]
      requires forall k :: 0 <= k < |ranges| ==> 0 < ranges[k].0
      modifies this`currIdx, this`current, this`token
      ensures ok <==> InRanges(input, old(currIdx) + 1, ranges)
      ensures ok ==> currIdx == old(currIdx) + |ranges| < |input|
      ensures ok ==> token == old(token) + input[old(currIdx)..old(currIdx) + 1 + |ranges|]
    {
      ghost var i := currIdx;
      Add(current);
      var k := 0;
      while k < |ranges|
        invariant k <= |ranges| && currIdx == i + k < |input|
        invariant token == old(token) + input[i..i + 1 + k]
        invariant InRanges(input, i + 1, ranges[..k])
      {
        var c := Get();
        InRangesSnoc(input, i + 1, ranges, k);
        if ranges[k].0 <= c <= ranges[k].1 {
          Add(c);
          SliceSnoc(input, i, i + 1 + k);
        } else {
          return false;
        }
        k := k + 1;
      }
      assert ranges[..k] == ranges;
      ok := true;
    }

    /** A character written as itself. */
    method ScanPlain() returns (ok: bool)
      requires currIdx < |input| && current == input[currIdx] && current != 0x22 && current != 0x5C
      modifies this`currIdx, this`current, this`token
      ensures ok <==> ItemAt(input, old(currIdx)).Some?
      ensures ok ==>
        var it := ItemAt(input, old(currIdx)).value;
        && Legal(it) && Has(input, old(currIdx), Spelling(it))
        && currIdx == old(currIdx) + |Spelling(it)| - 1 && token == old(token) + Encode(Meaning(it))
    {
      hide Encode, Decode, ItemAt, Ranges, InRanges;
      ghost var i := currIdx;
      PlainOctets(input, i);
      if ItemAt(input, i).Some? {
        ItemSound(input, i);
      }
      match Ranges(current)
      case None =>
        ok := false;
      case Some(ranges) =>
        if ranges == [] {
          Add(current);
          NoRanges(input, i);
          ok := true;
        } else {
          ok := NextByteInRange(ranges);
        }
    }

    /** Append a character in one to four bytes. */
    method AddCodepoint(cp: nat)
      requires cp <= 0x10FFFF
      modifies this`token
      ensures token == old(token) + Encode(cp)
    {
      if cp < 0x80 {
        Add(cp);
      } else if cp <= 0x7FF {
        Add(0xC0 + cp / 0x40);
        Add(0x80 + cp % 0x40);
      } else if cp <= 0xFFFF {
        Add(0xE0 + cp / 0x1000);
        Add(0x80 + cp / 0x40 % 0x40);
        Add(0x80 + cp % 0x40);
      } else {
        Add(0xF0 + cp / 0x4_0000);
        Add(0x80 + cp / 0x1000 % 0x40);
        Add(0x80 + cp / 0x40 % 0x40);
        Add(0x80 + cp % 0x40);
      }
    }

    /** An escape, from the backslash on. */
    method ScanEscape() returns (ok: bool)
      requires currIdx < |input| && current == input[currIdx] == 0x5C
      modifies this`currIdx, this`current, this`token
      ensures ok <==> ItemAt(input, old(currIdx)).Some?
      ensures ok ==>
        var it := ItemAt(input, old(currIdx)).value;
        && Legal(it) && Has(input, old(currIdx), Spelling(it))
        && currIdx == old(currIdx) + |Spelling(it)| - 1 && token == old(token) + Encode(Meaning(it))
    {
      hide Encode, HexValue, HexAt;
      ghost var i := currIdx;
      var c := Get();
      if ShortMeaning(c) >= 0 {
        Add(ShortMeaning(c));
        Ascii(ShortMeaning(c));
        EscapeSound(input, i);
        return true;
      }
      if c != 0x75 { return false; }
      ok := ScanUnicode();
    }

    /** A \\u escape, from the letter on. */
    method ScanUnicode() returns (ok: bool)
      requires 0 < currIdx < |input| && current == input[currIdx] == 0x75 && input[currIdx - 1] == 0x5C
      modifies this`currIdx, this`current, this`token
      ensures ok <==> EscapeAt(input, old(currIdx) - 1).Some?
      ensures ok ==>
        var it := EscapeAt(input, old(currIdx) - 1).value;
        && Legal(it) && Has(input, old(currIdx) - 1, Spelling(it))
        && currIdx == old(currIdx) + |Spelling(it)| - 2 && token == old(token) + Encode(Meaning(it))
    {
      hide Encode, HexValue, HexAt, EscapeAt, Legal, Spelling, Meaning;
      ghost var i := currIdx - 1;
      var codepoint1 := GetCodepoint();
      UnicodeEscape(input, i);
      if codepoint1 == -1 { return false; }
      var codepoint := codepoint1;
      if 0xD800 <= codepoint1 <= 0xDBFF {
        var slash := Get();
        if slash != 0x5C { return false; }
        var u := Get();
        if u != 0x75 { return false; }
        var codepoint2 := GetCodepoint();
        if codepoint2 == -1 || !(0xDC00 <= codepoint2 <= 0xDFFF) { return false; }
        codepoint := codepoint1 * 0x400 + codepoint2 - 0x35FDC00;
      } else if 0xDC00 <= codepoint1 <= 0xDFFF {
        return false;
      }
      AddCodepoint(codepoint);
      ok := true;
    }

    /** scan_string. It accepts exactly the inputs that begin with a JSON string
        literal, and the token is the UTF-8 form of what the literal means. */
    method ScanString() returns (ok: bool)
      modifies this
      ensures input == old(input)
      ensures ok <==> At(input, 0) == 0x22 && Scan(input, 1).Some?
      ensures ok ==> AllLegal(Scan(input, 1).value.0) && token == EncodeAll(Meanings(Scan(input, 1).value.0))
      ensures ok ==> currIdx == Scan(input, 1).value.1
    {
      hide Encode, EscapeAt, ItemAt, Decode, Legal, Spelling, EncodeAll, Meanings, Meaning, Scan;
      Reset();
      if current != 0x22 { return false; }
      ghost var items: seq<Item> := [];
      NoMeanings();
      GlueNothing(Scan(input, 1));
      while true
        invariant input == old(input) && currIdx < |input|
        invariant AllLegal(items) && token == EncodeAll(Meanings(items))
        invariant Scan(input, 1) == Glue(items, Scan(input, currIdx + 1))
        decreases |input| - currIdx
      {
        ghost var i := currIdx + 1;
        var c := Get();
        if c == 0x22 {
          ClosingQuote(input, i);
          assert items + [] == items;
          return true;
        } else if c == 0 {
          NoItem(input, i);
          return false;
        }
        GlueStep(input, items, i);
        if c == 0x5C {
          ok := ScanEscape();
        } else {
          ok := ScanPlain();
        }
        if !ok { return false; }
        ghost var it := ItemAt(input, i).value;
        MeaningsSnoc(items, it);
        items := items + [it];
      }
    }
  }

  /** The ranges of the bytes that may follow a first byte outside escapes; none if
      it may not occur. */
  function Ranges(c: nat): (r: Option<seq<(Octet, Octet)>>)
    ensures r.Some? ==> forall k :: 0 <= k < |r.value| ==> 0 < r.value[k].0
  {
    if c < 0x20 then None
    else if c <= 0x7F then Some([])
    else if 0xC2 <= c <= 0xDF then Some([(0x80, 0xBF)])
    else if c == 0xE0 then Some([(0xA0, 0xBF), (0x80, 0xBF)])
    else if 0xE1 <= c <= 0xEC || c == 0xEE || c == 0xEF then Some([(0x80, 0xBF), (0x80, 0xBF)])
    else if c == 0xED then Some([(0x80, 0x9F), (0x80, 0xBF)])
    else if c == 0xF0 then Some([(0x90, 0xBF), (0x80, 0xBF), (0x80, 0xBF)])
    else if 0xF1 <= c <= 0xF3 then Some([(0x80, 0xBF), (0x80, 0xBF), (0x80, 0xBF)])
    else if c == 0xF4 then Some([(0x80, 0x8F), (0x80, 0xBF), (0x80, 0xBF)])
    else None
  }

  /** The weight of the k-th of four hex digits: 1 << 12, 1 << 8, 1 << 4, 1 << 0. */
  function Weight(k: nat): nat {
    if k == 0 then 0x1000 else if k == 1 then 0x100 else if k == 2 then 0x10 else 1
  }

  function HexSum(h: seq<Octet>): int {
    if h == [] then 0 else HexSum(h[..|h| - 1]) + HexDigit(h[|h| - 1]) * Weight(|h| - 1)
  }

  lemma HexSumSnoc(h: seq<Octet>, c: Octet)
    ensures HexSum(h + [c]) == HexSum(h) + HexDigit(c) * Weight(|h|)
  {
    assert (h + [c])[..|h|] == h;
  }

  lemma HexSumIs(h: seq<Octet>)
    requires Hex4(h)
    ensures HexSum(h) == HexValue(h)
  {
    HexSumSnoc([], h[0]);
    HexSumSnoc([h[0]], h[1]);
    HexSumSnoc([h[0], h[1]], h[2]);
    HexSumSnoc([h[0], h[1], h[2]], h[3]);
    assert h == [h[0], h[1], h[2]] + [h[3]];
    assert [h[0], h[1], h[2]] == [h[0], h[1]] + [h[2]];
    assert [h[0], h[1]] == [h[0]] + [h[1]];
    assert [h[0]] == [] + [h[0]];
  }

  lemma NoHex(s: seq<Octet>, i: nat, k: nat)
    requires k < 4 && HexDigit(At(s, i + k)) < 0
    ensures HexAt(s, i).None?
  {
    if i + 4 <= |s| {
      assert s[i..i + 4][k] == At(s, i + k);
    }
  }

  /** The octets from position `i` on lie in the given ranges, one by one. */
  predicate InRanges(s: seq<Octet>, i: nat, ranges: seq<(Octet, Octet)>)
    decreases |ranges|
  {
    ranges == [] || (ranges[0].0 <= At(s, i) <= ranges[0].1 && InRanges(s, i + 1, ranges[1..]))
  }

  lemma {:induction false} InRangesSnoc(s: seq<Octet>, i: nat, ranges: seq<(Octet, Octet)>, k: nat)
    requires k < |ranges| && InRanges(s, i, ranges[..k])
    ensures InRanges(s, i, ranges[..k + 1]) <==> ranges[k].0 <= At(s, i + k) <= ranges[k].1
    ensures InRanges(s, i, ranges) ==> ranges[k].0 <= At(s, i + k) <= ranges[k].1
    decreases k
  {
    if k != 0 {
      assert ranges[1..][..k - 1] == ranges[..k][1..];
      assert ranges[1..][..k] == ranges[..k + 1][1..];
      InRangesSnoc(s, i + 1, ranges[1..], k - 1);
    } else {
      assert ranges[..1][1..] == [];
    }
  }

  lemma NoRanges(s: seq<Octet>, i: nat)
    ensures InRanges(s, i + 1, [])
  {
  }

  lemma Unrolled(s: seq<Octet>, i: nat, a: (Octet, Octet), b: (Octet, Octet), c: (Octet, Octet))
    ensures InRanges(s, i, [])
    ensures InRanges(s, i, [a]) <==> a.0 <= At(s, i) <= a.1
    ensures InRanges(s, i, [a, b]) <==> a.0 <= At(s, i) <= a.1 && b.0 <= At(s, i + 1) <= b.1
    ensures InRanges(s, i, [a, b, c]) <==>
      a.0 <= At(s, i) <= a.1 && b.0 <= At(s, i + 1) <= b.1 && c.0 <= At(s, i + 2) <= c.1
  {
    assert [a, b, c][1..] == [b, c] && [a, b][1..] == [b] && [b, c][1..] == [c];
    assert [a][1..] == [b][1..] == [c][1..] == [];
    assert InRanges(s, i + 1, [b]) <==> b.0 <= At(s, i + 1) <= b.1;
    assert InRanges(s, i + 2, [c]) <==> c.0 <= At(s, i + 2) <= c.1;
    assert i + 1 + 1 == i + 2;
    assert InRanges(s, i + 1, [b, c]) <==> b.0 <= At(s, i + 1) <= b.1 && InRanges(s, i + 2, [c]);
  }

  /** The ranges accept exactly the well-formed characters. */
  lemma RangesExact(s: seq<Octet>, i: nat)
    requires i < |s| && 0x20 <= s[i]
    ensures Decode(s, i) != 0x11_0000 <==> Ranges(s[i]).Some? && InRanges(s, i + 1, Ranges(s[i]).value)
  {
    hide InRanges, Join;
    var lead := if s[i] == 0xE0 then (0xA0, 0xBF) else if s[i] == 0xED then (0x80, 0x9F)
                else if s[i] == 0xF0 then (0x90, 0xBF) else if s[i] == 0xF4 then (0x80, 0x8F) else (0x80, 0xBF);
    Unrolled(s, i + 1, lead, (0x80, 0xBF), (0x80, 0xBF));
    assert i + 1 + 1 == i + 2 && i + 1 + 2 == i + 3;
    DecodeBounds(s, i);
  }

  lemma DecodeBounds(s: seq<Octet>, i: nat)
    ensures
      var c0, c1, c2, c3 := At(s, i), At(s, i + 1), At(s, i + 2), At(s, i + 3);
      Decode(s, i) != 0x11_0000 <==>
        c0 <= 0x7F || (0xC2 <= c0 <= 0xDF && Tail(c1)) || (SecondOfThree(c0, c1) && Tail(c2))
          || (SecondOfFour(c0, c1) && Tail(c2) && Tail(c3))
  {
  }

  /** How the octets of a character at a position depend on the first. */
  lemma PlainOctets(s: seq<Octet>, i: nat)
    requires i < |s| && s[i] != 0x22 && s[i] != 0x5C
    ensures ItemAt(s, i).Some? <==> Ranges(s[i]).Some? && InRanges(s, i + 1, Ranges(s[i]).value)
    ensures ItemAt(s, i).Some? ==>
      var cp := Decode(s, i);
      && ItemAt(s, i) == Some(Plain(cp)) && Scalar(cp)
      && i + 1 + |Ranges(s[i]).value| <= |s| && s[i..i + 1 + |Ranges(s[i]).value|] == Encode(cp)
      && (Ranges(s[i]).value == [] ==> s[i..i + 1] == [s[i]])
  {
    hide InRanges, Encode;
    if 0x20 <= s[i] {
      RangesExact(s, i);
      if Decode(s, i) != 0x11_0000 {
        DecodeSound(s, i);
        CharacterEncodes(At(s, i), At(s, i + 1), At(s, i + 2), At(s, i + 3));
        assert |Encode(Decode(s, i))| == 1 + |Ranges(s[i]).value|;
      }
    }
  }

  lemma Ascii(cp: nat)
    requires cp < 0x80
    ensures Encode(cp) == [cp]
  {
  }

  function Glue(items: seq<Item>, r: Option<(seq<Item>, nat)>): Option<(seq<Item>, nat)> {
    match r
    case None => None
    case Some((rest, e)) => Some((items + rest, e))
  }

  lemma NoItem(s: seq<Octet>, i: nat)
    requires At(s, i) == 0
    ensures Scan(s, i).None?
  {
  }

  lemma ClosingQuote(s: seq<Octet>, i: nat)
    requires At(s, i) == 0x22
    ensures Scan(s, i) == Some(([], i))
  {
  }

  lemma GlueStep(s: seq<Octet>, items: seq<Item>, i: nat)
    requires i < |s| && s[i] != 0x22 && s[i] != 0
    ensures ItemAt(s, i).None? ==> Scan(s, i).None?
    ensures ItemAt(s, i).Some? ==>
      var it := ItemAt(s, i).value;
      Legal(it) && Has(s, i, Spelling(it)) && Glue(items, Scan(s, i)) == Glue(items + [it], Scan(s, i + |Spelling(it)|))
  {
    hide ItemAt, Spelling, Legal;
    if ItemAt(s, i).Some? {
      ItemSound(s, i);
      var it := ItemAt(s, i).value;
      match Scan(s, i + |Spelling(it)|)
      case None =>
      case Some((rest, e)) =>
        assert items + ([it] + rest) == items + [it] + rest;
    }
  }

  lemma MeaningsSnoc(items: seq<Item>, it: Item)
    requires AllLegal(items) && Legal(it)
    ensures AllLegal(items + [it]) && Meanings(items + [it]) == Meanings(items) + [Meaning(it)]
    ensures EncodeAll(Meanings(items + [it])) == EncodeAll(Meanings(items)) + Encode(Meaning(it))
  {
    hide Legal, Meaning, Encode;
    assert (items + [it])[..|items|] == items;
    EncodeSnoc(Meanings(items), Meaning(it));
  }

  lemma NoMeanings()
    ensures Meanings([]) == [] && EncodeAll([]) == []
  {
  }

  lemma GlueNothing(r: Option<(seq<Item>, nat)>)
    ensures Glue([], r) == r
  {
    match r
    case None =>
    case Some((rest, e)) => assert [] + rest == rest;
  }

  /** A literal is read one way only, and scanning finds it. */
  lemma ScanExact(s: seq<Octet>, i: nat, items: seq<Item>, e: nat)
    ensures Scan(s, i) == Some((items, e)) <==> Literal(s, i, items, e)
  {
    if Literal(s, i, items, e) {
      ScanComplete(s, i, items, e);
    }
    if Scan(s, i) == Some((items, e)) {
      ScanSound(s, i);
    }
  }

  // ----- The quote search of parse_string -----

  /** Where the search for the closing quote stops: it skips the byte after every
      backslash and knows nothing else about escapes or characters. */
  function QuoteSearch(s: seq<Octet>, i: nat): nat
    decreases |s| - i
  {
    if At(s, i) == 0 || At(s, i) == 0x22 then i
    else if At(s, i) == 0x5C && At(s, i + 1) != 0 then QuoteSearch(s, i + 2)
    else QuoteSearch(s, i + 1)
  }

  /** Bytes that the search passes one by one. */
  lemma {:induction false} PassPlain(s: seq<Octet>, i: nat, n: nat)
    requires forall k :: i <= k < i + n ==> At(s, k) != 0 && At(s, k) != 0x22 && At(s, k) != 0x5C
    ensures QuoteSearch(s, i) == QuoteSearch(s, i + n)
    decreases n
  {
    if n != 0 {
      PassPlain(s, i + 1, n - 1);
    }
  }

  predicate NoStop(t: seq<Octet>) {
    forall k :: 0 <= k < |t| ==> t[k] != 0 && t[k] != 0x22 && t[k] != 0x5C
  }

  lemma PassText(s: seq<Octet>, i: nat, t: seq<Octet>)
    requires Has(s, i, t) && NoStop(t)
    ensures QuoteSearch(s, i) == QuoteSearch(s, i + |t|)
  {
    HasAt(s, i, t);
    forall k | i <= k < i + |t| ensures At(s, k) != 0 && At(s, k) != 0x22 && At(s, k) != 0x5C {
      assert At(s, i + (k - i)) == t[k - i];
    }
    PassPlain(s, i, |t|);
  }

  lemma EncodeNoStop(cp: nat)
    requires Scalar(cp) && 0x20 <= cp && cp != 0x22 && cp != 0x5C
    ensures NoStop(Encode(cp))
  {
  }

  lemma HexNoStop(h: seq<Octet>)
    requires Hex4(h)
    ensures NoStop(h)
  {
  }

  /** The search passes exactly the bytes of an item. */
  lemma PassItem(s: seq<Octet>, i: nat, it: Item)
    requires Legal(it) && Has(s, i, Spelling(it))
    ensures QuoteSearch(s, i) == QuoteSearch(s, i + |Spelling(it)|)
  {
    hide QuoteSearch, HexValue, Encode, Has;
    match it
    case Plain(cp) =>
      EncodeNoStop(cp);
      PassText(s, i, Encode(cp));
    case Short(c) =>
      HasPair(s, i, 0x5C, c);
      PassBackslash(s, i);
    case Unit(h) =>
      PassUnit(s, i, h);
    case Pair(h, l) =>
      HasParts(s, i, [0x5C, 0x75] + h + [0x5C, 0x75], l);
      HasParts(s, i, [0x5C, 0x75] + h, [0x5C, 0x75]);
      HasJoin(s, i + 6, [0x5C, 0x75], l);
      PassUnit(s, i, h);
      PassUnit(s, i + 6, l);
  }

  lemma PassUnit(s: seq<Octet>, i: nat, h: seq<Octet>)
    requires Hex4(h) && Has(s, i, [0x5C, 0x75] + h)
    ensures QuoteSearch(s, i) == QuoteSearch(s, i + 6)
  {
    hide QuoteSearch, Has;
    HasParts(s, i, [0x5C, 0x75], h);
    HasPair(s, i, 0x5C, 0x75);
    PassBackslash(s, i);
    PassHex(s, i + 2, h);
  }

  lemma PassBackslash(s: seq<Octet>, i: nat)
    requires At(s, i) == 0x5C && At(s, i + 1) != 0
    ensures QuoteSearch(s, i) == QuoteSearch(s, i + 2)
  {
  }

  lemma PassHex(s: seq<Octet>, i: nat, h: seq<Octet>)
    requires Hex4(h) && Has(s, i, h)
    ensures QuoteSearch(s, i) == QuoteSearch(s, i + 4)
  {
    HexNoStop(h);
    PassText(s, i, h);
  }

  /** Search and scanner agree: the search stops at the scanner's closing quote,
      for every mix of escapes, surrogate pairs and multi-byte characters. */
  lemma {:induction false} SearchAgrees(s: seq<Octet>, i: nat, items: seq<Item>, e: nat)
    requires Literal(s, i, items, e)
    ensures QuoteSearch(s, i) == e
    decreases |items|
  {
    hide Spelling, Legal;
    if items != [] {
      LiteralTail(s, i, items, e);
      PassItem(s, i, items[0]);
      SearchAgrees(s, i + |Spelling(items[0])|, items[1..], e);
    }
  }

  /** In the slice cut by the search, an accepting scan ends on the last byte. */
  lemma SliceAgrees(s: seq<Octet>, i: nat, j: nat)
    requires i < j < |s| && s[i] == 0x22 && s[j] == 0x22 && QuoteSearch(s, i + 1) == j
    ensures Scan(s[i..j + 1], 1).Some? <==> Scan(s, i + 1).Some?
    ensures Scan(s, i + 1).Some? ==>
      Scan(s, i + 1).value.1 == j && Scan(s[i..j + 1], 1) == Some((Scan(s, i + 1).value.0, j - i))
  {
    hide Scan, Literal, QuoteSearch;
    var t := s[i..j + 1];
    if Scan(s, i + 1).Some? {
      ScanSound(s, i + 1);
      var (items, e) := Scan(s, i + 1).value;
      SearchAgrees(s, i + 1, items, e);
      LiteralInSlice(s, i, j, items, e - i);
      ScanComplete(t, 1, items, e - i);
    }
    if Scan(t, 1).Some? {
      ScanSound(t, 1);
      var (items, e) := Scan(t, 1).value;
      LiteralInside(t, items, e);
      LiteralInSlice(s, i, j, items, e);
      ScanComplete(s, i + 1, items, i + e);
    }
  }

  lemma LiteralInside(s: seq<Octet>, items: seq<Item>, e: nat)
    requires Literal(s, 1, items, e)
    ensures 1 <= e < |s|
  {
  }

  lemma LiteralInSlice(s: seq<Octet>, i: nat, j: nat, items: seq<Item>, e: int)
    requires i <= j < |s| && 0 <= e && i + e <= j
    ensures Literal(s[i..j + 1], 1, items, e) <==> Literal(s, i + 1, items, i + e)
  {
    hide Spell;
    var t := s[i..j + 1];
    if 1 <= e {
      assert forall k :: 0 <= k < |t| ==> t[k] == s[i + k];
      assert |t[1..e]| == |s[i + 1..i + e]|;
      assert t[1..e] == s[i + 1..i + e];
      assert t[e] == s[i + e];
    }
  }
}
