/** What the JSON parser accepts, said without a parser: texts are renderings of
    trees, blanks included. */
module JsonGrammar {
  import opened Json
  import opened JsonString
  import opened Options
  import opened Utf8

  // ----- Numbers -----

  /** A number literal. The grammar is wider than that of RFC 8259: hexadecimal, any
      number of leading zeros, and after a minus sign nothing at all. It has no
      signed exponents and no capital E. */
  datatype Number =
    | Hexadecimal(neg: bool, digits: seq<Octet>)
    | Decimal(neg: bool, whole: seq<Octet>, frac: seq<Octet>, exp: seq<Octet>)

  predicate AllNums(ds: seq<Octet>) {
    forall k :: 0 <= k < |ds| ==> IsNum(ds[k])
  }

  predicate AllHexes(ds: seq<Octet>) {
    forall k :: 0 <= k < |ds| ==> IsHex(ds[k])
  }

  predicate NumberLegal(n: Number) {
    match n
    case Hexadecimal(_, ds) => ds != [] && AllHexes(ds)
    case Decimal(neg, w, f, e) => AllNums(w) && AllNums(f) && AllNums(e) && (neg || w != [])
  }

  function Sign(neg: bool): seq<Octet> {
    if neg then [0x2D] else []
  }

  /** A part that begins with a mark, if it is there. */
  function Marked(mark: Octet, ds: seq<Octet>): seq<Octet> {
    if ds == [] then [] else [mark] + ds
  }

  function NumberText(n: Number): seq<Octet> {
    match n
    case Hexadecimal(neg, ds) => Sign(neg) + ([0x30, 0x78] + ds)
    case Decimal(neg, w, f, e) => Sign(neg) + (w + (Marked(0x2E, f) + Marked(0x65, e)))
  }

  lemma {:induction false} NumsRead(s: seq<Octet>, i: nat, l: seq<Octet>)
    requires Has(s, i, l) && (forall k :: 0 <= k < |l| ==> IsNum(l[k])) && !IsNum(At(s, i + |l|))
    ensures Nums(s, i) == i + |l|
    decreases |l|
  {
    if l != [] {
      AtFirst(s, i, l);
      assert l == [l[0]] + l[1..];
      HasSplit(s, i, [l[0]], l[1..]);
      NumsRead(s, i + 1, l[1..]);
    }
  }

  lemma {:induction false} HexesRead(s: seq<Octet>, i: nat, l: seq<Octet>)
    requires Has(s, i, l) && AllHexes(l) && !IsHex(At(s, i + |l|))
    ensures Hexes(s, i) == i + |l|
    decreases |l|
  {
    if l != [] {
      AtFirst(s, i, l);
      assert l == [l[0]] + l[1..];
      HasSplit(s, i, [l[0]], l[1..]);
      HexesRead(s, i + 1, l[1..]);
    }
  }

  lemma {:induction false} NumsAre(s: seq<Octet>, i: nat)
    requires i <= |s|
    ensures i <= Nums(s, i) <= |s| && AllNums(s[i..Nums(s, i)])
    decreases |s| - i
  {
    if IsNum(At(s, i)) {
      NumsAre(s, i + 1);
      assert s[i..Nums(s, i)] == [s[i]] + s[i + 1..Nums(s, i)];
    }
  }

  lemma {:induction false} HexesAre(s: seq<Octet>, i: nat)
    requires i <= |s|
    ensures i <= Hexes(s, i) <= |s| && AllHexes(s[i..Hexes(s, i)])
    decreases |s| - i
  {
    if IsHex(At(s, i)) {
      HexesAre(s, i + 1);
      assert s[i..Hexes(s, i)] == [s[i]] + s[i + 1..Hexes(s, i)];
    }
  }

  /** What may follow a number is not part of one. */
  lemma EndsNumber(c: nat)
    requires Delimiter(c)
    ensures !IsNum(c) && !IsHex(c) && c != 0x2E && c != 0x65 && c != 0x78
  {
  }

  /** A marked part, read and skipped. */
  lemma PartReads(s: seq<Octet>, i: nat, mark: Octet, ds: seq<Octet>)
    requires mark != 0 && AllNums(ds) && Has(s, i, Marked(mark, ds)) && !IsNum(At(s, i + |Marked(mark, ds)|))
    requires ds == [] ==> At(s, i) != mark
    ensures Part(s, i, mark) == Some(i + |Marked(mark, ds)|)
  {
    if ds != [] {
      HasSplit(s, i, [mark], ds);
      HasOne(s, i, mark);
      AtFirst(s, i + 1, ds);
      NumsRead(s, i + 1, ds);
    }
  }

  lemma PartIs(s: seq<Octet>, i: nat, mark: Octet) returns (ds: seq<Octet>)
    requires mark != 0 && i <= |s| && Part(s, i, mark).Some?
    ensures AllNums(ds) && i <= Part(s, i, mark).value <= |s| && s[i..Part(s, i, mark).value] == Marked(mark, ds)
  {
    if At(s, i) != mark {
      ds := [];
    } else {
      NumsAre(s, i + 1);
      ds := s[i + 1..Nums(s, i + 1)];
      assert s[i..Nums(s, i + 1)] == [mark] + ds;
    }
  }

  /** Skipping the sign. */
  function AfterSign(s: seq<Octet>, i: nat): nat {
    if At(s, i) == 0x2D then i + 1 else i
  }

  lemma SignReads(s: seq<Octet>, i: nat, neg: bool, t: seq<Octet>)
    requires Has(s, i, Sign(neg) + t) && (!neg ==> t != [] && t[0] != 0x2D)
    ensures AfterSign(s, i) == i + |Sign(neg)| && Has(s, i + |Sign(neg)|, t)
  {
    HasSplit(s, i, Sign(neg), t);
    if neg {
      HasOne(s, i, 0x2D);
    } else {
      AtFirst(s, i, t);
    }
  }

  lemma HexReads(s: seq<Octet>, i: nat, n: Number)
    requires n.Hexadecimal? && NumberLegal(n) && Has(s, i, NumberText(n)) && Delimiter(At(s, i + |NumberText(n)|))
    ensures NumberEnd(s, i) == Some(i + |NumberText(n)|)
  {
    hide Has, At, Delimiter, IsHex, IsNum, Hexes, Nums, Part, NumberLegal, NumberText;
    HexParts(s, i, n);
    var p := AfterSign(s, i);
    AtFirst(s, p + 2, n.digits);
    EndsNumber(At(s, p + 2 + |n.digits|));
    HexesRead(s, p + 2, n.digits);
    HexesNext(s, p + 2);
  }

  /** Where the parts of a hexadecimal number stand. */
  lemma HexParts(s: seq<Octet>, i: nat, n: Number)
    requires n.Hexadecimal? && NumberLegal(n) && Has(s, i, NumberText(n))
    ensures n.digits != [] && AllHexes(n.digits)
    ensures
      var p := AfterSign(s, i);
      && At(s, p) == 0x30 && At(s, p + 1) == 0x78 && Has(s, p + 2, n.digits)
      && i + |NumberText(n)| == p + 2 + |n.digits|
  {
    hide Has, At, IsHex, IsNum;
    var t := [0x30, 0x78] + n.digits;
    SignReads(s, i, n.neg, t);
    var p := AfterSign(s, i);
    HasSplit(s, p, [0x30, 0x78], n.digits);
    HasPair(s, p, 0x30, 0x78);
  }

  lemma HexesNext(s: seq<Octet>, i: nat)
    requires IsHex(At(s, i))
    ensures Hexes(s, i) == Hexes(s, i + 1)
  {
  }

  lemma DecimalReads(s: seq<Octet>, i: nat, n: Number)
    requires n.Decimal? && NumberLegal(n) && Has(s, i, NumberText(n)) && Delimiter(At(s, i + |NumberText(n)|))
    ensures NumberEnd(s, i) == Some(i + |NumberText(n)|)
  {
    hide Has, At, Delimiter, Nums, Part, NumberLegal, NumberText;
    DecimalParts(s, i, n);
    var f, e := Marked(0x2E, n.frac), Marked(0x65, n.exp);
    var p := AfterSign(s, i);
    var q := p + |n.whole|;
    EndsNumber(At(s, q + |f| + |e|));
    MarkShows(s, q + |f|, 0x65, n.exp);
    MarkShows(s, q, 0x2E, n.frac);
    hide Marked;
    NumsRead(s, p, n.whole);
    PartReads(s, q, 0x2E, n.frac);
    PartReads(s, q + |f|, 0x65, n.exp);
    NotHex(s, p, n.whole);
  }

  /** Where the parts of a decimal number stand. */
  lemma DecimalParts(s: seq<Octet>, i: nat, n: Number)
    requires n.Decimal? && NumberLegal(n) && Has(s, i, NumberText(n))
    ensures AllNums(n.whole) && AllNums(n.frac) && AllNums(n.exp)
    ensures
      var f, e, p := Marked(0x2E, n.frac), Marked(0x65, n.exp), AfterSign(s, i);
      var q := p + |n.whole|;
      && Has(s, p, n.whole) && Has(s, q, f) && Has(s, q + |f|, e) && i + |NumberText(n)| == q + |f| + |e|
  {
    hide Has, At, Marked;
    var f, e := Marked(0x2E, n.frac), Marked(0x65, n.exp);
    SignReads(s, i, n.neg, n.whole + (f + e));
    var p := AfterSign(s, i);
    HasSplit(s, p, n.whole, f + e);
    HasSplit(s, p + |n.whole|, f, e);
  }

  /** A marked part shows its mark, and an empty one what follows. */
  lemma MarkShows(s: seq<Octet>, i: nat, mark: Octet, ds: seq<Octet>)
    requires Has(s, i, Marked(mark, ds))
    ensures ds != [] ==> At(s, i) == mark
    ensures ds == [] ==> Marked(mark, ds) == []
  {
    hide Has, At;
    if ds != [] {
      AtFirst(s, i, Marked(mark, ds));
    }
  }

  /** Digits that are not followed by an x are not hexadecimal. */
  lemma NotHex(s: seq<Octet>, p: nat, w: seq<Octet>)
    requires AllNums(w) && Has(s, p, w) && At(s, p + |w|) != 0x78 && !IsNum(At(s, p + |w|))
    ensures !(At(s, p) == 0x30 && At(s, p + 1) == 0x78)
  {
    if |w| > 1 {
      HasAt(s, p, w);
      assert At(s, p + 1) == w[1];
    }
  }

  /** The text at `i` up to `e` is a number. */
  ghost predicate NumberStands(s: seq<Octet>, i: nat, n: Number, e: nat) {
    NumberLegal(n) && Has(s, i, NumberText(n)) && e == i + |NumberText(n)| && Delimiter(At(s, e))
  }

  lemma NumberBegins(s: seq<Octet>, i: nat, n: Number)
    requires NumberLegal(n) && Has(s, i, NumberText(n))
    ensures NumberText(n) != [] && (At(s, i) == 0x2D || IsNum(At(s, i))) && At(s, i) == NumberText(n)[0]
  {
    AtFirst(s, i, NumberText(n));
  }

  lemma HasSlice(s: seq<Octet>, i: nat, t: seq<Octet>)
    requires Has(s, i, t)
    ensures i + |t| <= |s| && s[i..i + |t|] == t
  {
  }

  lemma Slices(s: seq<Octet>, a: nat, b: nat, c: nat)
    requires a <= b <= c <= |s|
    ensures s[a..c] == s[a..b] + s[b..c]
  {
  }

  lemma NumberComplete(s: seq<Octet>, i: nat, n: Number, e: nat)
    requires NumberStands(s, i, n, e)
    ensures (At(s, i) == 0x2D || IsNum(At(s, i))) && ParseNum(s, i) == Ok(Num(NumberText(n)), e)
  {
    hide Has, At, Delimiter, IsNum, NumberEnd, NumberText, NumberLegal;
    NumberBegins(s, i, n);
    HasSlice(s, i, NumberText(n));
    if n.Hexadecimal? {
      HexReads(s, i, n);
    } else {
      DecimalReads(s, i, n);
    }
    NumberMoves(s, i);
  }

  lemma NumberSound(s: seq<Octet>, i: nat) returns (n: Number)
    requires (At(s, i) == 0x2D || IsNum(At(s, i))) && ParseNum(s, i).Ok?
    ensures NumberStands(s, i, n, ParseNum(s, i).next) && ParseNum(s, i).value == Num(NumberText(n))
  {
    hide NumberEnd, Delimiter, NumberText, NumberLegal, IsNum;
    NumberMoves(s, i);
    n := NumberIs(s, i);
  }

  /** What was skipped is a number. */
  lemma NumberIs(s: seq<Octet>, i: nat) returns (n: Number)
    requires (At(s, i) == 0x2D || IsNum(At(s, i))) && NumberEnd(s, i).Some?
    ensures i < NumberEnd(s, i).value <= |s|
    ensures NumberLegal(n) && NumberText(n) == s[i..NumberEnd(s, i).value]
  {
    NumberMoves(s, i);
    var e, p := NumberEnd(s, i).value, AfterSign(s, i);
    var neg := At(s, i) == 0x2D;
    assert s[i..p] == Sign(neg);
    hide Hexes, IsHex, Nums, Part, NumberText, NumberLegal;
    if At(s, p) == 0x30 && At(s, p + 1) == 0x78 && IsHex(At(s, p + 2)) {
      n := HexIs(s, p, neg);
    } else {
      n := DecimalIs(s, p, neg);
    }
    Slices(s, i, p, e);
  }

  lemma HexIs(s: seq<Octet>, p: nat, neg: bool) returns (n: Number)
    requires At(s, p) == 0x30 && At(s, p + 1) == 0x78 && IsHex(At(s, p + 2))
    ensures p + 3 <= Hexes(s, p + 3) <= |s| && NumberLegal(n) && NumberText(n) == Sign(neg) + s[p..Hexes(s, p + 3)]
  {
    var e := Hexes(s, p + 3);
    HexesNext(s, p + 2);
    HexesAre(s, p + 2);
    hide Hexes, IsHex;
    n := Hexadecimal(neg, s[p + 2..e]);
    Slices(s, p, p + 2, e);
    assert s[p..p + 2] == [0x30, 0x78];
  }

  lemma DecimalIs(s: seq<Octet>, p: nat, neg: bool) returns (n: Number)
    requires p <= |s| && (neg || IsNum(At(s, p)))
    requires Part(s, Nums(s, p), 0x2E).Some? && Part(s, Part(s, Nums(s, p), 0x2E).value, 0x65).Some?
    ensures n.Decimal? && n.neg == neg && NumberLegal(n)
    ensures var e := Part(s, Part(s, Nums(s, p), 0x2E).value, 0x65).value;
      p <= e <= |s| && NumberText(n) == Sign(neg) + s[p..e]
  {
    var q := Nums(s, p);
    NumsAre(s, p);
    assert IsNum(At(s, p)) ==> p < q;
    hide Nums, Part, IsNum, At;
    var f := PartIs(s, q, 0x2E);
    var r := Part(s, q, 0x2E).value;
    var x := PartIs(s, r, 0x65);
    var e := Part(s, r, 0x65).value;
    n := Decimal(neg, s[p..q], f, x);
    Slices(s, p, q, e);
    Slices(s, q, r, e);
  }

  /** The number parser accepts exactly the number literals before a delimiter, and
      there is one way to read them. */
  lemma NumberExact(s: seq<Octet>, i: nat, v: Json, e: nat)
    requires At(s, i) == 0x2D || IsNum(At(s, i))
    ensures ParseNum(s, i) == Ok(v, e) <==> exists n :: NumberStands(s, i, n, e) && v == Num(NumberText(n))
  {
    if ParseNum(s, i) == Ok(v, e) {
      var n := NumberSound(s, i);
    }
    if n :| NumberStands(s, i, n, e) && v == Num(NumberText(n)) {
      NumberComplete(s, i, n, e);
    }
  }

  // ----- Documents -----

  /** A value as it is written. Blanks stand before and after the elements of arrays
      and objects. */
  datatype Tree =
    | Word(b: Option<bool>)
    | Numeral(n: Number)
    | Text(items: seq<Item>)
    | EmptyArray(pad: seq<Octet>)
    | Array(elems: seq<Elem>)
    | EmptyObject(pad: seq<Octet>)
    | Object(fields: seq<Field>)

  datatype Elem = Elem(lead: seq<Octet>, tree: Tree, trail: seq<Octet>)

  datatype Field = Field(lead: seq<Octet>, key: seq<Item>, pad: seq<Octet>, elem: Elem)

  predicate AllBlank(b: seq<Octet>) {
    forall k :: 0 <= k < |b| ==> Blank(b[k])
  }

  /** What directly follows a word, a number or a string may not be a tab. */
  predicate NoTab(b: seq<Octet>) {
    b == [] || b[0] != 0x09
  }

  predicate Scalar(t: Tree) {
    t.Word? || t.Numeral? || t.Text?
  }

  predicate LegalTree(t: Tree)
    decreases t
  {
    match t
    case Word(_) => true
    case Numeral(n) => NumberLegal(n)
    case Text(items) => AllLegal(items)
    case EmptyArray(pad) => AllBlank(pad)
    case Array(es) => es != [] && forall k :: 0 <= k < |es| ==> LegalElem(es[k])
    case EmptyObject(pad) => AllBlank(pad)
    case Object(fs) => fs != [] && (forall k :: 0 <= k < |fs| ==> LegalField(fs[k])) && DifferentKeys(fs)
  }

  predicate LegalElem(e: Elem)
    decreases e
  {
    AllBlank(e.lead) && AllBlank(e.trail) && LegalTree(e.tree) && (Scalar(e.tree) ==> NoTab(e.trail))
  }

  predicate LegalField(f: Field)
    decreases f
  {
    AllBlank(f.lead) && AllLegal(f.key) && AllBlank(f.pad) && NoTab(f.pad) && LegalElem(f.elem)
  }

  function KeyOf(f: Field): seq<Octet> {
    if AllLegal(f.key) then EncodeAll(Meanings(f.key)) else []
  }

  predicate DifferentKeys(fs: seq<Field>) {
    forall j, k :: 0 <= j < k < |fs| ==> KeyOf(fs[j]) != KeyOf(fs[k])
  }

  function Quote(items: seq<Item>): seq<Octet>
    requires AllLegal(items)
  {
    [0x22] + (Spell(items) + [0x22])
  }

  function Render(t: Tree): seq<Octet>
    requires LegalTree(t)
    decreases t
  {
    match t
    case Word(None) => NULL
    case Word(Some(b)) => if b then TRUE else FALSE
    case Numeral(n) => NumberText(n)
    case Text(items) => Quote(items)
    case EmptyArray(pad) => [0x5B] + (pad + [0x5D])
    case Array(es) => [0x5B] + (RenderElems(es) + [0x5D])
    case EmptyObject(pad) => [0x7B] + (pad + [0x7D])
    case Object(fs) => [0x7B] + (RenderFields(fs) + [0x7D])
  }

  function RenderElem(e: Elem): seq<Octet>
    requires LegalElem(e)
    decreases e
  {
    e.lead + (Render(e.tree) + e.trail)
  }

  function RenderElems(es: seq<Elem>): seq<Octet>
    requires es != [] && forall k :: 0 <= k < |es| ==> LegalElem(es[k])
    decreases es
  {
    if |es| == 1 then RenderElem(es[0]) else RenderElem(es[0]) + ([0x2C] + RenderElems(es[1..]))
  }

  function RenderField(f: Field): seq<Octet>
    requires LegalField(f)
    decreases f
  {
    f.lead + (Quote(f.key) + (f.pad + ([0x3A] + RenderElem(f.elem))))
  }

  function RenderFields(fs: seq<Field>): seq<Octet>
    requires fs != [] && forall k :: 0 <= k < |fs| ==> LegalField(fs[k])
    decreases fs
  {
    if |fs| == 1 then RenderField(fs[0]) else RenderField(fs[0]) + ([0x2C] + RenderFields(fs[1..]))
  }

  /** The value it stands for. */
  function ValueOf(t: Tree): Json
    requires LegalTree(t)
    decreases t
  {
    match t
    case Word(None) => Null
    case Word(Some(b)) => Bool(b)
    case Numeral(n) => Num(NumberText(n))
    case Text(items) => Str(EncodeAll(Meanings(items)))
    case EmptyArray(_) => Arr([])
    case Array(es) => Arr(ValuesOf(es))
    case EmptyObject(_) => Obj([])
    case Object(fs) => Obj(MembersOf(fs))
  }

  function ValuesOf(es: seq<Elem>): seq<Json>
    requires forall k :: 0 <= k < |es| ==> LegalElem(es[k])
    decreases es
  {
    if es == [] then [] else
      assert LegalElem(es[0]);
      [ValueOf(es[0].tree)] + ValuesOf(es[1..])
  }

  function MembersOf(fs: seq<Field>): seq<Member>
    requires forall k :: 0 <= k < |fs| ==> LegalField(fs[k])
    decreases fs
  {
    if fs == [] then [] else
      assert LegalField(fs[0]) && LegalElem(fs[0].elem);
      [Member(KeyOf(fs[0]), ValueOf(fs[0].elem.tree))] + MembersOf(fs[1..])
  }

  /** The text of `s` from `i` to `e` is a legal value, and what follows lets it end
      there. */
  ghost predicate Stands(s: seq<Octet>, i: nat, t: Tree, e: nat) {
    && LegalTree(t) && Has(s, i, Render(t)) && e == i + |Render(t)|
    && (Scalar(t) ==> Delimiter(At(s, e)))
  }

  // ----- Whatever is written like this parses -----

  lemma {:induction false} BlanksSkip(s: seq<Octet>, i: nat, b: seq<Octet>)
    requires Has(s, i, b) && AllBlank(b) && !Blank(At(s, i + |b|))
    ensures Skip(s, i) == i + |b|
    decreases |b|
  {
    if b != [] {
      AtFirst(s, i, b);
      assert b == [b[0]] + b[1..];
      HasSplit(s, i, [b[0]], b[1..]);
      BlanksSkip(s, i + 1, b[1..]);
    }
  }

  /** The first octet of a value, which is no blank and closes nothing. */
  predicate Opens(c: nat) {
    c != 0 && !Blank(c) && c != 0x5D && c != 0x7D && c != 0x2C && c != 0x3A
  }

  lemma RenderOpens(t: Tree)
    requires LegalTree(t)
    ensures Render(t) != [] && Opens(Render(t)[0])
  {
    if t.Numeral? {
      assert t.n.Hexadecimal? || t.n.neg || (t.n.whole != [] && IsNum(t.n.whole[0]));
    }
  }

  lemma TextParses(s: seq<Octet>, i: nat, items: seq<Item>)
    requires AllLegal(items) && Has(s, i, Quote(items)) && Delimiter(At(s, i + |Quote(items)|))
    ensures ParseStr(s, i) == Ok(EncodeAll(Meanings(items)), i + |Quote(items)|)
  {
    hide Scan, Spell, Meanings, EncodeAll, Delimiter;
    var x := Spell(items);
    HasSplit(s, i, [0x22], x + [0x22]);
    HasSplit(s, i + 1, x, [0x22]);
    HasOne(s, i, 0x22);
    HasOne(s, i + 1 + |x|, 0x22);
    ScanComplete(s, i + 1, items, i + 1 + |x|);
  }

  /** Between brackets. */
  lemma Within(s: seq<Octet>, i: nat, open: Octet, x: seq<Octet>, close: Octet)
    requires open != 0 && close != 0 && Has(s, i, [open] + (x + [close]))
    ensures At(s, i) == open && Has(s, i + 1, x) && At(s, i + 1 + |x|) == close
  {
    HasSplit(s, i, [open], x + [close]);
    HasSplit(s, i + 1, x, [close]);
    HasOne(s, i, open);
    HasOne(s, i + 1 + |x|, close);
  }

  lemma OpensNow(s: seq<Octet>, i: nat, t: Tree)
    requires LegalTree(t) && Has(s, i, Render(t))
    ensures Opens(At(s, i)) && Skip(s, i) == i && At(s, i) == Render(t)[0]
  {
    hide Has;
    RenderOpens(t);
    AtFirst(s, i, Render(t));
  }

  lemma WordParses(s: seq<Octet>, i: nat, b: Option<bool>)
    requires Has(s, i, Render(Word(b))) && Delimiter(At(s, i + |Render(Word(b))|))
    ensures ParseAny(s, i) == Ok(ValueOf(Word(b)), i + |Render(Word(b))|)
  {
    OpensNow(s, i, Word(b));
  }

  lemma {:induction false} TreeParses(s: seq<Octet>, i: nat, t: Tree, e: nat)
    requires Stands(s, i, t, e)
    ensures ParseAny(s, i) == Ok(ValueOf(t), e)
    decreases t, 5
  {
    hide Has, At, Delimiter, ParseStr, ParseNum, ParseObj, ParseArr, NumberText, NumberLegal, RenderElems, RenderFields,
      Spell, AllLegal, AllBlank, LegalElem, LegalField, DifferentKeys, Skip;
    OpensNow(s, i, t);
    match t
    case Word(b) =>
      WordParses(s, i, b);
    case Numeral(n) =>
      NumberComplete(s, i, n, e);
    case Text(items) =>
      TextParses(s, i, items);
    case EmptyArray(pad) =>
      EmptyParses(s, i, pad);
    case Array(es) =>
      ArrayParses(s, i, es);
    case EmptyObject(pad) =>
      EmptyParses(s, i, pad);
    case Object(fs) =>
      ObjectParses(s, i, fs);
  }

  lemma EmptyParses(s: seq<Octet>, i: nat, pad: seq<Octet>)
    requires AllBlank(pad)
    ensures Has(s, i, [0x5B] + (pad + [0x5D])) ==> At(s, i) == 0x5B && ParseArr(s, i) == Ok(Arr([]), i + |pad| + 2)
    ensures Has(s, i, [0x7B] + (pad + [0x7D])) ==> At(s, i) == 0x7B && ParseObj(s, i) == Ok(Obj([]), i + |pad| + 2)
  {
    hide Has, Skip, AllBlank, ParseItems, ParseMembers;
    if Has(s, i, [0x5B] + (pad + [0x5D])) {
      Within(s, i, 0x5B, pad, 0x5D);
      BlanksSkip(s, i + 1, pad);
    }
    if Has(s, i, [0x7B] + (pad + [0x7D])) {
      Within(s, i, 0x7B, pad, 0x7D);
      BlanksSkip(s, i + 1, pad);
    }
  }

  lemma {:induction false} ArrayParses(s: seq<Octet>, i: nat, es: seq<Elem>)
    requires es != [] && (forall k :: 0 <= k < |es| ==> LegalElem(es[k]))
      && Has(s, i, [0x5B] + (RenderElems(es) + [0x5D]))
    ensures At(s, i) == 0x5B && ParseArr(s, i) == Ok(Arr(ValuesOf(es)), i + |RenderElems(es)| + 2)
    decreases es, 8
  {
    hide Has, Skip, LegalElem, ParseItems, RenderElems, ValuesOf;
    Within(s, i, 0x5B, RenderElems(es), 0x5D);
    ElemsParse(s, i + 1, [], es);
    assert [] + ValuesOf(es) == ValuesOf(es);
  }

  lemma {:induction false} ObjectParses(s: seq<Octet>, i: nat, fs: seq<Field>)
    requires fs != [] && (forall k :: 0 <= k < |fs| ==> LegalField(fs[k])) && DifferentKeys(fs)
    requires Has(s, i, [0x7B] + (RenderFields(fs) + [0x7D]))
    ensures At(s, i) == 0x7B && ParseObj(s, i) == Ok(Obj(MembersOf(fs)), i + |RenderFields(fs)| + 2)
    decreases fs, 9
  {
    hide Has, Skip, LegalField, ParseMembers, RenderFields, MembersOf, DifferentKeys, KeyOf;
    Within(s, i, 0x7B, RenderFields(fs), 0x7D);
    FieldsParse(s, i + 1, [], fs);
    assert [] + MembersOf(fs) == MembersOf(fs);
  }

  /** A blank that is not a tab, or what closes or separates, ends a scalar. */
  lemma TrailEnds(s: seq<Octet>, n: nat, trail: seq<Octet>)
    requires Has(s, n, trail) && AllBlank(trail) && NoTab(trail) && At(s, n + |trail|) in {0x2C, 0x3A, 0x5D, 0x7D}
    ensures Delimiter(At(s, n))
  {
    if trail != [] {
      AtFirst(s, n, trail);
    }
  }

  /** One element: where it begins, what it is and where the blanks after it end. */
  lemma {:induction false} ElemParses(s: seq<Octet>, i: nat, e: Elem)
    requires LegalElem(e) && Has(s, i, RenderElem(e)) && At(s, i + |RenderElem(e)|) in {0x2C, 0x5D, 0x7D}
    ensures LegalTree(e.tree)
    ensures
      var j, n := i + |e.lead|, i + |e.lead| + |Render(e.tree)|;
      && Skip(s, i) == j && Opens(At(s, j)) && Skip(s, j) == j
      && ParseAny(s, j) == Ok(ValueOf(e.tree), n) && Skip(s, n) == i + |RenderElem(e)|
    decreases e, 6
  {
    hide Has, Render, LegalTree, ParseAny, Skip, Delimiter, AllBlank, NoTab, ValueOf;
    var x := Render(e.tree);
    var j, n := i + |e.lead|, i + |e.lead| + |x|;
    HasSplit(s, i, e.lead, x + e.trail);
    HasSplit(s, j, x, e.trail);
    OpensNow(s, j, e.tree);
    BlanksSkip(s, i, e.lead);
    if Scalar(e.tree) {
      TrailEnds(s, n, e.trail);
    }
    TreeParses(s, j, e.tree, n);
    BlanksSkip(s, n, e.trail);
  }

  /** One turn of the item loop. */
  lemma ItemTurn(s: seq<Octet>, j: nat, done: seq<Json>, v: Json, n: nat)
    requires At(s, j) != 0 && ParseAny(s, j) == Ok(v, n)
    ensures At(s, Skip(s, n)) == 0x5D ==> ParseItems(s, j, done) == Ok(Arr(done + [v]), Skip(s, n) + 1)
    ensures At(s, Skip(s, n)) == 0x2C && At(s, Skip(s, Skip(s, n) + 1)) != 0 ==>
      ParseItems(s, j, done) == ParseItems(s, Skip(s, Skip(s, n) + 1), done + [v])
  {
    hide ParseAny, Skip;
  }

  lemma {:induction false} ElemsParse(s: seq<Octet>, i: nat, done: seq<Json>, es: seq<Elem>)
    requires es != [] && (forall k :: 0 <= k < |es| ==> LegalElem(es[k]))
    requires Has(s, i, RenderElems(es)) && At(s, i + |RenderElems(es)|) == 0x5D
    ensures At(s, Skip(s, i)) != 0 && At(s, Skip(s, i)) != 0x5D
    ensures ParseItems(s, Skip(s, i), done) == Ok(Arr(done + ValuesOf(es)), i + |RenderElems(es)| + 1)
    decreases es, 7
  {
    hide Has, RenderElem, ParseAny, ParseItems, Skip, LegalElem, Render, ValueOf, LegalTree, ValuesOf;
    var e, x := es[0], RenderElem(es[0]);
    if |es| > 1 {
      HasSplit(s, i, x, [0x2C] + RenderElems(es[1..]));
      HasSplit(s, i + |x|, [0x2C], RenderElems(es[1..]));
      HasOne(s, i + |x|, 0x2C);
    }
    ElemParses(s, i, e);
    ValuesFirst(es);
    var j := i + |e.lead|;
    var v, n := ValueOf(e.tree), j + |Render(e.tree)|;
    if |es| == 1 {
      ItemTurn(s, j, done, v, n);
    } else {
      assert i + |RenderElems(es)| == i + |x| + 1 + |RenderElems(es[1..])|;
      ElemsParse(s, i + |x| + 1, done + [v], es[1..]);
      ItemTurn(s, j, done, v, n);
      assert done + [v] + ValuesOf(es[1..]) == done + ValuesOf(es);
    }
  }

  lemma ValuesFirst(es: seq<Elem>)
    requires es != [] && (forall k :: 0 <= k < |es| ==> LegalElem(es[k]))
    ensures LegalTree(es[0].tree) && ValuesOf(es) == [ValueOf(es[0].tree)] + ValuesOf(es[1..])
    ensures |es| == 1 ==> ValuesOf(es) == [ValueOf(es[0].tree)]
  {
    assert LegalElem(es[0]);
  }

  /** Where the parts of a member stand. */
  lemma FieldSplit(s: seq<Octet>, i: nat, f: Field)
    requires LegalField(f) && Has(s, i, RenderField(f))
    ensures Has(s, i, f.lead) && Has(s, i + |f.lead|, Quote(f.key))
    ensures
      var p := i + |f.lead| + |Quote(f.key)|;
      var q := p + |f.pad|;
      && Has(s, p, f.pad) && At(s, q) == 0x3A && Has(s, q + 1, RenderElem(f.elem))
      && i + |RenderField(f)| == q + 1 + |RenderElem(f.elem)|
  {
    hide Has, At, RenderElem, LegalElem, AllLegal, AllBlank, Quote;
    var k, x := Quote(f.key), RenderElem(f.elem);
    var j := i + |f.lead|;
    var q := j + |k| + |f.pad|;
    HasSplit(s, i, f.lead, k + (f.pad + ([0x3A] + x)));
    HasSplit(s, j, k, f.pad + ([0x3A] + x));
    HasSplit(s, j + |k|, f.pad, [0x3A] + x);
    HasSplit(s, q, [0x3A], x);
    HasOne(s, q, 0x3A);
  }

  /** The key of a member is read, and the blanks around it skipped. */
  lemma KeyParses(s: seq<Octet>, i: nat, f: Field)
    requires LegalField(f) && Has(s, i, f.lead) && Has(s, i + |f.lead|, Quote(f.key))
    requires
      var p := i + |f.lead| + |Quote(f.key)|;
      Has(s, p, f.pad) && At(s, p + |f.pad|) == 0x3A
    ensures
      var j := i + |f.lead|;
      var p := j + |Quote(f.key)|;
      && Skip(s, i) == j && At(s, j) == 0x22 && ParseStr(s, j) == Ok(KeyOf(f), p) && Skip(s, p) == p + |f.pad|
  {
    hide Has, At, ParseStr, Skip, LegalElem, Spell, AllLegal, AllBlank, NoTab, Delimiter;
    var j := i + |f.lead|;
    var p := j + |Quote(f.key)|;
    AtFirst(s, j, Quote(f.key));
    hide Quote;
    BlanksSkip(s, i, f.lead);
    TrailEnds(s, p, f.pad);
    TextParses(s, j, f.key);
    BlanksSkip(s, p, f.pad);
  }

  lemma {:induction false} FieldParses(s: seq<Octet>, i: nat, f: Field)
    requires LegalField(f) && Has(s, i, RenderField(f)) && At(s, i + |RenderField(f)|) in {0x2C, 0x7D}
    ensures AllLegal(f.key) && LegalElem(f.elem) && LegalTree(f.elem.tree)
    ensures
      var j := i + |f.lead|;
      var q := j + |Quote(f.key)| + |f.pad|;
      var n := q + 1 + |f.elem.lead| + |Render(f.elem.tree)|;
      && Skip(s, i) == j && At(s, j) == 0x22
      && ParseStr(s, j) == Ok(KeyOf(f), j + |Quote(f.key)|)
      && Skip(s, j + |Quote(f.key)|) == q && At(s, q) == 0x3A
      && ParseAny(s, q + 1) == Ok(ValueOf(f.elem.tree), n) && Skip(s, n) == i + |RenderField(f)|
    decreases f, 7
  {
    hide Has, At, RenderField, RenderElem, Render, Quote, ParseAny, ParseStr, Skip, LegalElem, LegalTree, ValueOf,
      KeyOf, AllLegal, AllBlank, NoTab;
    FieldSplit(s, i, f);
    KeyParses(s, i, f);
    var q := i + |f.lead| + |Quote(f.key)| + |f.pad|;
    ElemParses(s, q + 1, f.elem);
    SkipThenParse(s, q + 1);
  }

  lemma SkipThenParse(s: seq<Octet>, i: nat)
    requires Skip(s, Skip(s, i)) == Skip(s, i)
    ensures ParseAny(s, i) == ParseAny(s, Skip(s, i))
  {
    hide Skip, ParseObj, ParseArr, ParseNum, ParseStr, ParseWord;
  }

  /** One turn of the member loop. */
  lemma MemberTurn(s: seq<Octet>, j: nat, done: seq<Member>, key: seq<Octet>, p: nat, v: Json, n: nat)
    requires At(s, j) != 0 && ParseStr(s, j) == Ok(key, p) && At(s, Skip(s, p)) == 0x3A && !HasKey(done, key)
    requires ParseAny(s, Skip(s, p) + 1) == Ok(v, n)
    ensures At(s, Skip(s, n)) == 0x7D ==>
      ParseMembers(s, j, done) == Ok(Obj(done + [Member(key, v)]), Skip(s, n) + 1)
    ensures At(s, Skip(s, n)) == 0x2C && At(s, Skip(s, Skip(s, n) + 1)) != 0 ==>
      ParseMembers(s, j, done) == ParseMembers(s, Skip(s, Skip(s, n) + 1), done + [Member(key, v)])
  {
    hide ParseAny, ParseStr, Skip, HasKey;
  }

  /** None of the fields repeats a key. */
  predicate NewKeys(done: seq<Member>, fs: seq<Field>) {
    DifferentKeys(fs) && forall k :: 0 <= k < |fs| ==> !HasKey(done, KeyOf(fs[k]))
  }

  lemma NewKeysNext(done: seq<Member>, fs: seq<Field>, v: Json)
    requires fs != [] && NewKeys(done, fs)
    ensures NewKeys(done + [Member(KeyOf(fs[0]), v)], fs[1..])
  {
    hide KeyOf;
  }

  lemma FieldsSplit(s: seq<Octet>, i: nat, fs: seq<Field>)
    requires fs != [] && (forall k :: 0 <= k < |fs| ==> LegalField(fs[k])) && Has(s, i, RenderFields(fs))
    ensures Has(s, i, RenderField(fs[0]))
    ensures |fs| == 1 ==> |RenderFields(fs)| == |RenderField(fs[0])|
    ensures |fs| > 1 ==>
      var k := i + |RenderField(fs[0])|;
      && At(s, k) == 0x2C && Has(s, k + 1, RenderFields(fs[1..]))
      && k + 1 + |RenderFields(fs[1..])| == i + |RenderFields(fs)|
  {
    hide Has, RenderField, LegalField;
    if |fs| > 1 {
      var x, y := RenderField(fs[0]), RenderFields(fs[1..]);
      HasSplit(s, i, x, [0x2C] + y);
      HasSplit(s, i + |x|, [0x2C], y);
      HasOne(s, i + |x|, 0x2C);
    }
  }

  lemma {:induction false} FieldsParse(s: seq<Octet>, i: nat, done: seq<Member>, fs: seq<Field>)
    requires fs != [] && (forall k :: 0 <= k < |fs| ==> LegalField(fs[k])) && NewKeys(done, fs)
    requires Has(s, i, RenderFields(fs)) && At(s, i + |RenderFields(fs)|) == 0x7D
    ensures At(s, Skip(s, i)) == 0x22
    ensures ParseMembers(s, Skip(s, i), done) == Ok(Obj(done + MembersOf(fs)), i + |RenderFields(fs)| + 1)
    decreases fs, 8
  {
    hide Has, RenderField, ParseAny, ParseStr, ParseMembers, Skip, LegalField, LegalElem, LegalTree, Render, Quote,
      KeyOf, HasKey, AllLegal, ValueOf, MembersOf, RenderFields;
    var f, x := fs[0], RenderField(fs[0]);
    assert !HasKey(done, KeyOf(f));
    FieldsSplit(s, i, fs);
    MembersFirst(fs);
    FieldParses(s, i, f);
    var j := i + |f.lead|;
    var p := j + |Quote(f.key)|;
    var v, n := ValueOf(f.elem.tree), p + |f.pad| + 1 + |f.elem.lead| + |Render(f.elem.tree)|;
    if |fs| == 1 {
      MemberTurn(s, j, done, KeyOf(f), p, v, n);
    } else {
      NewKeysNext(done, fs, v);
      hide NewKeys;
      FieldsParse(s, i + |x| + 1, done + [Member(KeyOf(f), v)], fs[1..]);
      MemberTurn(s, j, done, KeyOf(f), p, v, n);
      assert done + [Member(KeyOf(f), v)] + MembersOf(fs[1..]) == done + MembersOf(fs);
    }
  }

  // ----- And whatever parses is written like this -----

  lemma {:induction false} SkipIs(s: seq<Octet>, i: nat)
    requires i <= |s|
    ensures i <= Skip(s, i) <= |s| && AllBlank(s[i..Skip(s, i)]) && Skip(s, Skip(s, i)) == Skip(s, i)
    ensures Has(s, i, s[i..Skip(s, i)])
    decreases |s| - i
  {
    if Blank(At(s, i)) {
      SkipIs(s, i + 1);
      assert s[i..Skip(s, i)] == [s[i]] + s[i + 1..Skip(s, i)];
    }
  }

  lemma TextSound(s: seq<Octet>, i: nat) returns (items: seq<Item>)
    requires ParseStr(s, i).Ok?
    ensures AllLegal(items) && Has(s, i, Quote(items))
      && ParseStr(s, i) == Ok(EncodeAll(Meanings(items)), i + |Quote(items)|)
    ensures Delimiter(At(s, i + |Quote(items)|))
  {
    hide Scan, Spell, Meanings, EncodeAll, Delimiter;
    ScanSound(s, i + 1);
    items := Scan(s, i + 1).value.0;
    var e := Scan(s, i + 1).value.1;
    HasOne(s, i, 0x22);
    HasOne(s, e, 0x22);
    HasJoin(s, i + 1, Spell(items), [0x22]);
    HasJoin(s, i, [0x22], Spell(items) + [0x22]);
  }

  /** A value with the blanks around it, before a separator or a closing bracket. */
  lemma {:induction false} ElemSound(s: seq<Octet>, i: nat) returns (e: Elem)
    requires i <= |s| && ParseAny(s, i).Ok? && At(s, Skip(s, ParseAny(s, i).next)) in {0x2C, 0x5D, 0x7D}
    ensures LegalElem(e) && LegalTree(e.tree) && ValueOf(e.tree) == ParseAny(s, i).value
    ensures Has(s, i, RenderElem(e)) && i + |RenderElem(e)| == Skip(s, ParseAny(s, i).next)
    decreases |s| - i, 3
  {
    hide Has, Render, LegalTree, ParseAny, Skip, AllBlank, ValueOf;
    var t := TreeSound(s, i);
    var n := ParseAny(s, i).next;
    SkipIs(s, i);
    SkipIs(s, n);
    e := Elem(s[i..Skip(s, i)], t, s[n..Skip(s, n)]);
    HasJoin(s, Skip(s, i), Render(t), e.trail);
    HasJoin(s, i, e.lead, Render(t) + e.trail);
  }

  lemma {:induction false} TreeSound(s: seq<Octet>, i: nat) returns (t: Tree)
    requires i <= |s| && ParseAny(s, i).Ok?
    ensures Stands(s, Skip(s, i), t, ParseAny(s, i).next) && ValueOf(t) == ParseAny(s, i).value
    decreases |s| - i, 2
  {
    hide Has, Delimiter, ParseStr, ParseNum, ParseObj, ParseArr, NumberText, NumberLegal, RenderElems, RenderFields,
      Spell, AllLegal, AllBlank, LegalElem, LegalField, DifferentKeys, Skip;
    var j := Skip(s, i);
    SkipIs(s, i);
    if At(s, j) == 0x7B {
      t := ObjectSound(s, j);
    } else if At(s, j) == 0x5B {
      t := ArraySound(s, j);
    } else if At(s, j) == 0x2D || IsNum(At(s, j)) {
      var n := NumberSound(s, j);
      t := Numeral(n);
    } else if At(s, j) == 0x22 {
      var items := TextSound(s, j);
      t := Text(items);
    } else {
      t := Word(if At(s, j) == 0x6E then None else Some(At(s, j) == 0x74));
    }
  }

  lemma {:induction false} ArraySound(s: seq<Octet>, i: nat) returns (t: Tree)
    requires At(s, i) == 0x5B && ParseArr(s, i).Ok?
    ensures LegalTree(t) && !Scalar(t) && Has(s, i, Render(t)) && ParseArr(s, i) == Ok(ValueOf(t), i + |Render(t)|)
    decreases |s| - i, 1
  {
    hide Has, ParseItems, RenderElems, AllBlank, LegalElem, Skip, ValuesOf;
    var j := Skip(s, i + 1);
    SkipIs(s, i + 1);
    HasOne(s, i, 0x5B);
    if At(s, j) == 0x5D {
      t := EmptyArray(s[i + 1..j]);
      HasOne(s, j, 0x5D);
      HasJoin(s, i + 1, t.pad, [0x5D]);
      HasJoin(s, i, [0x5B], t.pad + [0x5D]);
    } else {
      var es := ElemsSound(s, i + 1, []);
      assert [] + ValuesOf(es) == ValuesOf(es);
      t := Array(es);
      HasOne(s, i + 1 + |RenderElems(es)|, 0x5D);
      HasJoin(s, i + 1, RenderElems(es), [0x5D]);
      HasJoin(s, i, [0x5B], RenderElems(es) + [0x5D]);
    }
  }

  /** What a turn of the item loop that does not fail has seen. */
  lemma ItemSeen(s: seq<Octet>, j: nat, done: seq<Json>)
    requires At(s, j) != 0 && ParseItems(s, j, done).Ok?
    ensures ParseAny(s, j).Ok?
    ensures var t := Skip(s, ParseAny(s, j).next);
      At(s, t) == 0x5D || (At(s, t) == 0x2C && At(s, Skip(s, t + 1)) != 0)
  {
    hide ParseAny, Skip;
  }

  lemma ElemsNext(e: Elem, rest: seq<Elem>)
    requires LegalElem(e) && (forall k :: 0 <= k < |rest| ==> LegalElem(rest[k]))
    ensures LegalTree(e.tree) && ValuesOf([e] + rest) == [ValueOf(e.tree)] + ValuesOf(rest)
    ensures rest != [] ==> RenderElems([e] + rest) == RenderElem(e) + ([0x2C] + RenderElems(rest))
    ensures rest == [] ==> RenderElems([e] + rest) == RenderElem(e)
  {
    assert ([e] + rest)[1..] == rest;
    ValuesFirst([e] + rest);
  }

  lemma {:induction false} ElemsSound(s: seq<Octet>, i: nat, vs: seq<Json>) returns (es: seq<Elem>)
    requires i <= |s| && At(s, Skip(s, i)) != 0 && ParseItems(s, Skip(s, i), vs).Ok?
    ensures es != [] && (forall k :: 0 <= k < |es| ==> LegalElem(es[k]))
    ensures Has(s, i, RenderElems(es)) && At(s, i + |RenderElems(es)|) == 0x5D
    ensures ParseItems(s, Skip(s, i), vs) == Ok(Arr(vs + ValuesOf(es)), i + |RenderElems(es)| + 1)
    decreases |s| - i, 4
  {
    hide Has, RenderElem, RenderElems, ParseAny, ParseItems, Skip, LegalElem, LegalTree, ValueOf, ValuesOf;
    SkipIs(s, i);
    SkipThenParse(s, i);
    ItemSeen(s, Skip(s, i), vs);
    var e := ElemSound(s, i);
    var v, n := ParseAny(s, i).value, ParseAny(s, i).next;
    var t := Skip(s, n);
    ItemTurn(s, Skip(s, i), vs, v, n);
    var rest: seq<Elem> := [];
    if At(s, t) == 0x2C {
      SkipIs(s, t + 1);
      rest := ElemsSound(s, t + 1, vs + [v]);
      HasOne(s, t, 0x2C);
      HasJoin(s, t, [0x2C], RenderElems(rest));
      HasJoin(s, i, RenderElem(e), [0x2C] + RenderElems(rest));
      assert vs + [v] + ValuesOf(rest) == vs + ([v] + ValuesOf(rest));
    } else {
      NoValues();
      assert [v] + ValuesOf(rest) == [v];
    }
    es := [e] + rest;
    ElemsNext(e, rest);
  }

  lemma NoValues()
    ensures ValuesOf([]) == [] && MembersOf([]) == []
  {
  }

  lemma {:induction false} ObjectSound(s: seq<Octet>, i: nat) returns (t: Tree)
    requires At(s, i) == 0x7B && ParseObj(s, i).Ok?
    ensures LegalTree(t) && !Scalar(t) && Has(s, i, Render(t)) && ParseObj(s, i) == Ok(ValueOf(t), i + |Render(t)|)
    decreases |s| - i, 1
  {
    hide Has, ParseMembers, RenderFields, AllBlank, LegalField, Skip, MembersOf, DifferentKeys;
    var j := Skip(s, i + 1);
    SkipIs(s, i + 1);
    HasOne(s, i, 0x7B);
    if At(s, j) == 0x7D {
      t := EmptyObject(s[i + 1..j]);
      HasOne(s, j, 0x7D);
      HasJoin(s, i + 1, t.pad, [0x7D]);
      HasJoin(s, i, [0x7B], t.pad + [0x7D]);
    } else {
      var fs := FieldsSound(s, i + 1, []);
      assert [] + MembersOf(fs) == MembersOf(fs);
      t := Object(fs);
      HasOne(s, i + 1 + |RenderFields(fs)|, 0x7D);
      HasJoin(s, i + 1, RenderFields(fs), [0x7D]);
      HasJoin(s, i, [0x7B], RenderFields(fs) + [0x7D]);
    }
  }

  lemma {:induction false} FieldSound(s: seq<Octet>, i: nat) returns (f: Field)
    requires i <= |s| && ParseStr(s, Skip(s, i)).Ok?
    requires At(s, Skip(s, ParseStr(s, Skip(s, i)).next)) == 0x3A
    requires ParseAny(s, Skip(s, ParseStr(s, Skip(s, i)).next) + 1).Ok?
    requires At(s, Skip(s, ParseAny(s, Skip(s, ParseStr(s, Skip(s, i)).next) + 1).next)) in {0x2C, 0x7D}
    ensures LegalField(f) && LegalElem(f.elem) && LegalTree(f.elem.tree) && KeyOf(f) == ParseStr(s, Skip(s, i)).value
    ensures var v := ParseAny(s, Skip(s, ParseStr(s, Skip(s, i)).next) + 1);
      ValueOf(f.elem.tree) == v.value && Has(s, i, RenderField(f)) && i + |RenderField(f)| == Skip(s, v.next)
    decreases |s| - i, 4
  {
    hide Has, RenderElem, ParseAny, ParseStr, Skip, LegalElem, LegalTree, Spell, AllLegal, AllBlank, ValueOf;
    var j := Skip(s, i);
    SkipIs(s, i);
    var key := TextSound(s, j);
    var p := ParseStr(s, j).next;
    var q := Skip(s, p);
    SkipIs(s, p);
    var e := ElemSound(s, q + 1);
    f := Field(s[i..j], key, s[p..q], e);
    FieldThere(s, i, f);
  }

  lemma FieldThere(s: seq<Octet>, i: nat, f: Field)
    requires LegalField(f) && Has(s, i, f.lead) && Has(s, i + |f.lead|, Quote(f.key))
    requires
      var p := i + |f.lead| + |Quote(f.key)|;
      var q := p + |f.pad|;
      Has(s, p, f.pad) && q < |s| && At(s, q) == 0x3A && Has(s, q + 1, RenderElem(f.elem))
    ensures Has(s, i, RenderField(f))
    ensures |RenderField(f)| == |f.lead| + |Quote(f.key)| + |f.pad| + 1 + |RenderElem(f.elem)|
  {
    hide Has, At, RenderElem, LegalElem, AllLegal, AllBlank, Quote;
    var j := i + |f.lead|;
    var p := j + |Quote(f.key)|;
    var q := p + |f.pad|;
    HasOne(s, q, 0x3A);
    HasJoin(s, q, [0x3A], RenderElem(f.elem));
    HasJoin(s, p, f.pad, [0x3A] + RenderElem(f.elem));
    HasJoin(s, j, Quote(f.key), f.pad + ([0x3A] + RenderElem(f.elem)));
    HasJoin(s, i, f.lead, Quote(f.key) + (f.pad + ([0x3A] + RenderElem(f.elem))));
  }

  lemma MembersFirst(fs: seq<Field>)
    requires fs != [] && (forall k :: 0 <= k < |fs| ==> LegalField(fs[k]))
    ensures LegalElem(fs[0].elem) && LegalTree(fs[0].elem.tree)
    ensures MembersOf(fs) == [Member(KeyOf(fs[0]), ValueOf(fs[0].elem.tree))] + MembersOf(fs[1..])
    ensures |fs| == 1 ==> MembersOf(fs) == [Member(KeyOf(fs[0]), ValueOf(fs[0].elem.tree))]
  {
    assert LegalField(fs[0]);
  }

  lemma NewKeysBefore(done: seq<Member>, f: Field, v: Json, rest: seq<Field>)
    requires !HasKey(done, KeyOf(f)) && NewKeys(done + [Member(KeyOf(f), v)], rest)
    ensures NewKeys(done, [f] + rest)
  {
    hide KeyOf;
    var m := Member(KeyOf(f), v);
    forall k | 0 <= k < |rest| ensures KeyOf(rest[k]) != KeyOf(f) && !HasKey(done, KeyOf(rest[k])) {
      assert m in done + [m];
      assert forall x :: x in done ==> x in done + [m];
    }
  }

  /** What a turn of the member loop that does not fail has seen. */
  lemma MemberSeen(s: seq<Octet>, j: nat, done: seq<Member>)
    requires At(s, j) != 0 && ParseMembers(s, j, done).Ok?
    ensures ParseStr(s, j).Ok? && !HasKey(done, ParseStr(s, j).value)
    ensures var q := Skip(s, ParseStr(s, j).next);
      && At(s, q) == 0x3A && ParseAny(s, q + 1).Ok?
      && var t := Skip(s, ParseAny(s, q + 1).next);
         At(s, t) == 0x7D || (At(s, t) == 0x2C && At(s, Skip(s, t + 1)) != 0)
  {
    hide ParseAny, ParseStr, Skip, HasKey;
  }

  lemma FieldsNext(f: Field, rest: seq<Field>)
    requires LegalField(f) && (forall k :: 0 <= k < |rest| ==> LegalField(rest[k]))
    ensures LegalElem(f.elem) && LegalTree(f.elem.tree)
    ensures MembersOf([f] + rest) == [Member(KeyOf(f), ValueOf(f.elem.tree))] + MembersOf(rest)
    ensures rest != [] ==> RenderFields([f] + rest) == RenderField(f) + ([0x2C] + RenderFields(rest))
    ensures rest == [] ==> RenderFields([f] + rest) == RenderField(f)
  {
    assert ([f] + rest)[1..] == rest;
    MembersFirst([f] + rest);
  }

  lemma FieldsThere(s: seq<Octet>, i: nat, f: Field, rest: seq<Field>)
    requires LegalField(f) && (forall k :: 0 <= k < |rest| ==> LegalField(rest[k])) && Has(s, i, RenderField(f))
    requires rest != [] ==>
      At(s, i + |RenderField(f)|) == 0x2C && Has(s, i + |RenderField(f)| + 1, RenderFields(rest))
    ensures Has(s, i, RenderFields([f] + rest))
  {
    hide Has, RenderField, RenderFields, LegalField, MembersOf, KeyOf, ValueOf;
    FieldsNext(f, rest);
    if rest != [] {
      HasOne(s, i + |RenderField(f)|, 0x2C);
      HasJoin(s, i + |RenderField(f)|, [0x2C], RenderFields(rest));
      HasJoin(s, i, RenderField(f), [0x2C] + RenderFields(rest));
    }
  }

  lemma {:induction false} FieldsSound(s: seq<Octet>, i: nat, ms: seq<Member>) returns (fs: seq<Field>)
    requires i <= |s| && At(s, Skip(s, i)) != 0 && ParseMembers(s, Skip(s, i), ms).Ok?
    ensures fs != [] && (forall k :: 0 <= k < |fs| ==> LegalField(fs[k])) && NewKeys(ms, fs)
    ensures Has(s, i, RenderFields(fs)) && At(s, i + |RenderFields(fs)|) == 0x7D
    ensures ParseMembers(s, Skip(s, i), ms) == Ok(Obj(ms + MembersOf(fs)), i + |RenderFields(fs)| + 1)
    decreases |s| - i, 5
  {
    hide Has, RenderField, RenderFields, ParseAny, ParseStr, ParseMembers, Skip, LegalField, LegalElem, LegalTree,
      ValueOf, MembersOf, KeyOf, HasKey, NewKeys;
    SkipIs(s, i);
    MemberSeen(s, Skip(s, i), ms);
    var f := FieldSound(s, i);
    var p := ParseStr(s, Skip(s, i)).next;
    var v := ParseAny(s, Skip(s, p) + 1);
    var m, t := Member(KeyOf(f), v.value), Skip(s, v.next);
    MemberTurn(s, Skip(s, i), ms, KeyOf(f), p, v.value, v.next);
    var rest: seq<Field> := [];
    if At(s, t) == 0x2C {
      SkipIs(s, t + 1);
      rest := FieldsSound(s, t + 1, ms + [m]);
      assert ms + [m] + MembersOf(rest) == ms + ([m] + MembersOf(rest));
    } else {
      NoValues();
      assert [m] + MembersOf(rest) == [m];
      assert NewKeys(ms + [m], rest) by { NoNewKeys(ms + [m]); }
    }
    fs := [f] + rest;
    FieldsNext(f, rest);
    FieldsThere(s, i, f, rest);
    NewKeysBefore(ms, f, v.value, rest);
  }

  lemma NoNewKeys(ms: seq<Member>)
    ensures NewKeys(ms, [])
  {
  }

  /** The parser accepts exactly the renderings of legal trees, behind any blanks, and
      gives the value of the tree. So a text can be read in one way only. */
  lemma ParseExact(s: seq<Octet>, i: nat, v: Json, e: nat)
    requires i <= |s|
    ensures ParseAny(s, i) == Ok(v, e) <==> exists t :: Stands(s, Skip(s, i), t, e) && ValueOf(t) == v
  {
    hide ParseAny, Skip, Render, ValueOf, LegalTree;
    SkipIs(s, i);
    SkipThenParse(s, i);
    if ParseAny(s, i) == Ok(v, e) {
      var t := TreeSound(s, i);
    }
    if t :| Stands(s, Skip(s, i), t, e) && ValueOf(t) == v {
      TreeParses(s, Skip(s, i), t, e);
    }
  }
}
