/** Printing JSON the way the safetensors writer does, and reading it back. */
module JsonPrint {
  import opened Options
  import opened Utf8
  import opened JsonString
  import opened Json
  import opened JsonGrammar

  // ----- Text that needs no escaping -----

  predicate NoEscape(cps: seq<nat>) {
    forall i :: 0 <= i < |cps| ==> Legal(Plain(cps[i]))
  }

  /** Well-formed UTF-8 without quotes, backslashes and control characters. */
  ghost predicate PlainText(x: seq<Octet>) {
    exists cps :: NoEscape(cps) && Scalars(cps) && x == EncodeAll(cps)
  }

  function AsItems(cps: seq<nat>): (items: seq<Item>)
    requires NoEscape(cps)
    ensures |items| == |cps| && AllLegal(items) && forall i :: 0 <= i < |items| ==> items[i] == Plain(cps[i])
  {
    seq(|cps|, i requires 0 <= i < |cps| => Plain(cps[i]))
  }

  lemma {:induction false} SpellSnoc(items: seq<Item>, it: Item)
    requires AllLegal(items) && Legal(it)
    ensures AllLegal(items + [it]) && Spell(items + [it]) == Spell(items) + Spelling(it)
  {
    hide Legal, Spelling;
    if items == [] {
      assert items + [it] == [it];
      assert Spell([it]) == Spelling(it) + Spell([it][1..]);
    } else {
      SpellSnoc(items[1..], it);
      assert (items + [it])[1..] == items[1..] + [it];
    }
  }

  lemma {:induction false} PlainSpells(cps: seq<nat>)
    requires NoEscape(cps) && Scalars(cps)
    ensures Spell(AsItems(cps)) == EncodeAll(cps) && Meanings(AsItems(cps)) == cps
  {
    if cps != [] {
      hide Legal, Encode, AsItems, NoEscape, Spell, Meanings, AllLegal, Spelling;
      var front, last := cps[..|cps| - 1], cps[|cps| - 1];
      ItemsSnoc(cps);
      PlainSpells(front);
      SpellSnoc(AsItems(front), Plain(last));
      MeaningsSnoc(AsItems(front), Plain(last));
    }
  }

  lemma ItemsSnoc(cps: seq<nat>)
    requires NoEscape(cps) && cps != []
    ensures var front, last := cps[..|cps| - 1], cps[|cps| - 1];
      && NoEscape(front) && AsItems(cps) == AsItems(front) + [Plain(last)]
      && Legal(Plain(last)) && Spelling(Plain(last)) == Encode(last) && Meaning(Plain(last)) == last
  {
    hide Legal, Encode;
    assert Legal(Plain(cps[|cps| - 1]));
  }

  function Quoted(x: seq<Octet>): seq<Octet> {
    [0x22] + x + [0x22]
  }

  /** Plain text between quotes is read as itself. */
  lemma PlainReads(s: seq<Octet>, i: nat, x: seq<Octet>)
    requires PlainText(x) && Has(s, i, Quoted(x)) && Delimiter(At(s, i + |x| + 2))
    ensures ParseStr(s, i) == Ok(x, i + |x| + 2)
  {
    hide Scan, Spell, Meanings, EncodeAll;
    var cps :| NoEscape(cps) && Scalars(cps) && x == EncodeAll(cps);
    PlainSpells(cps);
    var q := Quoted(x);
    HasAt(s, i, q);
    assert At(s, i + 0) == q[0] && At(s, i + (|x| + 1)) == q[|x| + 1];
    assert q == [0x22] + (x + [0x22]);
    HasParts(s, i, [0x22], x + [0x22]);
    HasParts(s, i + 1, x, [0x22]);
    ScanComplete(s, i + 1, AsItems(cps), i + 1 + |x|);
  }

  predicate AllPlain(items: seq<Item>) {
    forall i :: 0 <= i < |items| ==> items[i].Plain?
  }

  lemma ItemShrinks(it: Item)
    requires Legal(it)
    ensures |Encode(Meaning(it))| <= |Spelling(it)| && (|Encode(Meaning(it))| == |Spelling(it)| ==> it.Plain?)
  {
  }

  /** Escapes are longer than what they stand for. */
  lemma {:induction false} EscapesShrink(items: seq<Item>)
    requires AllLegal(items)
    ensures |EncodeAll(Meanings(items))| <= |Spell(items)|
    ensures |EncodeAll(Meanings(items))| == |Spell(items)| ==> AllPlain(items)
  {
    hide Legal, Encode, Spelling, Meaning;
    if items != [] {
      var front, last := items[..|items| - 1], items[|items| - 1];
      assert items == front + [last];
      EscapesShrink(front);
      ItemShrinks(last);
      SpellSnoc(front, last);
      MeaningsSnoc(front, last);
    }
  }

  lemma {:induction false} PlainMeanings(items: seq<Item>)
    requires AllLegal(items) && AllPlain(items)
    ensures NoEscape(Meanings(items))
  {
    if items != [] {
      var front, last := items[..|items| - 1], items[|items| - 1];
      PlainMeanings(front);
    }
  }

  /** Text printed raw between quotes is read back as itself if and only if it is
      plain. */
  lemma PlainExact(s: seq<Octet>, i: nat, x: seq<Octet>)
    requires Has(s, i, Quoted(x)) && Delimiter(At(s, i + |x| + 2))
    ensures ParseStr(s, i) == Ok(x, i + |x| + 2) <==> PlainText(x)
  {
    hide Scan, Spell, Meanings, EncodeAll;
    if PlainText(x) {
      PlainReads(s, i, x);
    }
    if ParseStr(s, i) == Ok(x, i + |x| + 2) {
      ScanSound(s, i + 1);
      var (items, e) := Scan(s, i + 1).value;
      var q := Quoted(x);
      assert e == i + 1 + |x|;
      assert q == [0x22] + (x + [0x22]);
      HasParts(s, i, [0x22], x + [0x22]);
      HasParts(s, i + 1, x, [0x22]);
      EscapesShrink(items);
      PlainMeanings(items);
    }
  }

  // ----- Documents -----

  function Print(v: Json): seq<Octet>
    decreases v
  {
    match v
    case Null => NULL
    case Bool(b) => if b then TRUE else FALSE
    case Num(literal) => literal
    case Str(x) => Quoted(x)
    case Arr(vs) => [0x5B] + PrintItems(vs) + [0x5D]
    case Obj(ms) => [0x7B] + PrintMembers(ms) + [0x7D]
  }

  function PrintItems(vs: seq<Json>): seq<Octet>
    decreases vs
  {
    if vs == [] then []
    else if |vs| == 1 then Print(vs[0])
    else Print(vs[0]) + [0x2C, 0x20] + PrintItems(vs[1..])
  }

  function PrintMember(m: Member): seq<Octet>
    decreases m
  {
    Quoted(m.key) + [0x3A, 0x20] + Print(m.value)
  }

  function PrintMembers(ms: seq<Member>): seq<Octet>
    decreases ms
  {
    if ms == [] then []
    else if |ms| == 1 then PrintMember(ms[0])
    else PrintMember(ms[0]) + [0x2C, 0x20] + PrintMembers(ms[1..])
  }

  lemma NothingPrinted()
    ensures PrintItems([]) == [] && PrintMembers([]) == []
  {
  }

  predicate Numerals(literal: seq<Octet>) {
    literal != [] && AllNums(literal)
  }

  predicate DistinctKeys(ms: seq<Member>) {
    forall i, j :: 0 <= i < j < |ms| ==> ms[i].key != ms[j].key
  }

  /** Plain strings, decimal numbers, no key twice. */
  ghost predicate Printable(v: Json)
    decreases v
  {
    match v
    case Null => true
    case Bool(_) => true
    case Num(literal) => Numerals(literal)
    case Str(x) => PlainText(x)
    case Arr(vs) => forall i :: 0 <= i < |vs| ==> Printable(vs[i])
    case Obj(ms) => DistinctKeys(ms) && forall i :: 0 <= i < |ms| ==> PlainText(ms[i].key) && Printable(ms[i].value)
  }

  // ----- Printed documents are written legally -----

  /** A spelling of plain text. */
  ghost function PlainItems(x: seq<Octet>): (items: seq<Item>)
    requires PlainText(x)
    ensures AllLegal(items) && Spell(items) == x && EncodeAll(Meanings(items)) == x
  {
    var cps :| NoEscape(cps) && Scalars(cps) && x == EncodeAll(cps);
    PlainSpells(cps);
    AsItems(cps)
  }

  /** The tree of which the printed text is the rendering: one space after every
      comma and every colon. */
  ghost function TreeOf(v: Json): Tree
    requires Printable(v)
    decreases v
  {
    match v
    case Null => Word(None)
    case Bool(b) => Word(Some(b))
    case Num(literal) => Numeral(Number.Decimal(false, literal, [], []))
    case Str(x) => Text(PlainItems(x))
    case Arr(vs) => if vs == [] then EmptyArray([]) else Array(ElemsOf(vs, []))
    case Obj(ms) => if ms == [] then EmptyObject([]) else Object(FieldsOf(ms, []))
  }

  ghost function ElemsOf(vs: seq<Json>, lead: seq<Octet>): (es: seq<Elem>)
    requires forall i :: 0 <= i < |vs| ==> Printable(vs[i])
    ensures |es| == |vs|
    decreases vs
  {
    if vs == [] then [] else [Elem(lead, TreeOf(vs[0]), [])] + ElemsOf(vs[1..], [0x20])
  }

  ghost function FieldsOf(ms: seq<Member>, lead: seq<Octet>): (fs: seq<Field>)
    requires forall i :: 0 <= i < |ms| ==> PlainText(ms[i].key) && Printable(ms[i].value)
    ensures |fs| == |ms|
    decreases ms
  {
    if ms == [] then [] else
      [Field(lead, PlainItems(ms[0].key), [], Elem([0x20], TreeOf(ms[0].value), []))] + FieldsOf(ms[1..], [0x20])
  }

  lemma {:induction false} TreeRenders(v: Json)
    requires Printable(v)
    ensures LegalTree(TreeOf(v)) && Render(TreeOf(v)) == Print(v) && ValueOf(TreeOf(v)) == v
    decreases v, 0
  {
    hide Has, At, KeyOf, Keyed, Encode, Legal, ElemsOf, FieldsOf, PlainText, Spell, AllLegal, LegalElem, LegalField,
      RenderElems, RenderFields, ValuesOf, MembersOf;
    match v
    case Null =>
    case Bool(b) =>
    case Num(literal) =>
    case Str(x) =>
    case Arr(vs) =>
      if vs != [] {
        ElemsRender(vs, []);
        assert [] + PrintItems(vs) == PrintItems(vs);
      }
    case Obj(ms) =>
      if ms != [] {
        FieldsRender(ms, []);
        assert [] + PrintMembers(ms) == PrintMembers(ms);
      }
  }

  lemma {:induction false} ElemsRender(vs: seq<Json>, lead: seq<Octet>)
    requires vs != [] && (forall i :: 0 <= i < |vs| ==> Printable(vs[i])) && AllBlank(lead)
    ensures forall k :: 0 <= k < |vs| ==> LegalElem(ElemsOf(vs, lead)[k])
    ensures RenderElems(ElemsOf(vs, lead)) == lead + PrintItems(vs) && ValuesOf(ElemsOf(vs, lead)) == vs
    decreases vs, 1
  {
    hide Printable, TreeOf, Render, Print, RenderElems, ValuesOf, LegalTree, ValueOf;
    TreeRenders(vs[0]);
    var e, rest := Elem(lead, TreeOf(vs[0]), []), ElemsOf(vs[1..], [0x20]);
    assert LegalElem(e) && RenderElem(e) == lead + Print(vs[0]);
    NoValues();
    if |vs| > 1 {
      ElemsRender(vs[1..], [0x20]);
      CommaSpace(lead, Print(vs[0]), PrintItems(vs[1..]));
    }
    ElemsNext(e, rest);
    assert vs == [vs[0]] + vs[1..];
  }

  lemma CommaSpace(lead: seq<Octet>, x: seq<Octet>, y: seq<Octet>)
    ensures lead + x + ([0x2C] + ([0x20] + y)) == lead + (x + [0x2C, 0x20] + y)
  {
  }

  lemma {:induction false} FieldRenders(m: Member, lead: seq<Octet>)
    requires PlainText(m.key) && Printable(m.value) && AllBlank(lead)
    ensures LegalTree(TreeOf(m.value)) && ValueOf(TreeOf(m.value)) == m.value
    ensures var f := Field(lead, PlainItems(m.key), [], Elem([0x20], TreeOf(m.value), []));
      LegalField(f) && RenderField(f) == lead + PrintMember(m) && KeyOf(f) == m.key
    decreases m, 1
  {
    hide Printable, TreeOf, Render, Print, LegalTree, PlainText, Spell, AllLegal, ValueOf;
    TreeRenders(m.value);
    var e := Elem([0x20], TreeOf(m.value), []);
    assert LegalElem(e) && RenderElem(e) == [0x20] + Print(m.value);
    var q := Quote(PlainItems(m.key));
    assert q == Quoted(m.key);
    assert lead + (q + ([] + ([0x3A] + ([0x20] + Print(m.value))))) == lead + (q + [0x3A, 0x20] + Print(m.value));
  }

  lemma {:induction false} FieldsRender(ms: seq<Member>, lead: seq<Octet>)
    requires ms != [] && (forall i :: 0 <= i < |ms| ==> PlainText(ms[i].key) && Printable(ms[i].value))
      && AllBlank(lead)
    ensures forall k :: 0 <= k < |ms| ==> LegalField(FieldsOf(ms, lead)[k]) && KeyOf(FieldsOf(ms, lead)[k]) == ms[k].key
    ensures RenderFields(FieldsOf(ms, lead)) == lead + PrintMembers(ms) && MembersOf(FieldsOf(ms, lead)) == ms
    decreases ms, 2
  {
    hide Printable, TreeOf, PlainText, PrintMember, RenderField, RenderFields, MembersOf, LegalField, KeyOf, LegalTree,
      ValueOf;
    FieldRenders(ms[0], lead);
    var f := Field(lead, PlainItems(ms[0].key), [], Elem([0x20], TreeOf(ms[0].value), []));
    var rest := FieldsOf(ms[1..], [0x20]);
    NoValues();
    if |ms| > 1 {
      FieldsRender(ms[1..], [0x20]);
      CommaSpace(lead, PrintMember(ms[0]), PrintMembers(ms[1..]));
    }
    FieldsNext(f, rest);
    assert ms == [ms[0]] + ms[1..];
  }

  /** Reading back what was printed: every printable document, wherever it stands
      in a text, parses to itself. */
  lemma PrintParses(s: seq<Octet>, i: nat, v: Json)
    requires Printable(v) && Has(s, i, Print(v)) && Delimiter(At(s, i + |Print(v)|))
    ensures ParseAny(s, i) == Ok(v, i + |Print(v)|)
  {
    hide Printable, TreeOf, Print, Render, LegalTree, ParseAny, ValueOf, Has, Delimiter;
    TreeRenders(v);
    TreeParses(s, i, TreeOf(v), i + |Print(v)|);
  }

  // ----- Parsed objects -----

  /** No object in the value has a key twice. */
  predicate Keyed(v: Json)
    decreases v
  {
    match v
    case Arr(vs) => forall i :: 0 <= i < |vs| ==> Keyed(vs[i])
    case Obj(ms) => DistinctKeys(ms) && forall i :: 0 <= i < |ms| ==> Keyed(ms[i].value)
    case _ => true
  }

  lemma {:induction false} TreeKeyed(t: Tree)
    requires LegalTree(t)
    ensures Keyed(ValueOf(t))
    decreases t, 0
  {
    hide LegalElem, LegalField, ValuesOf, MembersOf, AllLegal, KeyOf;
    match t
    case Array(es) =>
      ElemsKeyed(es);
    case Object(fs) =>
      FieldsKeyed(fs);
    case _ =>
  }

  lemma {:induction false} ElemsKeyed(es: seq<Elem>)
    requires forall k :: 0 <= k < |es| ==> LegalElem(es[k])
    ensures forall k :: 0 <= k < |ValuesOf(es)| ==> Keyed(ValuesOf(es)[k])
    decreases es, 1
  {
    hide LegalElem, LegalTree, Keyed, ValueOf, ValuesOf;
    NoValues();
    if es != [] {
      ValuesFirst(es);
      TreeKeyed(es[0].tree);
      ElemsKeyed(es[1..]);
    }
  }

  lemma {:induction false} FieldsKeyed(fs: seq<Field>)
    requires forall k :: 0 <= k < |fs| ==> LegalField(fs[k])
    ensures |MembersOf(fs)| == |fs|
    ensures forall k :: 0 <= k < |fs| ==> MembersOf(fs)[k].key == KeyOf(fs[k]) && Keyed(MembersOf(fs)[k].value)
    decreases fs, 1
  {
    hide LegalField, LegalElem, LegalTree, Keyed, ValueOf, MembersOf, KeyOf;
    NoValues();
    if fs != [] {
      MembersFirst(fs);
      TreeKeyed(fs[0].elem.tree);
      FieldsKeyed(fs[1..]);
    }
  }

  /** Whatever parses has no key twice, at any depth. */
  lemma AnyKeyed(s: seq<Octet>, i: nat)
    requires i <= |s|
    ensures ParseAny(s, i).Ok? ==> Keyed(ParseAny(s, i).value)
  {
    hide ParseAny, Keyed, LegalTree, ValueOf, Render;
    if ParseAny(s, i).Ok? {
      var t := TreeSound(s, i);
      TreeKeyed(t);
    }
  }
}
