/** Exactly which values survive being written and read again. The writer prints names
    as they are, so the question is whether some text that is not plain could be read
    back as itself by chance; this module shows that it cannot. */
module SafetensorsExact {
  import opened Json
  import opened JsonGrammar
  import opened JsonPrint
  import opened JsonString
  import opened Options
  import opened Safetensors
  import opened Utf8

  // ----- Where a literal can end -----

  /** Text between two strings of a header: no quotes, no backslashes, and its last
      octet is a space or an opening brace. */
  predicate Filler(z: seq<Octet>) {
    z != [] && (forall k :: 0 <= k < |z| ==> z[k] != 0 && z[k] != 0x22 && z[k] != 0x5C) && z[|z| - 1] in {0x20, 0x7B}
  }

  /** What may come after the closing quote at `c`: filler and the next quote, or no
      quote at all. */
  ghost predicate Follows(h: seq<Octet>, c: nat, z: seq<Octet>) {
    || (Filler(z) && Has(h, c + 1, z) && At(h, c + 1 + |z|) == 0x22)
    || (forall k: nat :: c < k ==> At(h, k) != 0x22)
  }

  /** A search for a quote that begins before `c` stops there or before, unless the
      quote is escaped; then it stops at the next one. */
  lemma {:induction false} SearchPast(h: seq<Octet>, a: nat, c: nat, z: seq<Octet>)
    requires a <= c + 1 && At(h, c) == 0x22 && Filler(z) && Has(h, c + 1, z) && At(h, c + 1 + |z|) == 0x22
    ensures QuoteSearch(h, a) <= c || QuoteSearch(h, a) == c + 1 + |z|
    ensures c < QuoteSearch(h, a) ==> a == c + 1 || (a < c && At(h, c - 1) == 0x5C)
    decreases c + 1 - a
  {
    if a == c + 1 {
      HasAt(h, c + 1, z);
      forall k | a <= k < a + |z| ensures At(h, k) != 0 && At(h, k) != 0x22 && At(h, k) != 0x5C {
        assert At(h, c + 1 + (k - a)) == z[k - a];
      }
      PassPlain(h, a, |z|);
    } else if At(h, a) != 0 && At(h, a) != 0x22 {
      if At(h, a) == 0x5C && At(h, a + 1) != 0 {
        SearchPast(h, a + 2, c, z);
      } else {
        SearchPast(h, a + 1, c, z);
      }
    }
  }

  /** A spelling that ends in one of these ends in that character itself. */
  lemma LastItem(it: Item, b: Octet)
    requires Legal(it) && b in {0x20, 0x7B} && Spelling(it)[|Spelling(it)| - 1] == b
    ensures Encode(Meaning(it)) == [b]
  {
  }

  lemma LastOctet(items: seq<Item>, b: Octet)
    requires AllLegal(items) && b in {0x20, 0x7B} && Spell(items) != [] && Spell(items)[|Spell(items)| - 1] == b
    ensures var x := EncodeAll(Meanings(items)); x != [] && x[|x| - 1] == b
  {
    hide Legal, AllLegal, Spelling, Meaning, Encode, Spell, Meanings, EncodeAll;
    Something(items);
    var front, last := items[..|items| - 1], items[|items| - 1];
    assert items == front + [last];
    FrontLegal(items);
    SpellSnoc(front, last);
    MeaningsSnoc(front, last);
    EndOf(Spell(front), Spelling(last));
    LastItem(last, b);
    EndOf(EncodeAll(Meanings(front)), Encode(Meaning(last)));
  }

  lemma Something(items: seq<Item>)
    requires AllLegal(items) && Spell(items) != []
    ensures items != []
  {
  }

  lemma FrontLegal(items: seq<Item>)
    requires AllLegal(items) && items != []
    ensures AllLegal(items[..|items| - 1]) && Legal(items[|items| - 1])
  {
  }

  lemma EndOf(x: seq<Octet>, y: seq<Octet>)
    requires y != []
    ensures x + y != [] && (x + y)[|x + y| - 1] == y[|y| - 1]
  {
  }

  /** A name that was printed as it is, and is read as itself, is plain. */
  lemma ReadAsItself(h: seq<Octet>, i: nat, x: seq<Octet>, z: seq<Octet>)
    requires Has(h, i, Quoted(x)) && Follows(h, i + 1 + |x|, z)
    requires ParseStr(h, i).Ok? && ParseStr(h, i).value == x
    ensures PlainText(x) && ParseStr(h, i).next == i + |x| + 2
  {
    hide Scan, Spell, Meanings, EncodeAll, QuoteSearch, Filler;
    var c := i + 1 + |x|;
    ScanSound(h, i + 1);
    var (items, e) := Scan(h, i + 1).value;
    SearchAgrees(h, i + 1, items, e);
    EscapesShrink(items);
    QuotedParts(h, i, x);
    LiteralEnds(h, i, x, z, items, e);
    PlainMeanings(items);
  }

  lemma QuotedParts(h: seq<Octet>, i: nat, x: seq<Octet>)
    requires Has(h, i, Quoted(x))
    ensures At(h, i) == 0x22 && Has(h, i + 1, x) && At(h, i + 1 + |x|) == 0x22
  {
    assert Quoted(x) == [0x22] + (x + [0x22]);
    HasSplit(h, i, [0x22], x + [0x22]);
    HasSplit(h, i + 1, x, [0x22]);
    HasOne(h, i, 0x22);
    HasOne(h, i + 1 + |x|, 0x22);
  }

  lemma LiteralEnds(h: seq<Octet>, i: nat, x: seq<Octet>, z: seq<Octet>, items: seq<Item>, e: nat)
    requires Has(h, i, Quoted(x)) && Follows(h, i + 1 + |x|, z) && Literal(h, i + 1, items, e)
    requires e == QuoteSearch(h, i + 1) && EncodeAll(Meanings(items)) == x && i + 1 + |x| <= e
    ensures e == i + 1 + |x|
  {
    hide Spell, Meanings, EncodeAll, QuoteSearch, Filler;
    var c := i + 1 + |x|;
    QuotedParts(h, i, x);
    assert At(h, e) == 0x22;
    if x != [] {
      HasAt(h, i + 1, x);
      assert At(h, i + 1 + (|x| - 1)) == x[|x| - 1];
    }
    if c < e && !(forall k: nat :: c < k ==> At(h, k) != 0x22) {
      SearchPast(h, i + 1, c, z);
      LastOfFiller(h, i, c, z, items, e);
      assert false;
    }
  }

  lemma LastOfFiller(h: seq<Octet>, i: nat, c: nat, z: seq<Octet>, items: seq<Item>, e: nat)
    requires Literal(h, i + 1, items, e) && i + 1 <= c && e == c + 1 + |z| && Filler(z) && Has(h, c + 1, z)
    ensures var x := EncodeAll(Meanings(items)); x != [] && x[|x| - 1] in {0x20, 0x7B}
  {
    hide Meanings, EncodeAll, Spell, Legal, AllLegal;
    var y := Spell(items);
    HasAt(h, i + 1, y);
    HasAt(h, c + 1, z);
    assert At(h, i + 1 + (|y| - 1)) == y[|y| - 1];
    assert At(h, c + 1 + (|z| - 1)) == z[|z| - 1];
    LastOctet(items, z[|z| - 1]);
  }

  // ----- One member after the other -----

  lemma {:induction false} MembersGrow(h: seq<Octet>, i: nat, done: seq<Member>)
    requires At(h, i) != 0 && ParseMembers(h, i, done).Ok?
    ensures ParseMembers(h, i, done).value.Obj? && done <= ParseMembers(h, i, done).value.members
    decreases |h| - i
  {
    hide ParseAny, ParseStr, ParseMembers, Skip, HasKey;
    MemberSeen(h, i, done);
    var k := ParseStr(h, i);
    var v := ParseAny(h, Skip(h, k.next) + 1);
    var t := Skip(h, v.next);
    MemberTurn(h, i, done, k.value, k.next, v.value, v.next);
    if At(h, t) == 0x2C {
      MembersGrow(h, Skip(h, t + 1), done + [Member(k.value, v.value)]);
    }
  }

  /** `ms` are the members that are read from `i` on, after those in `done`. */
  predicate Reads(h: seq<Octet>, i: nat, done: seq<Member>, ms: seq<Member>, n: nat) {
    At(h, i) != 0 && ParseMembers(h, i, done) == Ok(Obj(done + ms), n)
  }

  /** The first of them, and the others. */
  lemma ReadsFirst(h: seq<Octet>, i: nat, done: seq<Member>, ms: seq<Member>, n: nat)
    requires Reads(h, i, done, ms, n)
    ensures ms != [] && ParseStr(h, i).Ok? && ParseStr(h, i).value == ms[0].key && !HasKey(done, ms[0].key)
    ensures var q := Skip(h, ParseStr(h, i).next);
      && At(h, q) == 0x3A && ParseAny(h, q + 1).Ok? && ParseAny(h, q + 1).value == ms[0].value
      && var t := Skip(h, ParseAny(h, q + 1).next);
         || (At(h, t) == 0x7D && ms == [ms[0]] && n == t + 1)
         || (At(h, t) == 0x2C && Reads(h, Skip(h, t + 1), done + [ms[0]], ms[1..], n))
  {
    hide ParseAny, ParseStr, ParseMembers, Skip, HasKey;
    MemberSeen(h, i, done);
    var k := ParseStr(h, i);
    var v := ParseAny(h, Skip(h, k.next) + 1);
    var t, m := Skip(h, v.next), Member(k.value, v.value);
    MemberTurn(h, i, done, k.value, k.next, v.value, v.next);
    if At(h, t) == 0x2C {
      MembersGrow(h, Skip(h, t + 1), done + [m]);
      FirstNew(done, m, ms);
    } else {
      assert (done + [m])[|done|..] == [m] && (done + ms)[|done|..] == ms;
    }
  }

  lemma FirstNew(done: seq<Member>, m: Member, ms: seq<Member>)
    requires done + [m] <= done + ms
    ensures ms != [] && ms[0] == m && done + ms == done + [ms[0]] + ms[1..]
  {
    assert (done + ms)[|done|] == (done + [m])[|done|] == m;
  }

  // ----- Metadata -----

  /** A string after a space. */
  lemma SpaceString(h: seq<Octet>, i: nat)
    requires At(h, i) == 0x20 && At(h, i + 1) == 0x22 && ParseAny(h, i).Ok?
    ensures ParseStr(h, i + 1).Ok? && ParseAny(h, i) == Ok(Str(ParseStr(h, i + 1).value), ParseStr(h, i + 1).next)
  {
    hide ParseStr;
    assert Skip(h, i) == Skip(h, i + 1) == i + 1;
  }

  lemma SkipNone(h: seq<Octet>, i: nat)
    requires !Blank(At(h, i))
    ensures Skip(h, i) == i
  {
  }

  lemma SkipOne(h: seq<Octet>, i: nat)
    requires At(h, i) == 0x20 && !Blank(At(h, i + 1))
    ensures Skip(h, i) == i + 1
  {
  }

  /** How printed members begin and go on. */
  lemma MembersText(h: seq<Octet>, i: nat, ms: seq<Member>)
    requires ms != [] && Has(h, i, PrintMembers(ms))
    ensures Has(h, i, PrintMember(ms[0]))
    ensures |ms| == 1 ==> PrintMembers(ms) == PrintMember(ms[0])
    ensures |ms| > 1 ==>
      var n := i + |PrintMember(ms[0])|;
      && At(h, n) == 0x2C && At(h, n + 1) == 0x20 && Has(h, n + 2, PrintMembers(ms[1..]))
      && |PrintMembers(ms)| == |PrintMember(ms[0])| + 2 + |PrintMembers(ms[1..])|
  {
    hide PrintMember, At, Has;
    if |ms| > 1 {
      HasSplit(h, i, PrintMember(ms[0]) + [0x2C, 0x20], PrintMembers(ms[1..]));
      HasSplit(h, i, PrintMember(ms[0]), [0x2C, 0x20]);
      HasPair(h, i + |PrintMember(ms[0])|, 0x2C, 0x20);
    }
  }

  lemma MemberText(h: seq<Octet>, i: nat, m: Member)
    requires Has(h, i, PrintMember(m))
    ensures Has(h, i, Quoted(m.key)) && At(h, i + |m.key| + 2) == 0x3A && At(h, i + |m.key| + 3) == 0x20
    ensures Has(h, i + |m.key| + 4, Print(m.value)) && |PrintMember(m)| == |m.key| + 4 + |Print(m.value)|
  {
    hide Print, At, Has;
    HasSplit(h, i, Quoted(m.key) + [0x3A, 0x20], Print(m.value));
    HasSplit(h, i, Quoted(m.key), [0x3A, 0x20]);
    HasPair(h, i + |m.key| + 2, 0x3A, 0x20);
  }

  /** Between the members of the metadata. */
  lemma FollowedBy(h: seq<Octet>, c: nat, a: Octet)
    requires At(h, c + 1) == a && a != 0 && a != 0x22 && a != 0x5C && At(h, c + 2) == 0x20 && At(h, c + 3) == 0x22
    ensures Follows(h, c, [a, 0x20])
  {
    HasPair(h, c + 1, a, 0x20);
  }

  /** One entry, which was read as itself. */
  lemma EntryReads(h: seq<Octet>, i: nat, k: Name, v: Name, z: seq<Octet>, key: seq<Octet>, p: nat)
    requires Has(h, i, PrintMember(Member(k, Str(v)))) && Follows(h, i + |k| + 5 + |v|, z)
    requires ParseStr(h, i) == Ok(k, p) && At(h, Skip(h, p)) == 0x3A
    requires ParseAny(h, Skip(h, p) + 1).Ok? && ParseAny(h, Skip(h, p) + 1).value == Str(v)
    ensures PlainText(k) && PlainText(v) && ParseAny(h, Skip(h, p) + 1).next == i + |PrintMember(Member(k, Str(v)))|
  {
    hide ParseStr, ParseAny, Skip, PlainText, Follows, Has;
    MemberText(h, i, Member(k, Str(v)));
    var q := i + |k| + 2;
    QuotedParts(h, i + |k| + 4, v);
    FollowedBy(h, i + 1 + |k|, 0x3A);
    ReadAsItself(h, i, k, [0x3A, 0x20]);
    SkipNone(h, q);
    SpaceString(h, q + 1);
    ReadAsItself(h, q + 2, v, z);
  }

  lemma {:induction false} MetadataFirst(ms: seq<Member>, es: seq<Entry<Name>>)
    requires MetadataOf(ms) == Some(es) && es != []
    ensures ms != [] && ms[0] == Member(es[0].name, Str(es[0].value)) && MetadataOf(ms[1..]) == Some(es[1..])
  {
    var rest := MetadataOf(ms[1..]).value;
    assert es == [Entry(ms[0].key, ms[0].value.chars)] + rest;
    assert es[1..] == rest;
  }

  lemma {:induction false} MetadataWalk(h: seq<Octet>, i: nat, done: seq<Member>, es: seq<Entry<Name>>, ms: seq<Member>,
          n: nat, z: seq<Octet>)
    requires es != [] && Has(h, i, PrintMembers(MetadataMembers(es))) && Reads(h, i, done, ms, n)
      && MetadataOf(ms) == Some(es)
    requires var e := i + |PrintMembers(MetadataMembers(es))|; 0 < e && At(h, e) == 0x7D && Follows(h, e - 1, z)
    ensures forall k :: 0 <= k < |es| ==> PlainText(es[k].name) && PlainText(es[k].value) && !HasKey(done, es[k].name)
    ensures DistinctNames(es) && n == i + |PrintMembers(MetadataMembers(es))| + 1
    decreases |es|
  {
    hide Has, PrintMember, PrintMembers, ParseStr, ParseAny, Skip, PlainText, Follows, HasKey, Reads, MetadataOf;
    var all, m := MetadataMembers(es), Member(es[0].name, Str(es[0].value));
    MembersText(h, i, all);
    ReadsFirst(h, i, done, ms, n);
    MetadataFirst(ms, es);
    var e := i + |PrintMember(m)|;
    EntrySize(m);
    var p := ParseStr(h, i).next;
    if |es| == 1 {
      EntryReads(h, i, m.key, es[0].value, z, m.key, p);
      SkipNone(h, e);
    } else {
      assert all[1..] == MetadataMembers(es[1..]);
      MembersStart(h, e + 2, all[1..]);
      FollowedBy(h, e - 1, 0x2C);
      EntryReads(h, i, m.key, es[0].value, [0x2C, 0x20], m.key, p);
      SkipNone(h, e);
      SkipOne(h, e + 1);
      MetadataWalk(h, e + 2, done + [ms[0]], es[1..], ms[1..], n, z);
      StillDistinct(done, m, es);
    }
  }

  lemma EntrySize(m: Member)
    requires m.value.Str?
    ensures |PrintMember(m)| == |m.key| + 6 + |m.value.chars|
  {
  }

  lemma MembersStart(h: seq<Octet>, i: nat, ms: seq<Member>)
    requires ms != [] && Has(h, i, PrintMembers(ms))
    ensures At(h, i) == 0x22
  {
    hide Has, PrintMember, PrintMembers, Print;
    MembersText(h, i, ms);
    MemberText(h, i, ms[0]);
    QuotedParts(h, i, ms[0].key);
  }

  lemma StillDistinct<T>(done: seq<Member>, m: Member, es: seq<Entry<T>>)
    requires |es| > 1 && m.key == es[0].name && DistinctNames(es[1..])
    requires forall k :: 0 <= k < |es[1..]| ==> !HasKey(done + [m], es[1..][k].name)
    ensures DistinctNames(es) && forall k :: 1 <= k < |es| ==> !HasKey(done, es[k].name)
  {
    forall k | 1 <= k < |es| ensures !HasKey(done, es[k].name) && es[k].name != es[0].name {
      assert es[1..][k - 1] == es[k];
      assert m in done + [m];
      assert forall x :: x in done ==> x in done + [m];
    }
    forall j, k | 0 <= j < k < |es| ensures es[j].name != es[k].name {
      if j > 0 {
        assert es[1..][j - 1] == es[j] && es[1..][k - 1] == es[k];
      }
    }
  }

  // ----- Tensors -----

  const OPENING: seq<Octet> := [0x3A, 0x20, 0x7B]

  /** What a printed tensor looks like around the end of its name. */
  lemma TensorText(h: seq<Octet>, i: nat, x: Name, t: Tensor)
    requires Has(h, i, PrintMember(Member(x, TensorJson(t))))
    ensures Has(h, i, Quoted(x)) && At(h, i + 1 + |x|) == 0x22
    ensures Filler(OPENING) && Has(h, i + |x| + 2, OPENING) && At(h, i + |x| + 5) == 0x22
    ensures Has(h, i + |x| + 4, Print(TensorJson(t)))
    ensures |PrintMember(Member(x, TensorJson(t)))| == |x| + 4 + |Print(TensorJson(t))|
  {
    hide Has, TensorJson;
    var v := TensorJson(t);
    MemberText(h, i, Member(x, v));
    QuotedParts(h, i, x);
    TensorOpens(h, i + |x| + 4, t);
    ThreeOctets(h, i + |x| + 2);
  }

  lemma TensorOpens(h: seq<Octet>, i: nat, t: Tensor)
    requires Has(h, i, Print(TensorJson(t)))
    ensures At(h, i) == 0x7B && At(h, i + 1) == 0x22
  {
    hide Has, PrintMembers;
    var ms := TensorJson(t).members;
    HasSplit(h, i, [0x7B] + PrintMembers(ms), [0x7D]);
    HasSplit(h, i, [0x7B], PrintMembers(ms));
    HasOne(h, i, 0x7B);
    MembersStart(h, i + 1, ms);
  }

  lemma ThreeOctets(h: seq<Octet>, i: nat)
    requires At(h, i) == 0x3A && At(h, i + 1) == 0x20 && At(h, i + 2) == 0x7B
    ensures Has(h, i, OPENING)
  {
    assert h[i..i + 3] == [h[i], h[i + 1], h[i + 2]];
  }

  /** Behind an aligned name the tensor is read as it was printed. */
  lemma TensorReads(h: seq<Octet>, i: nat, x: Name, t: Tensor)
    requires Has(h, i, PrintMember(Member(x, TensorJson(t))))
    requires Delimiter(At(h, i + |PrintMember(Member(x, TensorJson(t)))|))
    ensures Skip(h, i + |x| + 2) == i + |x| + 2
    ensures ParseAny(h, i + |x| + 3) == Ok(TensorJson(t), i + |PrintMember(Member(x, TensorJson(t)))|)
  {
    hide Has, TensorJson, ParseAny, Print, Delimiter;
    MemberText(h, i, Member(x, TensorJson(t)));
    SkipNone(h, i + |x| + 2);
    TensorText(h, i, x, t);
    TensorPrintable(t);
    PrintParses(h, i + |x| + 4, TensorJson(t));
    AfterSpace(h, i + |x| + 3);
  }

  lemma AfterSpace(h: seq<Octet>, i: nat)
    requires At(h, i) == 0x20
    ensures ParseAny(h, i) == ParseAny(h, i + 1)
  {
    assert Skip(h, i) == Skip(h, i + 1);
  }

  lemma {:induction false} HeaderFirst(ms: seq<Member>, ts: seq<Entry<Tensor>>, conv: seq<Octet> -> nat)
    requires HeaderOf(ms, conv) == Some((ts, [])) && ms != []
    ensures ms[0].key != METADATA ==>
      && ts != [] && ts[0].name == ms[0].key && TensorOf(ms[0].value, conv) == Some(ts[0].value)
      && HeaderOf(ms[1..], conv) == Some((ts[1..], []))
    ensures ms[0].key == METADATA ==> ms[0].value == Obj([]) && HeaderOf(ms[1..], conv) == Some((ts, []))
  {
    hide TensorOf;
    var rest := HeaderOf(ms[1..], conv).value;
    if ms[0].key == METADATA {
      var meta := MetadataOf(ms[0].value.members).value;
      assert meta + rest.1 == [];
      assert |meta + rest.1| == |meta| + |rest.1|;
      NoMetadata(ms[0].value.members);
    } else {
      assert ts == [Entry(ms[0].key, TensorOf(ms[0].value, conv).value)] + rest.0;
      assert ts[1..] == rest.0;
    }
  }

  lemma {:induction false} NoMetadata(ms: seq<Member>)
    requires MetadataOf(ms) == Some([])
    ensures ms == []
  {
  }

  // ----- No other reading by chance -----

  predicate NoQuotes(h: seq<Octet>, a: nat, b: nat) {
    forall k: nat :: a <= k < b ==> At(h, k) != 0x22
  }

  lemma {:induction false} BlanksNoQuotes(h: seq<Octet>, i: nat)
    ensures NoQuotes(h, i, Skip(h, i)) && i <= Skip(h, i)
    decreases |h| - i
  {
    if Blank(At(h, i)) {
      BlanksNoQuotes(h, i + 1);
    }
  }

  lemma EmptyObjectNoQuotes(h: seq<Octet>, i: nat, n: nat)
    requires ParseAny(h, i) == Ok(Obj([]), n)
    ensures i <= n && NoQuotes(h, i, n)
  {
    hide ParseStr, ParseNum, Skip, ParseMembers;
    BlanksNoQuotes(h, i);
    var j := Skip(h, i);
    RootKind(h, i);
    BlanksNoQuotes(h, j + 1);
    var k := Skip(h, j + 1);
    if At(h, k) != 0x7D {
      NotEmpty(h, k);
    }
  }

  lemma NotEmpty(h: seq<Octet>, i: nat)
    requires At(h, i) != 0 && ParseMembers(h, i, []).Ok?
    ensures ParseMembers(h, i, []).value.Obj? && ParseMembers(h, i, []).value != Obj([])
  {
    hide ParseMembers;
    MembersGrow(h, i, []);
    var ms := ParseMembers(h, i, []).value.members;
    assert [] + ms == ms;
    ReadsFirst(h, i, [], ms, ParseMembers(h, i, []).next);
  }

  /** How long a literal is at least, and where it ends. */
  lemma LiteralLength(h: seq<Octet>, i: nat)
    requires ParseStr(h, i).Ok?
    ensures At(h, i) == 0x22 && i + 2 + |ParseStr(h, i).value| <= ParseStr(h, i).next
    ensures ParseStr(h, i).next == QuoteSearch(h, i + 1) + 1
  {
    hide Scan, Spell, Meanings, EncodeAll, QuoteSearch;
    ScanSound(h, i + 1);
    var (items, e) := Scan(h, i + 1).value;
    SearchAgrees(h, i + 1, items, e);
    EscapesShrink(items);
  }

  /** A literal that runs over the end of the name does not say __metadata__. */
  lemma NotOver(h: seq<Octet>, i: nat, c: nat)
    requires ParseStr(h, i).Ok? && ParseStr(h, i).value == METADATA && i + 1 <= c && Has(h, c + 1, OPENING)
    ensures ParseStr(h, i).next != c + 5
  {
    hide Scan, Meanings, EncodeAll;
    if ParseStr(h, i).next == c + 5 {
      ScanSound(h, i + 1);
      var (items, e) := Scan(h, i + 1).value;
      LastOfFiller(h, i, c, OPENING, items, e);
      assert false;
    }
  }

  /** The name of the first tensor is not read as __metadata__. */
  lemma NotMetadata(h: seq<Octet>, i: nat, done: seq<Member>, ts: seq<Entry<Tensor>>, ms: seq<Member>, n: nat,
          conv: seq<Octet> -> nat)
    requires ts != [] && Reads(h, i, done, ms, n) && HeaderOf(ms, conv) == Some((ts, []))
    requires Has(h, i, PrintMember(Member(ts[0].name, TensorJson(ts[0].value))))
    requires Delimiter(At(h, i + |PrintMember(Member(ts[0].name, TensorJson(ts[0].value)))|))
    ensures ms != [] && ms[0].key != METADATA
  {
    hide Has, PrintMember, ParseStr, ParseAny, Skip, Reads, HeaderOf, Delimiter, QuoteSearch, HasKey, TensorJson;
    ReadsFirst(h, i, done, ms, n);
    if ms[0].key == METADATA {
      var x := ts[0].name;
      var c := i + 1 + |x|;
      HeaderFirst(ms, ts, conv);
      TensorText(h, i, x, ts[0].value);
      TensorReads(h, i, x, ts[0].value);
      TensorNotEmpty(ts[0].value);
      LiteralLength(h, i);
      SearchPast(h, i + 1, c, OPENING);
      NotOver(h, i, c);
      NoSecondName(h, i, done, ts, ms, n, conv);
      assert false;
    }
  }

  lemma TensorNotEmpty(t: Tensor)
    ensures TensorJson(t) != Obj([])
  {
  }

  /** If __metadata__ is read inside the name, no later literal can be the name. */
  lemma NoSecondName(h: seq<Octet>, i: nat, done: seq<Member>, ts: seq<Entry<Tensor>>, ms: seq<Member>, n: nat,
          conv: seq<Octet> -> nat)
    requires ts != [] && Reads(h, i, done, ms, n) && ms != [] && ms[0].key == METADATA && ms[0].value == Obj([])
    requires HeaderOf(ms[1..], conv) == Some((ts, [])) && ParseStr(h, i).Ok?
    requires At(h, i + 1 + |ts[0].name|) == 0x22 && Filler(OPENING)
    requires Has(h, i + |ts[0].name| + 2, OPENING) && At(h, i + |ts[0].name| + 5) == 0x22
    ensures i + 1 + |ts[0].name| < ParseStr(h, i).next
  {
    hide Has, ParseStr, ParseAny, Skip, Reads, HeaderOf, QuoteSearch, HasKey, NoQuotes;
    var c, p := i + 1 + |ts[0].name|, ParseStr(h, i).next;
    var u := NameAfterMetadata(h, i, done, ts, ms, n, conv);
    if p <= c {
      BeforeQuote(h, p, u, c);
      SearchPast(h, u + 1, c, OPENING);
      assert false;
    }
  }

  /** Behind an empty __metadata__ the name of the first tensor follows, and no quote comes in between. */
  lemma NameAfterMetadata(h: seq<Octet>, i: nat, done: seq<Member>, ts: seq<Entry<Tensor>>, ms: seq<Member>, n: nat,
          conv: seq<Octet> -> nat) returns (u: nat)
    requires ts != [] && Reads(h, i, done, ms, n) && ms != [] && ms[0].key == METADATA && ms[0].value == Obj([])
    requires HeaderOf(ms[1..], conv) == Some((ts, [])) && ParseStr(h, i).Ok?
    ensures i + 2 + |METADATA| <= ParseStr(h, i).next < u && NoQuotes(h, ParseStr(h, i).next, u)
    ensures u + 1 + |ts[0].name| <= QuoteSearch(h, u + 1)
  {
    hide Has, ParseStr, ParseAny, Skip, Reads, HeaderOf, QuoteSearch, HasKey;
    var p := ParseStr(h, i).next;
    ReadsFirst(h, i, done, ms, n);
    LiteralLength(h, i);
    u := Skip(h, Skip(h, ParseAny(h, Skip(h, p) + 1).next) + 1);
    MoreThanOne(ms, ts, conv);
    NoQuotesBetween(h, p);
    hide NoQuotes;
    ReadsFirst(h, u, done + [ms[0]], ms[1..], n);
    KeyThere(done, ms[0]);
    HeaderFirst(ms[1..], ts, conv);
    LiteralLength(h, u);
  }

  /** Between the key __metadata__ and the next key there is no quote. */
  lemma NoQuotesBetween(h: seq<Octet>, p: nat)
    requires At(h, Skip(h, p)) == 0x3A && ParseAny(h, Skip(h, p) + 1).Ok?
      && ParseAny(h, Skip(h, p) + 1).value == Obj([])
    requires At(h, Skip(h, ParseAny(h, Skip(h, p) + 1).next)) == 0x2C
    ensures var u := Skip(h, Skip(h, ParseAny(h, Skip(h, p) + 1).next) + 1); p < u && NoQuotes(h, p, u)
  {
    hide ParseAny, Skip;
    var q := Skip(h, p);
    var n := ParseAny(h, q + 1).next;
    BlanksNoQuotes(h, p);
    EmptyObjectNoQuotes(h, q + 1, n);
    BlanksNoQuotes(h, n);
    BlanksNoQuotes(h, Skip(h, n) + 1);
  }

  lemma BeforeQuote(h: seq<Octet>, p: nat, u: nat, c: nat)
    requires NoQuotes(h, p, u) && p <= c && At(h, c) == 0x22
    ensures u <= c
  {
  }

  lemma {:induction false} MoreThanOne(ms: seq<Member>, ts: seq<Entry<Tensor>>, conv: seq<Octet> -> nat)
    requires ms != [] && ts != [] && HeaderOf(ms[1..], conv) == Some((ts, []))
    ensures |ms| > 1
  {
    assert ms[1..] != [];
  }

  lemma KeyThere(done: seq<Member>, m: Member)
    ensures HasKey(done + [m], m.key)
  {
    assert m in done + [m];
  }

  // ----- The whole header -----

  /** What the reader demands of the tensors. */
  ghost predicate TensorsFine(done: seq<Member>, ts: seq<Entry<Tensor>>) {
    && DistinctNames(ts)
    && forall k :: 0 <= k < |ts| ==>
         && PlainText(ts[k].name) && ts[k].name != METADATA && !HasKey(done, ts[k].name)
         && |ts[k].value.shape| <= 8 && 0 !in ts[k].value.shape
  }

  /** One tensor that was read as itself. */
  lemma TensorWalk(h: seq<Octet>, i: nat, done: seq<Member>, ts: seq<Entry<Tensor>>, ms: seq<Member>, n: nat,
          conv: seq<Octet> -> nat)
    requires ts != [] && Reads(h, i, done, ms, n) && HeaderOf(ms, conv) == Some((ts, []))
    requires Has(h, i, PrintMember(Member(ts[0].name, TensorJson(ts[0].value))))
    requires Delimiter(At(h, i + |PrintMember(Member(ts[0].name, TensorJson(ts[0].value)))|))
    ensures PlainText(ts[0].name) && ts[0].name != METADATA && !HasKey(done, ts[0].name)
    ensures |ts[0].value.shape| <= 8 && 0 !in ts[0].value.shape
    ensures ms != [] && ms[0].key == ts[0].name && HeaderOf(ms[1..], conv) == Some((ts[1..], []))
    ensures
      var t := Skip(h, i + |PrintMember(Member(ts[0].name, TensorJson(ts[0].value)))|);
      || (At(h, t) == 0x7D && ms == [ms[0]] && n == t + 1)
      || (At(h, t) == 0x2C && Reads(h, Skip(h, t + 1), done + [ms[0]], ms[1..], n))
  {
    hide Has, PrintMember, ParseStr, ParseAny, Skip, Reads, HeaderOf, Delimiter, HasKey, TensorJson, TensorOf,
      PlainText;
    var x, t := ts[0].name, ts[0].value;
    NotMetadata(h, i, done, ts, ms, n, conv);
    ReadsFirst(h, i, done, ms, n);
    HeaderFirst(ms, ts, conv);
    TensorText(h, i, x, t);
    ReadAsItself(h, i, x, OPENING);
    TensorReads(h, i, x, t);
    TensorBack(t, conv);
  }

  lemma {:induction false} TensorsWalk(h: seq<Octet>, i: nat, done: seq<Member>, ts: seq<Entry<Tensor>>,
          ms: seq<Member>,
          n: nat, conv: seq<Octet> -> nat)
    requires ts != [] && Has(h, i, PrintMembers(TensorMembers(ts))) && Reads(h, i, done, ms, n)
    requires HeaderOf(ms, conv) == Some((ts, [])) && At(h, i + |PrintMembers(TensorMembers(ts))|) == 0x7D
    ensures TensorsFine(done, ts)
    decreases |ts|
  {
    hide Has, PrintMember, PrintMembers, ParseStr, ParseAny, Skip, Reads, HeaderOf, HasKey, TensorJson, PlainText;
    var all, m := TensorMembers(ts), Member(ts[0].name, TensorJson(ts[0].value));
    MembersText(h, i, all);
    var e := i + |PrintMember(m)|;
    TensorWalk(h, i, done, ts, ms, n, conv);
    if |ts| > 1 {
      assert all[1..] == TensorMembers(ts[1..]);
      MembersStart(h, e + 2, all[1..]);
      SkipNone(h, e);
      SkipOne(h, e + 1);
      TensorsWalk(h, e + 2, done + [ms[0]], ts[1..], ms[1..], n, conv);
      StillDistinct(done, ms[0], ts);
      assert forall k :: 1 <= k < |ts| ==> ts[k] == ts[1..][k - 1];
    }
  }

  /** Which values can be written and read back, numbers aside. */
  ghost predicate Loadable(st: Safetensors) {
    && PlainNames(st) && DistinctNames(st.tensors) && DistinctNames(st.metadata)
    && (forall k :: 0 <= k < |st.tensors| ==>
          st.tensors[k].name != METADATA && |st.tensors[k].value.shape| <= 8 && 0 !in st.tensors[k].value.shape)
    && |Padded(Print(HeaderJson(st)))| <= 0x640_0000
  }

  /** An object that does not begin with a closing brace. */
  lemma ObjectReads(h: seq<Octet>, i: nat, n: nat, ms: seq<Member>)
    requires At(h, i) == 0x7B && At(h, i + 1) == 0x22 && ParseAny(h, i) == Ok(Obj(ms), n)
    ensures Reads(h, i + 1, [], ms, n)
  {
    hide ParseMembers;
    SkipNone(h, i);
    SkipNone(h, i + 1);
    assert [] + ms == ms;
  }

  lemma {:induction false} NoMoreMetadata(ms: seq<Member>, conv: seq<Octet> -> nat)
    requires HeaderOf(ms, conv).Some? && forall k :: 0 <= k < |ms| ==> ms[k].key != METADATA
    ensures HeaderOf(ms, conv).value.1 == []
  {
    hide TensorOf;
    if ms != [] {
      NoMoreMetadata(ms[1..], conv);
    }
  }

  /** The header's braces and what lies between them. */
  lemma HeaderLayout(st: Safetensors, all: seq<Member>)
    requires HeaderJson(st) == Obj(all)
    ensures var h := Padded(Print(HeaderJson(st)));
      && At(h, 0) == 0x7B && Has(h, 1, PrintMembers(all)) && At(h, 1 + |PrintMembers(all)|) == 0x7D
      && forall k: nat :: 1 + |PrintMembers(all)| < k ==> At(h, k) != 0x22
  {
    hide PrintMembers;
    var t := PrintMembers(all);
    var text := Print(HeaderJson(st));
    var h := Padded(text);
    assert text == [0x7B] + t + [0x7D];
    assert h[0..0 + |text|] == text;
    HasSplit(h, 0, [0x7B] + t, [0x7D]);
    HasSplit(h, 0, [0x7B], t);
    HasOne(h, 0, 0x7B);
    HasOne(h, 1 + |t|, 0x7D);
    forall k: nat | 1 + |t| < k ensures At(h, k) != 0x22 {
      if k < |h| {
        assert h[k] == 0x20;
      }
    }
  }

  lemma {:induction false} HeaderSplits(ms: seq<Member>, ts: seq<Entry<Tensor>>, es: seq<Entry<Name>>,
          conv: seq<Octet> -> nat)
    requires HeaderOf(ms, conv) == Some((ts, es)) && ms != [] && ms[0].key == METADATA && DistinctKeys(ms)
    ensures ms[0].value.Obj? && MetadataOf(ms[0].value.members) == Some(es) && HeaderOf(ms[1..], conv) == Some((ts, []))
  {
    hide TensorOf, MetadataOf;
    NoMoreMetadata(ms[1..], conv);
    var meta := MetadataOf(ms[0].value.members).value;
    assert meta + [] == meta;
  }

  /** Without metadata there are only tensors. */
  lemma WithoutMetadata(st: Safetensors, ms: seq<Member>, n: nat, conv: seq<Octet> -> nat)
    requires st.metadata == [] && st.tensors != []
    requires ParseAny(Padded(Print(HeaderJson(st))), 0) == Ok(Obj(ms), n)
      && HeaderOf(ms, conv) == Some((st.tensors, []))
    ensures TensorsFine([], st.tensors)
  {
    hide Has, Padded, Print, PrintMembers, ParseAny, HeaderOf, Reads, TensorsFine;
    var h, all := Padded(Print(HeaderJson(st))), TensorMembers(st.tensors);
    assert HeaderJson(st).members == all;
    HeaderLayout(st, all);
    MembersStart(h, 1, all);
    ObjectReads(h, 0, n, ms);
    TensorsWalk(h, 1, [], st.tensors, ms, n, conv);
  }

  /** The metadata object, printed and read. */
  lemma MetadataValue(h: seq<Octet>, i: nat, es: seq<Entry<Name>>, ms: seq<Member>, n: nat, z: seq<Octet>)
    requires es != [] && Has(h, i, Print(Obj(MetadataMembers(es)))) && ParseAny(h, i) == Ok(Obj(ms), n)
    requires MetadataOf(ms) == Some(es) && Follows(h, i + |Print(Obj(MetadataMembers(es)))| - 2, z)
    ensures forall k :: 0 <= k < |es| ==> PlainText(es[k].name) && PlainText(es[k].value)
    ensures DistinctNames(es) && n == i + |Print(Obj(MetadataMembers(es)))|
  {
    hide Has, PrintMembers, ParseAny, Reads, MetadataOf, PlainText, Follows;
    var all := MetadataMembers(es);
    var t := PrintMembers(all);
    HasSplit(h, i, [0x7B] + t, [0x7D]);
    HasSplit(h, i, [0x7B], t);
    HasOne(h, i, 0x7B);
    HasOne(h, i + 1 + |t|, 0x7D);
    MembersStart(h, i + 1, all);
    ObjectReads(h, i, n, ms);
    MetadataWalk(h, i + 1, [], es, ms, n, z);
  }

  /** What follows the metadata: a tensor, or the end. */
  lemma AfterMetadata(h: seq<Octet>, e: nat, more: bool) returns (z: seq<Octet>)
    requires 2 <= e && At(h, e - 1) == 0x7D
    requires more ==> At(h, e) == 0x2C && At(h, e + 1) == 0x20 && At(h, e + 2) == 0x22
    requires !more ==> At(h, e) == 0x7D && forall k: nat :: e < k ==> At(h, k) != 0x22
    ensures Follows(h, e - 2, z)
  {
    z := [0x7D, 0x2C, 0x20];
    if more {
      assert h[e - 1..e + 2] == [h[e - 1], h[e], h[e + 1]];
    } else {
      forall k: nat | e - 2 < k ensures At(h, k) != 0x22 {
      }
    }
  }

  /** The key of the metadata is read as it was printed. */
  lemma MetadataKey(h: seq<Octet>, i: nat, v: Json)
    requires Has(h, i, PrintMember(Member(METADATA, v)))
    ensures ParseStr(h, i) == Ok(METADATA, i + 14) && Skip(h, i + 14) == i + 14 && At(h, i + 14) == 0x3A
    ensures ParseAny(h, i + 15) == ParseAny(h, i + 16) && Has(h, i + 16, Print(v))
    ensures |PrintMember(Member(METADATA, v))| == 16 + |Print(v)|
  {
    hide Has, Print, ParseAny, ParseStr, PlainText, Skip;
    MemberText(h, i, Member(METADATA, v));
    KeysPlain(BOOL);
    PlainReads(h, i, METADATA);
    SkipNone(h, i + 14);
    AfterSpace(h, i + 15);
  }

  lemma WithMetadata(st: Safetensors, ms: seq<Member>, n: nat, conv: seq<Octet> -> nat)
    requires st.metadata != [] && DistinctKeys(ms)
    requires ParseAny(Padded(Print(HeaderJson(st))), 0) == Ok(Obj(ms), n)
    requires HeaderOf(ms, conv) == Some((st.tensors, st.metadata))
    ensures forall k :: 0 <= k < |st.metadata| ==> PlainText(st.metadata[k].name) && PlainText(st.metadata[k].value)
    ensures DistinctNames(st.metadata) && (st.tensors != [] ==> exists done :: TensorsFine(done, st.tensors))
  {
    hide Has, Padded, Print, PrintMember, PrintMembers, ParseAny, ParseStr, HeaderOf, MetadataOf, Reads, TensorsFine,
      PlainText, Follows, Skip, HasKey, DistinctKeys;
    var h, meta, ts := Padded(Print(HeaderJson(st))), Obj(MetadataMembers(st.metadata)), TensorMembers(st.tensors);
    var all := [Member(METADATA, meta)] + ts;
    assert HeaderJson(st) == Obj(all);
    HeaderLayout(st, all);
    MembersStart(h, 1, all);
    ObjectReads(h, 0, n, ms);
    MembersText(h, 1, all);
    MetadataKey(h, 1, meta);
    ReadsFirst(h, 1, [], ms, n);
    HeaderSplits(ms, st.tensors, st.metadata, conv);
    var e := 17 + |Print(meta)|;
    ObjectCloses(h, 17, MetadataMembers(st.metadata));
    if st.tensors != [] {
      assert all[1..] == ts;
      MembersStart(h, e + 2, ts);
    } else {
      assert all == [Member(METADATA, meta)];
    }
    var z := AfterMetadata(h, e, st.tensors != []);
    MetadataValue(h, 17, st.metadata, ms[0].value.members, ParseAny(h, 17).next, z);
    if st.tensors != [] {
      SkipNone(h, e);
      SkipOne(h, e + 1);
      assert [] + [ms[0]] == [ms[0]];
      TensorsWalk(h, e + 2, [ms[0]], st.tensors, ms[1..], n, conv);
    }
  }

  lemma ObjectCloses(h: seq<Octet>, i: nat, ms: seq<Member>)
    requires Has(h, i, Print(Obj(ms)))
    ensures |Print(Obj(ms))| >= 2 && At(h, i + |Print(Obj(ms))| - 1) == 0x7D
  {
    hide Has, PrintMembers;
    var t := PrintMembers(ms);
    HasSplit(h, i, [0x7B] + t, [0x7D]);
    HasOne(h, i + 1 + |t|, 0x7D);
  }

  /** A value that comes back from its container was loadable. */
  lemma LoadedIsLoadable(st: Safetensors, conv: seq<Octet> -> nat)
    requires Load(Container(st), conv) == Some(st)
    ensures Loadable(st)
  {
    hide ParseAny, HeaderOf, Print, FromLe, Le, Padded, PlainText;
    var bytes, h := Container(st), Padded(Print(HeaderJson(st)));
    var size := FromLe(bytes[..8]);
    assert |bytes| == 8 + |h| + |st.storage|;
    assert |bytes[8 + size..]| == |st.storage|;
    assert bytes[8..8 + size] == h;
    var root := ParseAny(h, 0);
    HeaderLayout(st, HeaderJson(st).members);
    SkipNone(h, 0);
    RootKind(h, 0);
    hide Container, Load;
    AnyKeyed(h, 0);
    RootKeyed(root.value);
    HeaderLoadable(st, root.value.members, root.next, conv);
  }

  lemma RootKeyed(v: Json)
    requires Keyed(v) && v.Obj?
    ensures DistinctKeys(v.members)
  {
  }

  lemma HeaderLoadable(st: Safetensors, ms: seq<Member>, n: nat, conv: seq<Octet> -> nat)
    requires ParseAny(Padded(Print(HeaderJson(st))), 0) == Ok(Obj(ms), n) && DistinctKeys(ms)
    requires HeaderOf(ms, conv) == Some((st.tensors, st.metadata)) && |Padded(Print(HeaderJson(st)))| <= 0x640_0000
    ensures Loadable(st)
  {
    hide ParseAny, HeaderOf, Print, Padded, PlainText, DistinctKeys, HasKey;
    if st.metadata != [] {
      WithMetadata(st, ms, n, conv);
    } else if st.tensors != [] {
      WithoutMetadata(st, ms, n, conv);
    }
  }

  /** Writing then reading gives a value back if and only if it is loadable (all names
      and metadata values are plain text, no name occurs twice, none is __metadata__,
      no tensor has a zero dimension or more than eight, and the header is not too
      long) and the conversion gives every dimension and offset back. */
  lemma RoundTripExact(st: Safetensors, conv: seq<Octet> -> nat)
    ensures Load(Container(st), conv) == Some(st) <==> Loadable(st) && KeptTensors(st.tensors, conv)
  {
    hide Load, Container, KeptTensors;
    if Load(Container(st), conv) == Some(st) {
      LoadedIsLoadable(st, conv);
    }
    if Loadable(st) {
      LoadableIsWritable(st);
      RoundTrip(st, conv);
    }
  }

  lemma LoadableIsWritable(st: Safetensors)
    requires Loadable(st)
    ensures Writable(st) && !HasEmpty(st.tensors)
  {
    hide PlainNames, Print, Padded;
  }

  /** With numbers below 2^53 and a conversion through doubles, being loadable is enough. */
  lemma SmallRoundTrip(st: Safetensors, conv: seq<Octet> -> nat)
    requires ExactBelow53(conv) && SmallNumbers(st.tensors)
    ensures Load(Container(st), conv) == Some(st) <==> Loadable(st)
  {
    hide Load, Container, KeptTensors, Loadable;
    SmallIsKept(st.tensors, conv);
    RoundTripExact(st, conv);
  }
}
