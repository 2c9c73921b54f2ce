/** The JSON parser of the safetensors reader, over NUL-terminated text. */
module Json {
  import opened Options
  import opened Utf8
  import opened JsonString

  /** A parsed value. A number keeps its literal; an object keeps its members in the
      order they were written. */
  datatype Json =
    | Null
    | Bool(b: bool)
    | Num(literal: seq<Octet>)
    | Str(chars: seq<Octet>)
    | Arr(items: seq<Json>)
    | Obj(members: seq<Member>)

  datatype Member = Member(key: seq<Octet>, value: Json)

  datatype Error = InvalidToken | Corrupted | DuplicatedKey | Undefined

  /** A value and the position after it, or an error. */
  datatype Result<+T> = Ok(value: T, next: nat) | Err(error: Error)

  predicate Blank(c: nat) {
    c == 0x0D || c == 0x0A || c == 0x20 || c == 0x09
  }

  /** What may follow a string, a number or a word; a tab may not. */
  predicate Delimiter(c: nat) {
    c == 0 || c == 0x3A || c == 0x2C || c == 0x7D || c == 0x5D || c == 0x0D || c == 0x0A || c == 0x20
  }

  function Skip(s: seq<Octet>, i: nat): (j: nat)
    ensures i <= j && (i < j ==> j <= |s|)
    decreases |s| - i
  {
    if Blank(At(s, i)) then Skip(s, i + 1) else i
  }

  // ----- What is parsed -----

  function ParseStr(s: seq<Octet>, i: nat): (r: Result<seq<Octet>>)
    ensures r.Ok? ==> i < r.next <= |s|
  {
    if At(s, i) != 0x22 then Err(InvalidToken) else
      match Scan(s, i + 1)
      case None => Err(InvalidToken)
      case Some((items, e)) =>
        ScanSound(s, i + 1);
        if Delimiter(At(s, e + 1)) then Ok(EncodeAll(Meanings(items)), e + 1) else Err(InvalidToken)
  }

  predicate IsNum(c: nat) {
    0x30 <= c <= 0x39
  }

  predicate IsHex(c: nat) {
    IsNum(c) || 0x61 <= c <= 0x66 || 0x41 <= c <= 0x46
  }

  function Nums(s: seq<Octet>, i: nat): (j: nat)
    ensures i <= j && (i < j ==> j <= |s|)
    decreases |s| - i
  {
    if IsNum(At(s, i)) then Nums(s, i + 1) else i
  }

  function Hexes(s: seq<Octet>, i: nat): (j: nat)
    ensures i <= j && (i < j ==> j <= |s|)
    decreases |s| - i
  {
    if IsHex(At(s, i)) then Hexes(s, i + 1) else i
  }

  /** After `mark`, at least one digit; None if there is none. */
  function Part(s: seq<Octet>, i: nat, mark: nat): (r: Option<nat>)
    requires mark != 0
    ensures r.Some? ==> i <= r.value && (i < r.value ==> r.value <= |s|)
  {
    if At(s, i) != mark then Some(i)
    else if IsNum(At(s, i + 1)) then Some(Nums(s, i + 1))
    else None
  }

  /** Where the number literal at `i` ends. */
  function NumberEnd(s: seq<Octet>, i: nat): (r: Option<nat>)
    ensures r.Some? ==> i <= r.value && (i < r.value ==> r.value <= |s|)
  {
    var p := if At(s, i) == 0x2D then i + 1 else i;
    if At(s, p) == 0x30 && At(s, p + 1) == 0x78 && IsHex(At(s, p + 2)) then Some(Hexes(s, p + 3))
    else match Part(s, Nums(s, p), 0x2E)
      case None => None
      case Some(q) => Part(s, q, 0x65)
  }

  function ParseNum(s: seq<Octet>, i: nat): (r: Result<Json>)
    requires At(s, i) == 0x2D || IsNum(At(s, i))
    ensures r.Ok? ==> i < r.next <= |s|
  {
    match NumberEnd(s, i)
    case None => Err(InvalidToken)
    case Some(e) =>
      NumberMoves(s, i);
      if Delimiter(At(s, e)) then Ok(Num(s[i..e]), e) else Err(InvalidToken)
  }

  lemma NumberMoves(s: seq<Octet>, i: nat)
    requires At(s, i) == 0x2D || IsNum(At(s, i))
    ensures NumberEnd(s, i).Some? ==> i < NumberEnd(s, i).value <= |s|
  {
  }

  /** `word` at position `i`, which a delimiter must follow. */
  function ParseWord(s: seq<Octet>, i: nat, word: seq<Octet>, v: Json): (r: Result<Json>)
    requires word != []
    ensures r.Ok? ==> i < r.next <= |s|
  {
    if Has(s, i, word) && Delimiter(At(s, i + |word|)) then Ok(v, i + |word|) else Err(Undefined)
  }

  const NULL: seq<Octet> := [0x6E, 0x75, 0x6C, 0x6C]
  const TRUE: seq<Octet> := [0x74, 0x72, 0x75, 0x65]
  const FALSE: seq<Octet> := [0x66, 0x61, 0x6C, 0x73, 0x65]

  predicate HasKey(ms: seq<Member>, key: seq<Octet>) {
    exists m :: m in ms && m.key == key
  }

  function ParseAny(s: seq<Octet>, i: nat): (r: Result<Json>)
    ensures r.Ok? ==> i < r.next <= |s|
    decreases |s| - i, 2
  {
    var j := Skip(s, i);
    var c := At(s, j);
    if c == 0x7B then ParseObj(s, j)
    else if c == 0x5B then ParseArr(s, j)
    else if c == 0x74 then ParseWord(s, j, TRUE, Bool(true))
    else if c == 0x66 then ParseWord(s, j, FALSE, Bool(false))
    else if c == 0x6E then ParseWord(s, j, NULL, Null)
    else if c == 0x2D || IsNum(c) then ParseNum(s, j)
    else if c == 0x22 then
      match ParseStr(s, j)
      case Ok(x, n) => Ok(Str(x), n)
      case Err(e) => Err(e)
    else Err(InvalidToken)
  }

  function ParseObj(s: seq<Octet>, i: nat): (r: Result<Json>)
    requires At(s, i) == 0x7B
    ensures r.Ok? ==> i < r.next <= |s|
    decreases |s| - i, 1
  {
    var j := Skip(s, i + 1);
    if At(s, j) == 0 then Err(Corrupted)
    else if At(s, j) == 0x7D then Ok(Obj([]), j + 1)
    else ParseMembers(s, j, [])
  }

  /** The members from position `i` to the closing brace, after those in `ms`. */
  function ParseMembers(s: seq<Octet>, i: nat, ms: seq<Member>): (r: Result<Json>)
    requires At(s, i) != 0
    ensures r.Ok? ==> i < r.next <= |s|
    decreases |s| - i, 0
  {
    match ParseStr(s, i)
    case Err(e) => Err(e)
    case Ok(key, p) =>
      var q := Skip(s, p);
      if At(s, q) == 0 then Err(Corrupted)
      else if At(s, q) != 0x3A then Err(InvalidToken)
      else match ParseAny(s, q + 1)
        case Err(e) => Err(e)
        case Ok(v, n) =>
          if HasKey(ms, key) then Err(DuplicatedKey) else
            var ms' := ms + [Member(key, v)];
            var t := Skip(s, n);
            if At(s, t) == 0 then Err(Corrupted)
            else if At(s, t) == 0x7D then Ok(Obj(ms'), t + 1)
            else if At(s, t) != 0x2C then Err(InvalidToken)
            else
              var u := Skip(s, t + 1);
              if At(s, u) == 0 then Err(Corrupted) else ParseMembers(s, u, ms')
  }

  function ParseArr(s: seq<Octet>, i: nat): (r: Result<Json>)
    requires At(s, i) == 0x5B
    ensures r.Ok? ==> i < r.next <= |s|
    decreases |s| - i, 1
  {
    var j := Skip(s, i + 1);
    if At(s, j) == 0 then Err(Corrupted)
    else if At(s, j) == 0x5D then Ok(Arr([]), j + 1)
    else ParseItems(s, j, [])
  }

  function ParseItems(s: seq<Octet>, i: nat, vs: seq<Json>): (r: Result<Json>)
    requires At(s, i) != 0
    ensures r.Ok? ==> i < r.next <= |s|
    decreases |s| - i, 3
  {
    match ParseAny(s, i)
    case Err(e) => Err(e)
    case Ok(v, n) =>
      var vs' := vs + [v];
      var t := Skip(s, n);
      if At(s, t) == 0 then Err(Corrupted)
      else if At(s, t) == 0x5D then Ok(Arr(vs'), t + 1)
      else if At(s, t) != 0x2C then Err(InvalidToken)
      else
        var u := Skip(s, t + 1);
        if At(s, u) == 0 then Err(Corrupted) else ParseItems(s, u, vs')
  }

  // ----- The parser -----

  method SkipBlanks(s: seq<Octet>, i: nat) returns (j: nat)
    ensures j == Skip(s, i)
  {
    j := i;
    while Blank(At(s, j))
      invariant i <= j && Skip(s, i) == Skip(s, j)
      decreases |s| - j
    {
      j := j + 1;
    }
  }

  method SkipNums(s: seq<Octet>, i: nat) returns (j: nat)
    ensures j == Nums(s, i)
  {
    j := i;
    while IsNum(At(s, j))
      invariant i <= j && Nums(s, i) == Nums(s, j)
      decreases |s| - j
    {
      j := j + 1;
    }
  }

  method SkipHexes(s: seq<Octet>, i: nat) returns (j: nat)
    ensures j == Hexes(s, i)
  {
    j := i;
    while IsHex(At(s, j))
      invariant i <= j && Hexes(s, i) == Hexes(s, j)
      decreases |s| - j
    {
      j := j + 1;
    }
  }

  /** The search for the closing quote in parse_string. */
  method FindQuote(s: seq<Octet>, i: nat) returns (j: nat)
    ensures j == QuoteSearch(s, i)
  {
    j := i;
    while At(s, j) != 0 && At(s, j) != 0x22
      invariant i <= j && QuoteSearch(s, i) == QuoteSearch(s, j)
      decreases |s| - j
    {
      if At(s, j) == 0x5C && At(s, j + 1) != 0 {
        j := j + 1;
      }
      j := j + 1;
    }
  }

  /** parse_string: cut the literal out by searching for its closing quote, then
      scan the slice. The outcome is that of scanning the text itself. */
  method ReadString(s: seq<Octet>, i: nat) returns (r: Result<seq<Octet>>)
    ensures r == ParseStr(s, i)
  {
    hide Scan, QuoteSearch, EncodeAll, Meanings;
    if At(s, i) != 0x22 { return Err(InvalidToken); }
    var j := FindQuote(s, i + 1);
    SearchForward(s, i + 1);
    if At(s, j) == 0 {
      NoLiteral(s, i);
      return Err(InvalidToken);
    }
    SliceAgrees(s, i, j);
    if !Delimiter(At(s, j + 1)) { return Err(InvalidToken); }
    var parser := new StringParser(s[i..j + 1]);
    var ok := parser.ScanString();
    if !ok { return Err(InvalidToken); }
    r := Ok(parser.token, j + 1);
  }

  lemma {:induction false} SearchForward(s: seq<Octet>, i: nat)
    ensures i <= QuoteSearch(s, i) && (At(s, QuoteSearch(s, i)) == 0 || At(s, QuoteSearch(s, i)) == 0x22)
    decreases |s| - i
  {
    if At(s, i) != 0 && At(s, i) != 0x22 {
      if At(s, i) == 0x5C && At(s, i + 1) != 0 {
        SearchForward(s, i + 2);
      } else {
        SearchForward(s, i + 1);
      }
    }
  }

  lemma NoLiteral(s: seq<Octet>, i: nat)
    requires At(s, QuoteSearch(s, i + 1)) == 0
    ensures Scan(s, i + 1).None?
  {
    hide Scan, QuoteSearch;
    if Scan(s, i + 1).Some? {
      ScanSound(s, i + 1);
      SearchAgrees(s, i + 1, Scan(s, i + 1).value.0, Scan(s, i + 1).value.1);
    }
  }

  method SkipPart(s: seq<Octet>, i: nat, mark: nat) returns (r: Option<nat>)
    requires mark != 0
    ensures r == Part(s, i, mark)
  {
    if At(s, i) != mark { return Some(i); }
    if !IsNum(At(s, i + 1)) { return None; }
    var j := SkipNums(s, i + 1);
    r := Some(j);
  }

  /** parse_number */
  method ReadNumber(s: seq<Octet>, i: nat) returns (r: Result<Json>)
    requires At(s, i) == 0x2D || IsNum(At(s, i))
    ensures r == ParseNum(s, i)
  {
    hide Nums, Hexes, IsNum, IsHex, Delimiter, At, Part;
    NumberMoves(s, i);
    var p := i;
    if At(s, p) == 0x2D {
      p := p + 1;
    }
    if At(s, p) == 0x30 && At(s, p + 1) == 0x78 && IsHex(At(s, p + 2)) {
      p := SkipHexes(s, p + 3);
    } else {
      p := SkipNums(s, p);
      var part := SkipPart(s, p, 0x2E);
      if part.None? { return Err(InvalidToken); }
      part := SkipPart(s, part.value, 0x65);
      if part.None? { return Err(InvalidToken); }
      p := part.value;
    }
    if !Delimiter(At(s, p)) { return Err(InvalidToken); }
    r := Ok(Num(s[i..p]), p);
  }

  /** parse_null and parse_boolean */
  method ReadWord(s: seq<Octet>, i: nat) returns (r: Result<Json>)
    requires At(s, i) == 0x6E || At(s, i) == 0x74 || At(s, i) == 0x66
    ensures r == (if At(s, i) == 0x6E then ParseWord(s, i, NULL, Null)
                  else if At(s, i) == 0x74 then ParseWord(s, i, TRUE, Bool(true))
                    else ParseWord(s, i, FALSE, Bool(false)))
  {
    var p, v := i, Null;
    if At(s, i) == 0x6E && At(s, i + 1) == 0x75 && At(s, i + 2) == 0x6C && At(s, i + 3) == 0x6C {
      p := i + 4;
    } else if At(s, i) == 0x74 && At(s, i + 1) == 0x72 && At(s, i + 2) == 0x75 && At(s, i + 3) == 0x65 {
      p, v := i + 4, Bool(true);
    } else if At(s, i) == 0x66 && At(s, i + 1) == 0x61 && At(s, i + 2) == 0x6C && At(s, i + 3) == 0x73
      && At(s, i + 4) == 0x65 {
      p, v := i + 5, Bool(false);
    }
    HasWord(s, i);
    if !Delimiter(At(s, p)) { return Err(Undefined); }
    r := Ok(v, p);
  }

  lemma HasWord(s: seq<Octet>, i: nat)
    ensures Has(s, i, NULL) <==>
      At(s, i) == 0x6E && At(s, i + 1) == 0x75 && At(s, i + 2) == 0x6C && At(s, i + 3) == 0x6C
    ensures Has(s, i, TRUE) <==>
      At(s, i) == 0x74 && At(s, i + 1) == 0x72 && At(s, i + 2) == 0x75 && At(s, i + 3) == 0x65
    ensures Has(s, i, FALSE) <==>
      At(s, i) == 0x66 && At(s, i + 1) == 0x61 && At(s, i + 2) == 0x6C && At(s, i + 3) == 0x73 && At(s, i + 4) == 0x65
  {
    if i + 4 <= |s| {
      assert s[i..i + 4] == [s[i], s[i + 1], s[i + 2], s[i + 3]];
    }
    if i + 5 <= |s| {
      assert s[i..i + 5] == [s[i], s[i + 1], s[i + 2], s[i + 3], s[i + 4]];
    }
  }

  /** parse_any */
  method ReadAny(s: seq<Octet>, i: nat) returns (r: Result<Json>)
    ensures r == ParseAny(s, i)
    decreases |s| - i, 2
  {
    var j := SkipBlanks(s, i);
    var c := At(s, j);
    if c == 0x7B {
      r := ReadObject(s, j);
    } else if c == 0x5B {
      r := ReadArray(s, j);
    } else if c == 0x74 || c == 0x66 || c == 0x6E {
      r := ReadWord(s, j);
    } else if c == 0x2D || IsNum(c) {
      r := ReadNumber(s, j);
    } else if c == 0x22 {
      var x := ReadString(s, j);
      r := if x.Ok? then Ok(Str(x.value), x.next) else Err(x.error);
    } else {
      r := Err(InvalidToken);
    }
  }

  /** parse_object */
  method ReadObject(s: seq<Octet>, i: nat) returns (r: Result<Json>)
    requires At(s, i) == 0x7B
    ensures r == ParseObj(s, i)
    decreases |s| - i, 1
  {
    hide ParseStr, ParseAny, Skip;
    var ms: seq<Member> := [];
    var p := SkipBlanks(s, i + 1);
    if At(s, p) == 0 { return Err(Corrupted); }
    if At(s, p) != 0x7D {
      while true
        invariant i < p && At(s, p) != 0 && ParseObj(s, i) == ParseMembers(s, p, ms)
        decreases |s| - p
      {
        var k := ReadString(s, p);
        if k.Err? { return Err(k.error); }
        p := SkipBlanks(s, k.next);
        if At(s, p) == 0 { return Err(Corrupted); }
        if At(s, p) != 0x3A { return Err(InvalidToken); }
        var v := ReadAny(s, p + 1);
        if v.Err? { return Err(v.error); }
        if HasKey(ms, k.value) { return Err(DuplicatedKey); }
        ms := ms + [Member(k.value, v.value)];
        p := SkipBlanks(s, v.next);
        if At(s, p) == 0 { return Err(Corrupted); }
        if At(s, p) == 0x7D { break; }
        if At(s, p) != 0x2C { return Err(InvalidToken); }
        p := SkipBlanks(s, p + 1);
        if At(s, p) == 0 { return Err(Corrupted); }
      }
    }
    r := Ok(Obj(ms), p + 1);
  }

  /** parse_array */
  method ReadArray(s: seq<Octet>, i: nat) returns (r: Result<Json>)
    requires At(s, i) == 0x5B
    ensures r == ParseArr(s, i)
    decreases |s| - i, 1
  {
    hide ParseAny, Skip;
    var vs: seq<Json> := [];
    var p := SkipBlanks(s, i + 1);
    if At(s, p) == 0 { return Err(Corrupted); }
    if At(s, p) != 0x5D {
      while true
        invariant i < p && At(s, p) != 0 && ParseArr(s, i) == ParseItems(s, p, vs)
        decreases |s| - p
      {
        var v := ReadAny(s, p);
        if v.Err? { return Err(v.error); }
        vs := vs + [v.value];
        p := SkipBlanks(s, v.next);
        if At(s, p) == 0 { return Err(Corrupted); }
        if At(s, p) == 0x5D { break; }
        if At(s, p) != 0x2C { return Err(InvalidToken); }
        p := SkipBlanks(s, p + 1);
        if At(s, p) == 0 { return Err(Corrupted); }
      }
    }
    r := Ok(Arr(vs), p + 1);
  }
}
