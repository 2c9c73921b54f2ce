/** The safetensors container: an 8-byte length, a JSON header, the data. What the
    reader makes of a header and what the writer puts into one. */
module Safetensors {
  import opened Options
  import opened Powers
  import opened Sizes
  import opened Utf8
  import opened Json
  import opened JsonPrint

  type Name = seq<Octet>

  datatype Dtype = BOOL | U8 | I8 | U16 | I16 | U32 | I32 | U64Type | I64 | F16 | BF16 | F32 | F64

  datatype Tensor = Tensor(dtype: Dtype, shape: seq<nat>, begin: nat, end: nat)

  /** An entry of an ordered dictionary. */
  datatype Entry<+T> = Entry(name: Name, value: T)

  datatype Safetensors = Safetensors(tensors: seq<Entry<Tensor>>, metadata: seq<Entry<Name>>, storage: seq<Octet>)

  const DTYPE: Name := [0x64, 0x74, 0x79, 0x70, 0x65]
  const SHAPE: Name := [0x73, 0x68, 0x61, 0x70, 0x65]
  const DATA_OFFSETS: Name := [0x64, 0x61, 0x74, 0x61, 0x5F, 0x6F, 0x66, 0x66, 0x73, 0x65, 0x74, 0x73]
  const METADATA: Name := [0x5F, 0x5F, 0x6D, 0x65, 0x74, 0x61, 0x64, 0x61, 0x74, 0x61, 0x5F, 0x5F]

  function DtypeStr(d: Dtype): Name {
    match d
    case BOOL => [0x42, 0x4F, 0x4F, 0x4C]
    case U8 => [0x55, 0x38]
    case I8 => [0x49, 0x38]
    case U16 => [0x55, 0x31, 0x36]
    case I16 => [0x49, 0x31, 0x36]
    case U32 => [0x55, 0x33, 0x32]
    case I32 => [0x49, 0x33, 0x32]
    case U64Type => [0x55, 0x36, 0x34]
    case I64 => [0x49, 0x36, 0x34]
    case F16 => [0x46, 0x31, 0x36]
    case BF16 => [0x42, 0x46, 0x31, 0x36]
    case F32 => [0x46, 0x33, 0x32]
    case F64 => [0x46, 0x36, 0x34]
  }

  function DtypeOf(x: Name): Option<Dtype> {
    if x == DtypeStr(BOOL) then Some(BOOL)
    else if x == DtypeStr(U8) then Some(U8)
    else if x == DtypeStr(I8) then Some(I8)
    else if x == DtypeStr(U16) then Some(U16)
    else if x == DtypeStr(I16) then Some(I16)
    else if x == DtypeStr(U32) then Some(U32)
    else if x == DtypeStr(I32) then Some(I32)
    else if x == DtypeStr(U64Type) then Some(U64Type)
    else if x == DtypeStr(I64) then Some(I64)
    else if x == DtypeStr(F16) then Some(F16)
    else if x == DtypeStr(BF16) then Some(BF16)
    else if x == DtypeStr(F32) then Some(F32)
    else if x == DtypeStr(F64) then Some(F64)
    else None
  }

  lemma DtypeReadsBack(d: Dtype)
    ensures DtypeOf(DtypeStr(d)) == Some(d)
  {
    var x := DtypeStr(d);
    assert |x| == 2 ==> x[0] == 0x55 || x[0] == 0x49;
  }

  // ----- Numbers -----

  /** Decimal notation. */
  function Dec(n: nat): seq<Octet> {
    if n < 10 then [0x30 + n] else Dec(n / 10) + [0x30 + n % 10]
  }

  function DecValue(l: seq<Octet>): int {
    if l == [] then 0 else DecValue(l[..|l| - 1]) * 10 + l[|l| - 1] as int - 0x30
  }

  lemma {:induction false} DecReadsBack(n: nat)
    ensures Numerals(Dec(n)) && DecValue(Dec(n)) == n
  {
    if n < 10 {
      assert Dec(n)[..0] == [];
    } else {
      DecReadsBack(n / 10);
      assert Dec(n)[..|Dec(n)| - 1] == Dec(n / 10);
    }
  }

  /** A conversion of number literals to sizes that is exact for integers below
      2^53, as going through a double is. */
  ghost predicate ExactBelow53(conv: seq<Octet> -> nat) {
    forall l :: Numerals(l) && 0 <= DecValue(l) < 0x20_0000_0000_0000 ==> conv(l) == DecValue(l)
  }

  // ----- What the reader makes of a header -----

  function Numbers(vs: seq<Json>, conv: seq<Octet> -> nat): Option<seq<nat>> {
    if vs == [] then Some([])
    else if !vs[0].Num? then None
    else match Numbers(vs[1..], conv)
      case None => None
      case Some(ns) => Some([conv(vs[0].literal)] + ns)
  }

  /** An array of at most eight numbers. */
  function ShapeOf(v: Json, conv: seq<Octet> -> nat): Option<seq<nat>> {
    if v.Arr? && |v.items| <= 8 then Numbers(v.items, conv) else None
  }

  /** An array of exactly two numbers. */
  function OffsetsOf(v: Json, conv: seq<Octet> -> nat): (r: Option<seq<nat>>)
    ensures r.Some? ==> |r.value| == 2
  {
    if v.Arr? && |v.items| == 2 then
      NumbersLength(v.items, conv);
      Numbers(v.items, conv)
    else None
  }

  lemma {:induction false} NumbersLength(vs: seq<Json>, conv: seq<Octet> -> nat)
    ensures Numbers(vs, conv).Some? ==> |Numbers(vs, conv).value| == |vs|
  {
    if vs != [] {
      NumbersLength(vs[1..], conv);
    }
  }

  function Lookup(ms: seq<Member>, key: Name): Option<Json> {
    if ms == [] then None
    else if ms[0].key == key then Some(ms[0].value)
    else Lookup(ms[1..], key)
  }

  function TensorOf(v: Json, conv: seq<Octet> -> nat): Option<Tensor> {
    if !v.Obj? then None else
      var d, sh, off := Lookup(v.members, DTYPE), Lookup(v.members, SHAPE), Lookup(v.members, DATA_OFFSETS);
      if d.None? || !d.value.Str? || DtypeOf(d.value.chars).None? then None
      else if sh.None? || ShapeOf(sh.value, conv).None? then None
      else if off.Some? && OffsetsOf(off.value, conv).None? then None
      else
        var shape := ShapeOf(sh.value, conv).value;
        if 0 in shape then
          if off.Some? then None else Some(Tensor(DtypeOf(d.value.chars).value, shape, 0, 0))
        else if off.None? then None
        else
          var o := OffsetsOf(off.value, conv).value;
          Some(Tensor(DtypeOf(d.value.chars).value, shape, o[0], o[1]))
  }

  function MetadataOf(ms: seq<Member>): Option<seq<Entry<Name>>> {
    if ms == [] then Some([])
    else if !ms[0].value.Str? then None
    else match MetadataOf(ms[1..])
      case None => None
      case Some(es) => Some([Entry(ms[0].key, ms[0].value.chars)] + es)
  }

  /** Tensors and metadata of the members of the root object. */
  function HeaderOf(ms: seq<Member>, conv: seq<Octet> -> nat): Option<(seq<Entry<Tensor>>, seq<Entry<Name>>)> {
    if ms == [] then Some(([], []))
    else match HeaderOf(ms[1..], conv)
      case None => None
      case Some((ts, es)) =>
        if ms[0].key == METADATA then
          if !ms[0].value.Obj? then None
          else match MetadataOf(ms[0].value.members)
            case None => None
            case Some(meta) => Some((ts, meta + es))
        else match TensorOf(ms[0].value, conv)
          case None => None
          case Some(t) => Some(([Entry(ms[0].key, t)] + ts, es))
  }

  // ----- What the writer puts into one -----

  function NumberItems(ns: seq<nat>): (vs: seq<Json>)
    ensures |vs| == |ns| && forall i :: 0 <= i < |vs| ==> vs[i] == Num(Dec(ns[i]))
  {
    seq(|ns|, i requires 0 <= i < |ns| => Num(Dec(ns[i])))
  }

  function TensorJson(t: Tensor): Json {
    Obj([Member(DTYPE, Str(DtypeStr(t.dtype))),
         Member(SHAPE, Arr(NumberItems(t.shape))),
         Member(DATA_OFFSETS, Arr(NumberItems([t.begin, t.end])))])
  }

  function MetadataMembers(es: seq<Entry<Name>>): (ms: seq<Member>)
    ensures |ms| == |es| && forall i :: 0 <= i < |ms| ==> ms[i] == Member(es[i].name, Str(es[i].value))
  {
    seq(|es|, i requires 0 <= i < |es| => Member(es[i].name, Str(es[i].value)))
  }

  function TensorMembers(ts: seq<Entry<Tensor>>): (ms: seq<Member>)
    ensures |ms| == |ts| && forall i :: 0 <= i < |ms| ==> ms[i] == Member(ts[i].name, TensorJson(ts[i].value))
  {
    seq(|ts|, i requires 0 <= i < |ts| => Member(ts[i].name, TensorJson(ts[i].value)))
  }

  function MetadataPart(es: seq<Entry<Name>>): seq<Member> {
    if es == [] then [] else [Member(METADATA, Obj(MetadataMembers(es)))]
  }

  function HeaderJson(st: Safetensors): Json {
    Obj(MetadataPart(st.metadata) + TensorMembers(st.tensors))
  }

  // ----- Reading back a written header -----

  /** The conversion gives the numbers back. */
  predicate Kept(ns: seq<nat>, conv: seq<Octet> -> nat) {
    forall i :: 0 <= i < |ns| ==> conv(Dec(ns[i])) == ns[i]
  }

  lemma {:induction false} NumbersBack(ns: seq<nat>, conv: seq<Octet> -> nat)
    ensures Numbers(NumberItems(ns), conv).Some?
    ensures Numbers(NumberItems(ns), conv) == Some(ns) <==> Kept(ns, conv)
  {
    if ns != [] {
      var first, rest := ns[0], ns[1..];
      NumbersBack(rest, conv);
      assert NumberItems(ns)[1..] == NumberItems(rest);
      KeptFirst(ns, conv);
      HeadAndTail(conv(Dec(first)), Numbers(NumberItems(rest), conv).value, ns);
    }
  }

  lemma KeptFirst(ns: seq<nat>, conv: seq<Octet> -> nat)
    requires ns != []
    ensures Kept(ns, conv) <==> conv(Dec(ns[0])) == ns[0] && Kept(ns[1..], conv)
  {
    assert forall i :: 1 <= i < |ns| ==> ns[i] == ns[1..][i - 1];
    if Kept(ns[1..], conv) && conv(Dec(ns[0])) == ns[0] {
      forall i | 0 <= i < |ns| ensures conv(Dec(ns[i])) == ns[i] {
        assert i > 0 ==> ns[i] == ns[1..][i - 1];
      }
    }
  }

  lemma HeadAndTail<T>(x: T, rest: seq<T>, xs: seq<T>)
    requires xs != []
    ensures [x] + rest == xs <==> x == xs[0] && rest == xs[1..]
  {
    assert ([x] + rest)[0] == x && ([x] + rest)[1..] == rest;
  }

  predicate KeptTensor(t: Tensor, conv: seq<Octet> -> nat) {
    Kept(t.shape, conv) && Kept([t.begin, t.end], conv)
  }

  /** A written tensor is read back as itself exactly if it has at most eight
      dimensions, the conversion keeps its numbers, and no dimension is zero: the
      writer then still gives data offsets, which the reader refuses. */
  lemma TensorBack(t: Tensor, conv: seq<Octet> -> nat)
    ensures TensorOf(TensorJson(t), conv) == Some(t) <==>
      |t.shape| <= 8 && 0 !in t.shape && KeptTensor(t, conv)
    ensures KeptTensor(t, conv) && 0 in t.shape ==> TensorOf(TensorJson(t), conv) == None
  {
    hide Kept, DtypeStr, DtypeOf, Numbers;
    var ms := TensorJson(t).members;
    KeysDiffer();
    LookupThree(ms);
    DtypeReadsBack(t.dtype);
    NumbersBack(t.shape, conv);
    NumbersBack([t.begin, t.end], conv);
    NumbersLength(NumberItems([t.begin, t.end]), conv);
    var o := Numbers(NumberItems([t.begin, t.end]), conv).value;
    assert o == [o[0], o[1]];
  }

  lemma KeysDiffer()
    ensures DTYPE != SHAPE && DTYPE != DATA_OFFSETS && SHAPE != DATA_OFFSETS
  {
    assert DTYPE[0] != SHAPE[0] && |DATA_OFFSETS| != |DTYPE| && |SHAPE| != |DATA_OFFSETS|;
  }

  lemma LookupThree(ms: seq<Member>)
    requires |ms| == 3 && ms[0].key == DTYPE && ms[1].key == SHAPE && ms[2].key == DATA_OFFSETS
    ensures Lookup(ms, DTYPE) == Some(ms[0].value) && Lookup(ms, SHAPE) == Some(ms[1].value)
    ensures Lookup(ms, DATA_OFFSETS) == Some(ms[2].value)
  {
    KeysDiffer();
    assert ms[1..][0] == ms[1] && ms[1..][1..] == ms[2..] && ms[2..][0] == ms[2];
    assert Lookup(ms[2..], DATA_OFFSETS) == Some(ms[2].value);
    assert Lookup(ms[1..], DATA_OFFSETS) == Lookup(ms[2..], DATA_OFFSETS);
  }

  lemma {:induction false} MetadataBack(es: seq<Entry<Name>>)
    ensures MetadataOf(MetadataMembers(es)) == Some(es)
  {
    if es != [] {
      MetadataBack(es[1..]);
      assert MetadataMembers(es)[1..] == MetadataMembers(es[1..]);
      assert [es[0]] + es[1..] == es;
    }
  }

  predicate HasEmpty(ts: seq<Entry<Tensor>>) {
    exists e :: e in ts && 0 in e.value.shape
  }

  predicate GoodTensors(ts: seq<Entry<Tensor>>) {
    forall i :: 0 <= i < |ts| ==> |ts[i].value.shape| <= 8 && ts[i].name != METADATA
  }

  /** The conversion gives every dimension and offset back. */
  predicate KeptTensors(ts: seq<Entry<Tensor>>, conv: seq<Octet> -> nat) {
    forall i :: 0 <= i < |ts| ==> KeptTensor(ts[i].value, conv)
  }

  lemma {:induction false} TensorsBack(ts: seq<Entry<Tensor>>, conv: seq<Octet> -> nat)
    requires GoodTensors(ts)
    ensures HeaderOf(TensorMembers(ts), conv) == Some((ts, [])) <==> !HasEmpty(ts) && KeptTensors(ts, conv)
    ensures KeptTensors(ts, conv) && HasEmpty(ts) ==> HeaderOf(TensorMembers(ts), conv) == None
    ensures HeaderOf(TensorMembers(ts), conv).Some? ==> HeaderOf(TensorMembers(ts), conv).value.1 == []
  {
    hide KeptTensor, TensorJson, TensorOf, HasEmpty;
    if ts == [] {
      NoneEmpty();
    } else {
      var rest := ts[1..];
      var t, tail := TensorOf(TensorJson(ts[0].value), conv), HeaderOf(TensorMembers(rest), conv);
      assert TensorMembers(ts)[1..] == TensorMembers(rest);
      TensorsBack(rest, conv);
      TensorBack(ts[0].value, conv);
      EmptyOrRest(ts);
      KeptOrRest(ts, conv);
      if t.Some? && tail.Some? {
        HeadAndTail(Entry(ts[0].name, t.value), tail.value.0, ts);
      }
    }
  }

  lemma KeptOrRest(ts: seq<Entry<Tensor>>, conv: seq<Octet> -> nat)
    requires ts != []
    ensures KeptTensors(ts, conv) <==> KeptTensor(ts[0].value, conv) && KeptTensors(ts[1..], conv)
  {
    hide KeptTensor;
    assert forall i :: 1 <= i < |ts| ==> ts[i] == ts[1..][i - 1];
  }

  lemma NoneEmpty()
    ensures !HasEmpty([])
  {
  }

  lemma EmptyOrRest(ts: seq<Entry<Tensor>>)
    requires ts != []
    ensures HasEmpty(ts) <==> 0 in ts[0].value.shape || HasEmpty(ts[1..])
  {
    if HasEmpty(ts) {
      var e :| e in ts && 0 in e.value.shape;
      assert e == ts[0] || e in ts[1..];
    }
  }

  lemma HeaderBack(st: Safetensors, conv: seq<Octet> -> nat)
    requires GoodTensors(st.tensors)
    ensures HeaderOf(HeaderJson(st).members, conv) == Some((st.tensors, st.metadata)) <==>
      !HasEmpty(st.tensors) && KeptTensors(st.tensors, conv)
    ensures KeptTensors(st.tensors, conv) && HasEmpty(st.tensors) ==> HeaderOf(HeaderJson(st).members, conv) == None
  {
    hide KeptTensors, GoodTensors, HasEmpty;
    var ts := TensorMembers(st.tensors);
    TensorsBack(st.tensors, conv);
    if st.metadata == [] {
      assert HeaderJson(st).members == ts;
    } else {
      assert HeaderJson(st).members[1..] == ts;
      MetadataBack(st.metadata);
      assert st.metadata + [] == st.metadata;
    }
  }

  // ----- The header is printable -----

  predicate DistinctNames<T>(es: seq<Entry<T>>) {
    forall i, j :: 0 <= i < j < |es| ==> es[i].name != es[j].name
  }

  ghost predicate PlainNames(st: Safetensors) {
    && (forall i :: 0 <= i < |st.tensors| ==> PlainText(st.tensors[i].name))
    && (forall i :: 0 <= i < |st.metadata| ==> PlainText(st.metadata[i].name) && PlainText(st.metadata[i].value))
  }

  lemma {:induction false} AsciiPlain(x: seq<Octet>)
    requires forall i :: 0 <= i < |x| ==> 0x20 <= x[i] < 0x80 && x[i] != 0x22 && x[i] != 0x5C
    ensures PlainText(x)
  {
    AsciiEncodes(x);
    assert NoEscape(x) && Scalars(x);
  }

  lemma {:induction false} AsciiEncodes(x: seq<Octet>)
    requires forall i :: 0 <= i < |x| ==> 0x20 <= x[i] < 0x80
    ensures Scalars(x) && EncodeAll(x) == x
  {
    if x != [] {
      AsciiEncodes(x[..|x| - 1]);
      assert x == x[..|x| - 1] + [x[|x| - 1]];
    }
  }

  lemma KeysPlain(d: Dtype)
    ensures PlainText(DTYPE) && PlainText(SHAPE) && PlainText(DATA_OFFSETS) && PlainText(METADATA)
      && PlainText(DtypeStr(d))
  {
    hide PlainText, DtypeStr;
    AsciiPlain(DTYPE);
    AsciiPlain(SHAPE);
    AsciiPlain(DATA_OFFSETS);
    AsciiPlain(METADATA);
    DtypePlain(d);
  }

  lemma DtypePlain(d: Dtype)
    ensures PlainText(DtypeStr(d))
  {
    hide PlainText;
    AsciiPlain(DtypeStr(d));
  }

  lemma NumbersPrintable(ns: seq<nat>)
    ensures Printable(Arr(NumberItems(ns)))
  {
    forall i | 0 <= i < |ns| ensures Printable(NumberItems(ns)[i]) {
      DecReadsBack(ns[i]);
    }
  }

  lemma TensorPrintable(t: Tensor)
    ensures Printable(TensorJson(t))
  {
    hide PlainText, DtypeStr;
    var v := TensorJson(t);
    KeysPlain(t.dtype);
    KeysDiffer();
    NumbersPrintable(t.shape);
    NumbersPrintable([t.begin, t.end]);
    forall i, j | 0 <= i < j < |v.members| ensures v.members[i].key != v.members[j].key {
    }
  }

  lemma HeaderPrintable(st: Safetensors)
    requires PlainNames(st) && DistinctNames(st.tensors) && DistinctNames(st.metadata)
    requires forall i :: 0 <= i < |st.tensors| ==> st.tensors[i].name != METADATA
    ensures Printable(HeaderJson(st))
  {
    hide PlainText, TensorJson;
    KeysPlain(BOOL);
    var ms := HeaderJson(st).members;
    var meta, ts := MetadataPart(st.metadata), TensorMembers(st.tensors);
    assert Printable(Obj(MetadataMembers(st.metadata)));
    forall i | 0 <= i < |ms| ensures PlainText(ms[i].key) && Printable(ms[i].value) {
      if |meta| <= i {
        assert ms[i] == ts[i - |meta|];
        TensorPrintable(st.tensors[i - |meta|].value);
      }
    }
  }

  // ----- The container -----

  /** Little-endian octets. */
  function Le(n: nat, k: nat): (s: seq<Octet>)
    ensures |s| == k
  {
    if k == 0 then [] else [n % 256] + Le(n / 256, k - 1)
  }

  function FromLe(s: seq<Octet>): nat {
    if s == [] then 0 else s[0] + 256 * FromLe(s[1..])
  }

  lemma {:induction false} LeReadsBack(n: nat, k: nat)
    requires n < Pow(256, k)
    ensures FromLe(Le(n, k)) == n
    decreases k
  {
    if k != 0 {
      LeReadsBack(n / 256, k - 1);
      assert Le(n, k)[1..] == Le(n / 256, k - 1);
    }
  }

  lemma EightOctets()
    ensures Pow(256, 8) == TWO_64
  {
    PowAdds(256, 4, 4);
    assert Pow(256, 2) == 0x1_0000;
    PowAdds(256, 2, 2);
  }

  /** load_from_memory. A root that is not an object is not refused. */
  function Load(bytes: seq<Octet>, conv: seq<Octet> -> nat): Option<Safetensors> {
    if |bytes| < 16 then None else
      var size := FromLe(bytes[..8]);
      if size < 4 || U64(8 + size) > |bytes| || size > 0x640_0000 then None
      else
        var r := ParseAny(bytes[8..8 + size], 0);
        if r.Err? then None
        else if !r.value.Obj? then Some(Safetensors([], [], bytes[8 + size..]))
        else match HeaderOf(r.value.members, conv)
          case None => None
          case Some((ts, meta)) => Some(Safetensors(ts, meta, bytes[8 + size..]))
  }

  /** The checks before the header is parsed. */
  predicate Framed(bytes: seq<Octet>) {
    && 16 <= |bytes| && 4 <= FromLe(bytes[..8]) <= 0x640_0000 && 8 + FromLe(bytes[..8]) <= |bytes|
  }

  /** The octets the length field announces as the header. */
  function HeaderText(bytes: seq<Octet>): seq<Octet>
    requires Framed(bytes)
  {
    bytes[8..8 + FromLe(bytes[..8])]
  }

  /** A parsed value is an object exactly if it begins with a brace. */
  lemma RootKind(s: seq<Octet>, i: nat)
    requires ParseAny(s, i).Ok?
    ensures ParseAny(s, i).value.Obj? <==> At(s, Skip(s, i)) == 0x7B
  {
    hide ParseStr, ParseNum, Skip;
    var j := Skip(s, i);
    if At(s, j) == 0x7B && At(s, Skip(s, j + 1)) != 0x7D {
      MembersKind(s, Skip(s, j + 1), []);
    } else if At(s, j) == 0x5B && At(s, Skip(s, j + 1)) != 0x5D {
      ItemsKind(s, Skip(s, j + 1), []);
    } else if At(s, j) == 0x2D || IsNum(At(s, j)) {
      NumKind(s, j);
    }
  }

  lemma NumKind(s: seq<Octet>, i: nat)
    requires (At(s, i) == 0x2D || IsNum(At(s, i))) && ParseNum(s, i).Ok?
    ensures ParseNum(s, i).value.Num?
  {
  }

  lemma {:induction false} MembersKind(s: seq<Octet>, i: nat, ms: seq<Member>)
    requires At(s, i) != 0 && ParseMembers(s, i, ms).Ok?
    ensures ParseMembers(s, i, ms).value.Obj?
    decreases |s| - i
  {
    hide ParseAny, ParseStr, HasKey, Skip;
    var k := ParseStr(s, i);
    var v := ParseAny(s, Skip(s, k.next) + 1);
    var t := Skip(s, v.next);
    if At(s, t) == 0x2C {
      MembersKind(s, Skip(s, t + 1), ms + [Member(k.value, v.value)]);
    }
  }

  lemma {:induction false} ItemsKind(s: seq<Octet>, i: nat, vs: seq<Json>)
    requires At(s, i) != 0 && ParseItems(s, i, vs).Ok?
    ensures ParseItems(s, i, vs).value.Arr?
    decreases |s| - i
  {
    hide ParseAny, Skip;
    var v := ParseAny(s, i);
    var t := Skip(s, v.next);
    if At(s, t) == 0x2C {
      ItemsKind(s, Skip(s, t + 1), vs + [v.value]);
    }
  }

  /** Exactly which containers load although they have no header object: the ones
      whose header is any other JSON value. They load as a value without tensors and
      metadata, whatever the rest holds. */
  lemma HeaderlessLoads(bytes: seq<Octet>, conv: seq<Octet> -> nat)
    ensures Load(bytes, conv).Some? ==> Framed(bytes) && ParseAny(HeaderText(bytes), 0).Ok?
    ensures Framed(bytes) && At(HeaderText(bytes), Skip(HeaderText(bytes), 0)) != 0x7B ==>
      Load(bytes, conv) ==
        if ParseAny(HeaderText(bytes), 0).Ok? then Some(Safetensors([], [], bytes[8 + |HeaderText(bytes)|..])) else None
    ensures Framed(bytes) && At(HeaderText(bytes), Skip(HeaderText(bytes), 0)) == 0x7B && Load(bytes, conv).Some? ==>
      var root := ParseAny(HeaderText(bytes), 0).value;
      root.Obj? && HeaderOf(root.members, conv) ==
        Some((Load(bytes, conv).value.tensors, Load(bytes, conv).value.metadata))
  {
    hide ParseAny, HeaderOf, FromLe, Skip;
    if Framed(bytes) && ParseAny(HeaderText(bytes), 0).Ok? {
      RootKind(HeaderText(bytes), 0);
    }
  }

  /** For example a header that just says null. */
  lemma NullHeaderLoads(data: seq<Octet>, conv: seq<Octet> -> nat)
    requires 4 <= |data|
    ensures Load(Le(4, 8) + NULL + data, conv) == Some(Safetensors([], [], data))
  {
    var bytes := Le(4, 8) + NULL + data;
    EightOctets();
    LeReadsBack(4, 8);
    assert bytes[..8] == Le(4, 8);
    assert bytes[8..12] == NULL;
    assert bytes[12..] == data;
    hide Le, FromLe;
    assert NULL[0..4] == NULL;
    assert ParseAny(NULL, 0) == Ok(Null, 4);
  }

  function Blanks(n: nat): (s: seq<Octet>)
    ensures |s| == n && forall i :: 0 <= i < n ==> s[i] == 0x20
  {
    seq(n, i => 0x20)
  }

  /** The header padded with blanks to a multiple of eight. */
  function Padded(header: seq<Octet>): (s: seq<Octet>)
    ensures |s| % 8 == 0 && |header| <= |s| < |header| + 8 && header <= s
  {
    header + Blanks(if |header| % 8 == 0 then 0 else 8 - |header| % 8)
  }

  function Container(st: Safetensors): seq<Octet> {
    var header := Padded(Print(HeaderJson(st)));
    Le(|header|, 8) + header + st.storage
  }

  /** What must hold of a value for its container to be read back. */
  ghost predicate Writable(st: Safetensors) {
    && PlainNames(st) && DistinctNames(st.tensors) && DistinctNames(st.metadata) && GoodTensors(st.tensors)
    && |Padded(Print(HeaderJson(st)))| <= 0x640_0000
  }

  /** Writing then reading gives back tensors, metadata, their order and the data,
      if and only if no tensor has a zero dimension and the conversion keeps all
      numbers; the data starts at a multiple of eight. */
  lemma RoundTrip(st: Safetensors, conv: seq<Octet> -> nat)
    requires Writable(st)
    ensures Load(Container(st), conv) == Some(st) <==> !HasEmpty(st.tensors) && KeptTensors(st.tensors, conv)
    ensures HasEmpty(st.tensors) && KeptTensors(st.tensors, conv) ==> Load(Container(st), conv) == None
    ensures (|Container(st)| - |st.storage|) % 8 == 0
  {
    hide KeptTensors, MetadataPart, TensorMembers, Print, HeaderOf, ParseAny, HasEmpty, Padded, PlainNames,
      DistinctNames, GoodTensors, Le, FromLe;
    var text := Print(HeaderJson(st));
    var header := Padded(text);
    var bytes := Container(st);
    HeaderSize(HeaderJson(st));
    EightOctets();
    LeReadsBack(|header|, 8);
    assert bytes[..8] == Le(|header|, 8);
    assert bytes[8..8 + |header|] == header;
    assert bytes[8 + |header|..] == st.storage;
    HeaderParses(st);
    HeaderBack(st, conv);
  }

  /** All numbers fit the significand of a double. */
  predicate SmallNumbers(ts: seq<Entry<Tensor>>) {
    forall k :: 0 <= k < |ts| ==> Small(ts[k].value.shape) && Small([ts[k].value.begin, ts[k].value.end])
  }

  predicate Small(ns: seq<nat>) {
    forall i :: 0 <= i < |ns| ==> ns[i] < 0x20_0000_0000_0000
  }

  lemma SmallIsKept(ts: seq<Entry<Tensor>>, conv: seq<Octet> -> nat)
    requires ExactBelow53(conv) && SmallNumbers(ts)
    ensures KeptTensors(ts, conv)
  {
    hide ExactBelow53;
    forall k | 0 <= k < |ts| ensures KeptTensor(ts[k].value, conv) {
      SmallKept(ts[k].value.shape, conv);
      SmallKept([ts[k].value.begin, ts[k].value.end], conv);
    }
  }

  lemma SmallKept(ns: seq<nat>, conv: seq<Octet> -> nat)
    requires ExactBelow53(conv) && Small(ns)
    ensures Kept(ns, conv)
  {
    forall i | 0 <= i < |ns| ensures conv(Dec(ns[i])) == ns[i] {
      DecReadsBack(ns[i]);
    }
  }

  /** Even the empty header is padded to eight octets. */
  lemma HeaderSize(v: Json)
    requires v.Obj?
    ensures 2 <= |Print(v)| && 8 <= |Padded(Print(v))|
  {
  }

  lemma HeaderParses(st: Safetensors)
    requires PlainNames(st) && DistinctNames(st.tensors) && DistinctNames(st.metadata) && GoodTensors(st.tensors)
    ensures ParseAny(Padded(Print(HeaderJson(st))), 0).Ok?
    ensures ParseAny(Padded(Print(HeaderJson(st))), 0).value == HeaderJson(st)
  {
    hide Print, HeaderJson, ParseAny, Printable;
    HeaderPrintable(st);
    var text := Print(HeaderJson(st));
    var header := Padded(text);
    assert header[0..0 + |text|] == text;
    if |text| < |header| {
      assert header[|text|] == 0x20;
    }
    PrintParses(header, 0, HeaderJson(st));
  }
}
