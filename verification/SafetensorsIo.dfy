/** The reader and the writer of safetensors containers. */
module SafetensorsIo {
  import opened Options
  import opened Sizes
  import opened Utf8
  import opened Json
  import opened JsonPrint
  import opened Safetensors

  // ----- Sizes -----

  function DtypeBytes(d: Dtype): (n: nat)
    ensures n in {1, 2, 4, 8}
  {
    match d
    case BOOL => 1
    case U8 => 1
    case I8 => 1
    case U16 => 2
    case I16 => 2
    case U32 => 4
    case I32 => 4
    case F16 => 2
    case BF16 => 2
    case F32 => 4
    case F64 => 8
    case I64 => 8
    case U64Type => 8
  }

  function Product(ns: seq<nat>): nat {
    if ns == [] then 1 else Product(ns[..|ns| - 1]) * ns[|ns| - 1]
  }

  /** Number of elements: 1 for a scalar, 0 for eight dimensions or more; the product
      wraps at 64 bits. */
  function ElementCount(t: Tensor): nat {
    if t.shape == [] then 1 else if |t.shape| >= 8 then 0 else U64(Product(t.shape))
  }

  function TensorBytes(t: Tensor): nat {
    U64(DtypeBytes(t.dtype) * ElementCount(t))
  }

  /** get_shape_size */
  method ShapeSize(t: Tensor) returns (size: nat)
    ensures size == ElementCount(t)
  {
    if t.shape == [] { return 1; }
    if |t.shape| >= 8 { return 0; }
    size := 1;
    var i := 0;
    while i < |t.shape|
      invariant i <= |t.shape| && size == U64(Product(t.shape[..i]))
    {
      assert t.shape[..i + 1][..i] == t.shape[..i];
      WrapProduct(Product(t.shape[..i]), t.shape[i]);
      size := U64(size * t.shape[i]);
      i := i + 1;
    }
    assert t.shape[..i] == t.shape;
  }

  /** Wrapping every factor is wrapping the product. */
  lemma WrapProduct(a: nat, b: nat)
    ensures U64(U64(a) * b) == U64(a * b)
  {
    var w := TWO_64;
    var q, r := a / w, a % w;
    assert a * b == w * (q * b) + r * b by { assert (w * q + r) * b == w * (q * b) + r * b; }
    ModAdd(r * b, q * b);
  }

  lemma ModAdd(x: nat, k: nat)
    ensures U64(TWO_64 * k + x) == U64(x)
  {
  }

  /** A tensor's offsets are in order and, if it holds any data, inside the data and
      as far apart as it is long. */
  predicate Fits(t: Tensor, size: nat) {
    && t.begin <= t.end
    && (TensorBytes(t) == 0 || (t.end <= size && TensorBytes(t) == t.end - t.begin))
  }

  /** How many bytes a tensor really takes. */
  function DataBytes(dtype: Dtype, shape: seq<nat>): nat {
    DtypeBytes(dtype) * Product(shape)
  }

  /** The tensor's data lies inside `size` bytes and is as long as its shape says. */
  predicate InData(t: Tensor, size: nat) {
    t.begin <= t.end <= size && t.end - t.begin == DataBytes(t.dtype, t.shape)
  }

  lemma MeasuredBytes(t: Tensor)
    ensures TensorBytes(t) == if |t.shape| >= 8 then 0 else U64(DataBytes(t.dtype, t.shape))
  {
    hide U64;
    if |t.shape| < 8 {
      WrapProduct(Product(t.shape), DtypeBytes(t.dtype));
      assert Product(t.shape) * DtypeBytes(t.dtype) == DataBytes(t.dtype, t.shape);
      assert U64(1) == 1;
    }
  }

  /** The offsets check is enough for a type and shape exactly if there are fewer than
      eight dimensions, none is zero and the size fits 64 bits. Otherwise it lets
      some tensor through whose data is not where the offsets say. */
  lemma OffsetsCheckExact(dtype: Dtype, shape: seq<nat>)
    ensures (forall t: Tensor, size: nat :: t.dtype == dtype && t.shape == shape && Fits(t, size) ==>
      InData(t, size)) <==>
      |shape| < 8 && 0 < DataBytes(dtype, shape) < TWO_64
  {
    hide TensorBytes, DataBytes;
    var bytes := TensorBytes(Tensor(dtype, shape, 0, 0));
    forall t: Tensor | t.dtype == dtype && t.shape == shape ensures TensorBytes(t) == bytes {
      MeasuredBytes(t);
      MeasuredBytes(Tensor(dtype, shape, 0, 0));
    }
    MeasuredBytes(Tensor(dtype, shape, 0, 0));
    if bytes == 0 {
      var t := Tensor(dtype, shape, 0, 1);
      assert TensorBytes(t) == bytes;
      assert Fits(t, 0) && !InData(t, 0);
    } else if DataBytes(dtype, shape) != bytes {
      var t := Tensor(dtype, shape, 0, bytes);
      assert TensorBytes(t) == bytes;
      assert Fits(t, bytes) && !InData(t, bytes);
    }
  }

  /** All tensors fit and, if every one holds data, the last ends where the data does. */
  predicate Consistent(st: Safetensors) {
    && (forall i :: 0 <= i < |st.tensors| ==> Fits(st.tensors[i].value, |st.storage|))
    && (st.tensors != [] && (forall i :: 0 <= i < |st.tensors| ==> TensorBytes(st.tensors[i].value) != 0) ==>
          st.tensors[|st.tensors| - 1].value.end == |st.storage|)
  }

  /** Unsigned 64-bit subtraction. */
  function Minus(a: nat, b: nat): int {
    if b <= a then a - b else a - b + TWO_64
  }

  /** validate_data_offsets */
  method ValidateDataOffsets(st: Safetensors) returns (valid: bool)
    requires |st.storage| < TWO_64
    requires forall i :: 0 <= i < |st.tensors| ==>
      st.tensors[i].value.begin < TWO_64 && st.tensors[i].value.end < TWO_64
    ensures valid == Consistent(st)
  {
    hide U64, TensorBytes;
    valid := true;
    var size, full, i := |st.storage|, 0, 0;
    ghost var last := true;
    while i < |st.tensors|
      invariant i <= |st.tensors| && full <= i
      invariant full == i <==> forall k :: 0 <= k < i ==> TensorBytes(st.tensors[k].value) != 0
      invariant last == (0 < i == |st.tensors| == full ==> st.tensors[i - 1].value.end == size)
      invariant valid == (last && forall k :: 0 <= k < i ==> Fits(st.tensors[k].value, size))
    {
      var t := st.tensors[i].value;
      i := i + 1;
      if t.begin > t.end {
        valid := false;
      }
      var bytes := MeasureTensor(t);
      if bytes == 0 { continue; }
      if t.begin > size {
        valid := false;
      }
      if t.end > size {
        valid := false;
      }
      if bytes != Minus(t.end, t.begin) {
        valid := false;
      }
      full := full + 1;
      if full == |st.tensors| {
        if t.end != size {
          valid := false;
          last := false;
        }
      }
    }
  }

  method MeasureTensor(t: Tensor) returns (bytes: nat)
    ensures bytes == TensorBytes(t)
  {
    var n := ShapeSize(t);
    bytes := U64(DtypeBytes(t.dtype) * n);
  }

  // ----- The writer -----

  lemma {:induction false} MembersSnoc(ms: seq<Member>, m: Member)
    ensures PrintMembers(ms + [m]) == if ms == [] then PrintMember(m)
      else PrintMembers(ms) + [0x2C, 0x20] + PrintMember(m)
  {
    hide PrintMember;
    if ms == [] {
      assert ms + [m] == [m];
    } else {
      MembersSnoc(ms[1..], m);
      assert (ms + [m])[1..] == ms[1..] + [m];
      var a, x, b, c := PrintMember(ms[0]), [0x2C, 0x20], PrintMembers(ms[1..]), PrintMember(m);
      if |ms| == 1 {
        assert ms[1..] == [];
      } else {
        assert a + x + (b + x + c) == (a + x + b) + x + c;
      }
    }
  }

  lemma {:induction false} ItemsSnoc(vs: seq<Json>, v: Json)
    ensures PrintItems(vs + [v]) == if vs == [] then Print(v) else PrintItems(vs) + [0x2C, 0x20] + Print(v)
  {
    hide Print;
    if vs == [] {
      assert vs + [v] == [v];
    } else {
      ItemsSnoc(vs[1..], v);
      assert (vs + [v])[1..] == vs[1..] + [v];
      var a, x, b, c := Print(vs[0]), [0x2C, 0x20], PrintItems(vs[1..]), Print(v);
      if |vs| == 1 {
        assert vs[1..] == [];
      } else {
        assert a + x + (b + x + c) == (a + x + b) + x + c;
      }
    }
  }

  /** The text of one tensor: name, dtype, shape, data offsets. */
  method WriteTensor(name: Name, t: Tensor) returns (ss: seq<Octet>)
    ensures ss == PrintMember(Member(name, TensorJson(t)))
  {
    hide DtypeStr, Dec, Quoted, Print, PrintMembers, PrintItems;
    ss := Quoted(name) + [0x3A, 0x20, 0x7B];
    ss := ss + (Quoted(DTYPE) + [0x3A, 0x20] + Quoted(DtypeStr(t.dtype))) + [0x2C, 0x20];
    var dims := WriteNumbers(t.shape);
    ss := ss + (Quoted(SHAPE) + [0x3A, 0x20, 0x5B] + dims + [0x5D]);
    ss := ss + [0x2C, 0x20] + (Quoted(DATA_OFFSETS) + [0x3A, 0x20, 0x5B] + (Dec(t.begin) + [0x2C, 0x20] + Dec(t.end))
      + [0x5D]);
    ss := ss + [0x7D];
    TensorText(name, t);
  }

  method WriteNumbers(ns: seq<nat>) returns (ss: seq<Octet>)
    ensures ss == PrintItems(NumberItems(ns))
  {
    hide Dec;
    ss := [];
    var i := 0;
    while i < |ns|
      invariant i <= |ns| && ss == PrintItems(NumberItems(ns[..i]))
    {
      assert NumberItems(ns[..i + 1]) == NumberItems(ns[..i]) + [Num(Dec(ns[i]))];
      ItemsSnoc(NumberItems(ns[..i]), Num(Dec(ns[i])));
      if 0 < i {
        ss := ss + [0x2C, 0x20];
      }
      ss := ss + Dec(ns[i]);
      i := i + 1;
    }
    assert ns[..i] == ns;
  }

  lemma TensorText(name: Name, t: Tensor)
    ensures PrintMember(Member(name, TensorJson(t))) ==
      Quoted(name) + [0x3A, 0x20, 0x7B] +
      (Quoted(DTYPE) + [0x3A, 0x20] + Quoted(DtypeStr(t.dtype))) + [0x2C, 0x20] +
      (Quoted(SHAPE) + [0x3A, 0x20, 0x5B] + PrintItems(NumberItems(t.shape)) + [0x5D]) + [0x2C, 0x20] +
      (Quoted(DATA_OFFSETS) + [0x3A, 0x20, 0x5B] + (Dec(t.begin) + [0x2C, 0x20] + Dec(t.end)) + [0x5D]) + [0x7D]
  {
    hide DtypeStr, Dec, Quoted, Print, PrintItems, PrintMembers;
    var ms := TensorJson(t).members;
    ObjectText(name, ms[0], ms[1], ms[2]);
    assert ms == [ms[0], ms[1], ms[2]];
    StringText(DTYPE, DtypeStr(t.dtype));
    ArrayText(SHAPE, NumberItems(t.shape));
    ArrayText(DATA_OFFSETS, NumberItems([t.begin, t.end]));
    TwoNumbers(t.begin, t.end);
  }

  lemma ObjectText(name: Name, a: Member, b: Member, c: Member)
    ensures PrintMember(Member(name, Obj([a, b, c]))) ==
      Quoted(name) + [0x3A, 0x20, 0x7B] + PrintMember(a) + [0x2C, 0x20] + PrintMember(b) + [0x2C, 0x20]
        + PrintMember(c) + [0x7D]
  {
    var x: seq<Octet>, p, q, r := [0x2C, 0x20], PrintMember(a), PrintMember(b), PrintMember(c);
    assert PrintMembers([a, b, c]) == p + x + (q + x + r) by {
      hide PrintMember;
      assert [a, b, c][1..] == [b, c] && [b, c][1..] == [c];
      assert PrintMembers([b, c]) == q + x + r;
    }
    Flatten(Quoted(name), p, x, q, r);
  }

  lemma Flatten(n: seq<Octet>, p: seq<Octet>, x: seq<Octet>, q: seq<Octet>, r: seq<Octet>)
    ensures n + [0x3A, 0x20] + ([0x7B] + (p + x + (q + x + r)) + [0x7D]) == n + [0x3A, 0x20, 0x7B] + p + x + q + x + r
      + [0x7D]
  {
    assert n + [0x3A, 0x20] + ([0x7B] + (p + x + (q + x + r)) + [0x7D]) == n + [0x3A, 0x20, 0x7B]
      + (p + x + (q + x + r)) + [0x7D];
  }

  lemma StringText(key: Name, x: Name)
    ensures PrintMember(Member(key, Str(x))) == Quoted(key) + [0x3A, 0x20] + Quoted(x)
  {
  }

  lemma ArrayText(key: Name, vs: seq<Json>)
    ensures PrintMember(Member(key, Arr(vs))) == Quoted(key) + [0x3A, 0x20, 0x5B] + PrintItems(vs) + [0x5D]
  {
    hide PrintItems, Quoted;
    var k, t := Quoted(key), PrintItems(vs);
    assert k + [0x3A, 0x20] + ([0x5B] + t + [0x5D]) == k + [0x3A, 0x20, 0x5B] + t + [0x5D];
  }

  lemma TwoNumbers(a: nat, b: nat)
    ensures PrintItems(NumberItems([a, b])) == Dec(a) + [0x2C, 0x20] + Dec(b)
  {
    hide Dec;
    var x, y := Num(Dec(a)), Num(Dec(b));
    assert NumberItems([a, b]) == [x] + [y];
    ItemsSnoc([x], y);
  }

  method WriteMetadata(es: seq<Entry<Name>>) returns (ss: seq<Octet>)
    ensures ss == PrintMembers(MetadataMembers(es))
  {
    hide PrintMembers;
    ss := [];
    var i := 0;
    NothingPrinted();
    while i < |es|
      invariant i <= |es| && ss == PrintMembers(MetadataMembers(es[..i]))
    {
      var m := Member(es[i].name, Str(es[i].value));
      assert MetadataMembers(es[..i + 1]) == MetadataMembers(es[..i]) + [m];
      MembersSnoc(MetadataMembers(es[..i]), m);
      StringText(es[i].name, es[i].value);
      if 0 < i {
        ss := ss + [0x2C, 0x20];
      }
      ss := ss + (Quoted(es[i].name) + [0x3A, 0x20] + Quoted(es[i].value));
      i := i + 1;
    }
    assert es[..i] == es;
  }

  predicate ShapesFit(ts: seq<Entry<Tensor>>) {
    forall i :: 0 <= i < |ts| ==> |ts[i].value.shape| <= 8
  }

  method WriteTensors(ts: seq<Entry<Tensor>>) returns (r: Option<seq<Octet>>)
    ensures r == if ShapesFit(ts) then Some(PrintMembers(TensorMembers(ts))) else None
  {
    hide PrintMembers, PrintMember, TensorJson;
    var ss: seq<Octet> := [];
    var i := 0;
    NothingPrinted();
    while i < |ts|
      invariant i <= |ts| && ShapesFit(ts[..i]) && ss == PrintMembers(TensorMembers(ts[..i]))
    {
      if |ts[i].value.shape| > 8 { return None; }
      var m := Member(ts[i].name, TensorJson(ts[i].value));
      assert TensorMembers(ts[..i + 1]) == TensorMembers(ts[..i]) + [m];
      MembersSnoc(TensorMembers(ts[..i]), m);
      if 0 < i {
        ss := ss + [0x2C, 0x20];
      }
      var text := WriteTensor(ts[i].name, ts[i].value);
      ss := ss + text;
      i := i + 1;
    }
    assert ts[..i] == ts;
    r := Some(ss);
  }

  /** save_to_memory: the container of every consistent value whose shapes have at
      most eight dimensions, and nothing for any other. */
  method Save(st: Safetensors) returns (r: Option<seq<Octet>>)
    requires |st.storage| < TWO_64
    requires forall i :: 0 <= i < |st.tensors| ==>
      st.tensors[i].value.begin < TWO_64 && st.tensors[i].value.end < TWO_64
    ensures r == if Consistent(st) && ShapesFit(st.tensors) then Some(Container(st)) else None
  {
    hide Consistent, ShapesFit, PrintMembers, MetadataMembers, TensorMembers, Quoted, Le;
    var valid := ValidateDataOffsets(st);
    if !valid { return None; }
    var ss: seq<Octet> := [0x7B];
    if st.metadata != [] {
      var meta := WriteMetadata(st.metadata);
      ss := ss + (Quoted(METADATA) + [0x3A, 0x20, 0x7B] + meta + [0x7D]);
      if st.tensors != [] {
        ss := ss + [0x2C, 0x20];
      }
    }
    var tensors := WriteTensors(st.tensors);
    if tensors.None? { return None; }
    ss := ss + tensors.value + [0x7D];
    HeaderText(st);
    var pad := if |ss| % 8 != 0 then 8 - |ss| % 8 else 0;
    r := Some(Le(|ss| + pad, 8) + (ss + Blanks(pad)) + st.storage);
  }

  lemma HeaderText(st: Safetensors)
    ensures
      var meta, ts := PrintMembers(MetadataMembers(st.metadata)), PrintMembers(TensorMembers(st.tensors));
      Print(HeaderJson(st)) ==
        (if st.metadata == [] then [0x7B]
         else if st.tensors == [] then [0x7B] + (Quoted(METADATA) + [0x3A, 0x20, 0x7B] + meta + [0x7D])
         else [0x7B] + (Quoted(METADATA) + [0x3A, 0x20, 0x7B] + meta + [0x7D]) + [0x2C, 0x20]) + ts + [0x7D]
  {
    hide MetadataMembers, TensorMembers, Quoted, PrintMember;
    var md, ts := MetadataMembers(st.metadata), TensorMembers(st.tensors);
    var meta, text := PrintMembers(md), PrintMembers(ts);
    if st.metadata == [] {
      assert HeaderJson(st) == Obj(ts) by { assert [] + ts == ts; }
    } else {
      var m := Member(METADATA, Obj(md));
      MemberText(METADATA, md);
      assert HeaderJson(st) == Obj([m] + ts);
      assert ([m] + ts)[1..] == ts;
      var p := PrintMember(m);
      if st.tensors == [] {
        assert [0x7B] + p + [0x7D] == [0x7B] + p + text + [0x7D];
      } else {
        assert [0x7B] + (p + [0x2C, 0x20] + text) + [0x7D] == [0x7B] + p + [0x2C, 0x20] + text + [0x7D];
      }
    }
  }

  lemma MemberText(key: Name, ms: seq<Member>)
    ensures PrintMember(Member(key, Obj(ms))) == Quoted(key) + [0x3A, 0x20, 0x7B] + PrintMembers(ms) + [0x7D]
  {
    hide PrintMembers, Quoted;
    var k, t := Quoted(key), PrintMembers(ms);
    assert k + [0x3A, 0x20] + ([0x7B] + t + [0x7D]) == k + [0x3A, 0x20, 0x7B] + t + [0x7D];
  }

  // ----- The reader -----

  lemma {:induction false} NumbersSnoc(vs: seq<Json>, v: Json, conv: seq<Octet> -> nat)
    requires Numbers(vs, conv).Some?
    ensures Numbers(vs + [v], conv) == if v.Num? then Some(Numbers(vs, conv).value + [conv(v.literal)]) else None
  {
    if vs == [] {
      assert vs + [v] == [v] && [v][1..] == [];
      NoNumbers(conv);
      if v.Num? {
        assert [conv(v.literal)] + [] == [] + [conv(v.literal)];
      }
    } else {
      NumbersSnoc(vs[1..], v, conv);
      assert (vs + [v])[1..] == vs[1..] + [v];
      var n, ns := conv(vs[0].literal), Numbers(vs[1..], conv).value;
      if v.Num? {
        assert [n] + (ns + [conv(v.literal)]) == ([n] + ns) + [conv(v.literal)];
      }
    }
  }

  lemma {:induction false} NumbersFail(vs: seq<Json>, i: nat, conv: seq<Octet> -> nat)
    requires i < |vs| && !vs[i].Num?
    ensures Numbers(vs, conv).None?
  {
    if i != 0 {
      NumbersFail(vs[1..], i - 1, conv);
    }
  }

  /** The loop of parse_shape and of parse_data_offsets: numbers only, at most `max`. */
  method ReadNumbers(vs: seq<Json>, max: nat, conv: seq<Octet> -> nat) returns (r: Option<seq<nat>>)
    ensures r == if |vs| <= max then Numbers(vs, conv) else None
  {
    hide Numbers;
    NoNumbers(conv);
    var dst: seq<nat> := [];
    var i := 0;
    while i < |vs|
      invariant i <= |vs| && i <= max && |dst| == i && Numbers(vs[..i], conv) == Some(dst)
    {
      if !vs[i].Num? {
        NumbersFail(vs, i, conv);
        return None;
      }
      if |dst| >= max { return None; }
      NumbersSnoc(vs[..i], vs[i], conv);
      assert vs[..i + 1] == vs[..i] + [vs[i]];
      dst := dst + [conv(vs[i].literal)];
      i := i + 1;
    }
    assert vs[..i] == vs;
    r := Some(dst);
  }

  lemma NoNumbers(conv: seq<Octet> -> nat)
    ensures Numbers([], conv) == Some([])
  {
  }

  method ReadShape(v: Json, conv: seq<Octet> -> nat) returns (r: Option<seq<nat>>)
    ensures r == ShapeOf(v, conv)
  {
    if !v.Arr? { return None; }
    r := ReadNumbers(v.items, 8, conv);
  }

  method ReadOffsets(v: Json, conv: seq<Octet> -> nat) returns (r: Option<seq<nat>>)
    ensures r == OffsetsOf(v, conv)
  {
    if !v.Arr? { return None; }
    r := ReadNumbers(v.items, 2, conv);
    NumbersLength(v.items, conv);
    if r.Some? && |r.value| != 2 { return None; }
  }

  lemma {:induction false} LookupSnoc(ms: seq<Member>, m: Member, key: Name)
    ensures Lookup(ms + [m], key) ==
      if Lookup(ms, key).Some? then Lookup(ms, key) else if m.key == key then Some(m.value) else None
  {
    if ms == [] {
      assert ms + [m] == [m] && [m][1..] == [];
    } else {
      LookupSnoc(ms[1..], m, key);
      assert (ms + [m])[1..] == ms[1..] + [m];
    }
  }

  lemma {:induction false} LookupAt(ms: seq<Member>, i: nat)
    requires DistinctKeys(ms) && i < |ms|
    ensures Lookup(ms, ms[i].key) == Some(ms[i].value)
    ensures Lookup(ms[..i], ms[i].key) == None
    decreases i
  {
    if i != 0 {
      LookupAt(ms[1..], i - 1);
      assert ms[..i][1..] == ms[1..][..i - 1];
      assert ms[..i][0] == ms[0];
    }
  }

  /** The fields of a tensor gathered from the members seen so far. */
  ghost predicate Gathered(ms: seq<Member>, conv: seq<Octet> -> nat, dtype: Option<Dtype>, shape: Option<seq<nat>>,
          off: Option<seq<nat>>) {
    && (match Lookup(ms, DTYPE)
        case None => dtype.None?
        case Some(v) => dtype.Some? && v.Str? && DtypeOf(v.chars) == dtype)
    && (match Lookup(ms, SHAPE)
        case None => shape.None?
        case Some(v) => shape.Some? && ShapeOf(v, conv) == shape)
    && (match Lookup(ms, DATA_OFFSETS)
        case None => off.None?
        case Some(v) => off.Some? && OffsetsOf(v, conv) == off)
  }

  /** parse_tensor */
  method ReadTensor(v: Json, conv: seq<Octet> -> nat) returns (r: Option<Tensor>)
    requires v.Obj? ==> DistinctKeys(v.members)
    ensures r == TensorOf(v, conv)
  {
    hide Lookup, DistinctKeys, DtypeOf, ShapeOf, OffsetsOf;
    if !v.Obj? { return None; }
    var ms := v.members;
    var dtype: Option<Dtype>, shape: Option<seq<nat>>, off: Option<seq<nat>> := None, None, None;
    KeysDiffer();
    NothingFound();
    var i := 0;
    while i < |ms|
      invariant i <= |ms| && Gathered(ms[..i], conv, dtype, shape, off)
    {
      var m := ms[i];
      assert ms[..i + 1] == ms[..i] + [m];
      LookupSnoc(ms[..i], m, DTYPE);
      LookupSnoc(ms[..i], m, SHAPE);
      LookupSnoc(ms[..i], m, DATA_OFFSETS);
      LookupAt(ms, i);
      if m.key == DTYPE {
        dtype := if m.value.Str? then DtypeOf(m.value.chars) else None;
        if dtype.None? { return None; }
      } else if m.key == SHAPE {
        shape := ReadShape(m.value, conv);
        if shape.None? { return None; }
      } else if m.key == DATA_OFFSETS {
        off := ReadOffsets(m.value, conv);
        if off.None? { return None; }
      }
      i := i + 1;
    }
    assert ms[..i] == ms;
    if dtype.None? || shape.None? { return None; }
    var empty := HasZero(shape.value);
    if empty {
      if off.Some? { return None; }
      return Some(Tensor(dtype.value, shape.value, 0, 0));
    }
    if off.None? { return None; }
    r := Some(Tensor(dtype.value, shape.value, off.value[0], off.value[1]));
  }

  lemma NothingFound()
    ensures forall key :: Lookup([], key) == None
  {
  }

  method HasZero(shape: seq<nat>) returns (empty: bool)
    ensures empty == (0 in shape)
  {
    var i := 0;
    while i < |shape|
      invariant i <= |shape| && 0 !in shape[..i]
    {
      if shape[i] == 0 { return true; }
      i := i + 1;
    }
    empty := false;
  }

  function PrependMetadata(es: seq<Entry<Name>>, r: Option<seq<Entry<Name>>>): Option<seq<Entry<Name>>> {
    if r.None? then None else Some(es + r.value)
  }

  /** parse_metadata */
  method ReadMetadata(ms: seq<Member>) returns (r: Option<seq<Entry<Name>>>)
    ensures r == MetadataOf(ms)
  {
    var dst: seq<Entry<Name>> := [];
    var i := 0;
    assert ms[0..] == ms;
    assert MetadataOf(ms).Some? ==> [] + MetadataOf(ms).value == MetadataOf(ms).value;
    while i < |ms|
      invariant i <= |ms| && MetadataOf(ms) == PrependMetadata(dst, MetadataOf(ms[i..]))
    {
      assert ms[i..][0] == ms[i] && ms[i..][1..] == ms[i + 1..];
      if !ms[i].value.Str? { return None; }
      var e := Entry(ms[i].key, ms[i].value.chars);
      if MetadataOf(ms[i + 1..]).Some? {
        var rest := MetadataOf(ms[i + 1..]).value;
        assert dst + ([e] + rest) == dst + [e] + rest;
      }
      dst := dst + [e];
      i := i + 1;
    }
    assert ms[i..] == [] && dst + [] == dst;
    r := Some(dst);
  }

  type Header = (seq<Entry<Tensor>>, seq<Entry<Name>>)

  function PrependHeader(ts: seq<Entry<Tensor>>, es: seq<Entry<Name>>, r: Option<Header>): Option<Header> {
    match r
    case None => None
    case Some((us, fs)) => Some((ts + us, es + fs))
  }

  lemma PrependTensor(ts: seq<Entry<Tensor>>, es: seq<Entry<Name>>, t: Entry<Tensor>, r: Option<Header>)
    ensures PrependHeader(ts, es, PrependHeader([t], [], r)) == PrependHeader(ts + [t], es, r)
  {
    match r
    case None =>
    case Some((us, fs)) =>
      assert ts + ([t] + us) == ts + [t] + us;
      assert [] + fs == fs;
  }

  lemma PrependMeta(ts: seq<Entry<Tensor>>, es: seq<Entry<Name>>, meta: seq<Entry<Name>>, r: Option<Header>)
    ensures PrependHeader(ts, es, PrependHeader([], meta, r)) == PrependHeader(ts, es + meta, r)
  {
    match r
    case None =>
    case Some((us, fs)) =>
      assert es + (meta + fs) == es + meta + fs;
      assert [] + us == us;
  }

  /** One member of the root object. */
  lemma HeaderStep(ms: seq<Member>, conv: seq<Octet> -> nat)
    requires ms != []
    ensures ms[0].key == METADATA && (!ms[0].value.Obj? || MetadataOf(ms[0].value.members).None?) ==>
      HeaderOf(ms, conv).None?
    ensures ms[0].key == METADATA && ms[0].value.Obj? && MetadataOf(ms[0].value.members).Some? ==>
      HeaderOf(ms, conv) == PrependHeader([], MetadataOf(ms[0].value.members).value, HeaderOf(ms[1..], conv))
    ensures ms[0].key != METADATA && TensorOf(ms[0].value, conv).None? ==> HeaderOf(ms, conv).None?
    ensures ms[0].key != METADATA && TensorOf(ms[0].value, conv).Some? ==>
      HeaderOf(ms, conv) == PrependHeader([Entry(ms[0].key, TensorOf(ms[0].value, conv).value)], [],
        HeaderOf(ms[1..], conv))
  {
    hide TensorOf, MetadataOf;
    match HeaderOf(ms[1..], conv)
    case None =>
    case Some((us, fs)) =>
      assert [] + us == us && [] + fs == fs;
  }

  /** The members of the root object. */
  method ReadHeader(ms: seq<Member>, conv: seq<Octet> -> nat) returns (r: Option<Header>)
    requires forall i :: 0 <= i < |ms| && ms[i].value.Obj? ==> DistinctKeys(ms[i].value.members)
    ensures r == HeaderOf(ms, conv)
  {
    hide HeaderOf, TensorOf, MetadataOf, DistinctKeys, PrependHeader;
    var ts: seq<Entry<Tensor>>, es: seq<Entry<Name>> := [], [];
    var i := 0;
    assert ms[0..] == ms;
    NothingPrepended(HeaderOf(ms, conv));
    while i < |ms|
      invariant i <= |ms| && HeaderOf(ms, conv) == PrependHeader(ts, es, HeaderOf(ms[i..], conv))
    {
      ghost var rest := ms[i..];
      assert rest[0] == ms[i] && rest[1..] == ms[i + 1..];
      HeaderStep(rest, conv);
      FailedHeader(ts, es);
      if ms[i].key == METADATA {
        if !ms[i].value.Obj? { return None; }
        var meta := ReadMetadata(ms[i].value.members);
        if meta.None? { return None; }
        PrependMeta(ts, es, meta.value, HeaderOf(rest[1..], conv));
        es := es + meta.value;
      } else {
        var t := ReadTensor(ms[i].value, conv);
        if t.None? { return None; }
        PrependTensor(ts, es, Entry(ms[i].key, t.value), HeaderOf(rest[1..], conv));
        ts := ts + [Entry(ms[i].key, t.value)];
      }
      i := i + 1;
    }
    assert ms[i..] == [];
    EmptyHeader(ts, es, conv);
    r := Some((ts, es));
  }

  lemma FailedHeader(ts: seq<Entry<Tensor>>, es: seq<Entry<Name>>)
    ensures PrependHeader(ts, es, None) == None
  {
  }

  lemma NothingPrepended(r: Option<Header>)
    ensures PrependHeader([], [], r) == r
  {
    match r
    case None =>
    case Some((us, fs)) => assert [] + us == us && [] + fs == fs;
  }

  lemma EmptyHeader(ts: seq<Entry<Tensor>>, es: seq<Entry<Name>>, conv: seq<Octet> -> nat)
    ensures PrependHeader(ts, es, HeaderOf([], conv)) == Some((ts, es))
  {
    assert ts + [] == ts && es + [] == es;
  }

  /** load_from_memory */
  method LoadFromMemory(bytes: seq<Octet>, conv: seq<Octet> -> nat) returns (r: Option<Safetensors>)
    ensures r == Load(bytes, conv)
  {
    hide ParseAny, HeaderOf, Keyed, U64;
    if |bytes| < 16 { return None; }
    var size := FromLe(bytes[..8]);
    if size < 4 { return None; }
    if U64(8 + size) > |bytes| { return None; }
    if size > 0x640_0000 { return None; }
    var v := ReadAny(bytes[8..8 + size], 0);
    if v.Err? { return None; }
    var header: Option<Header> := Some(([], []));
    if v.value.Obj? {
      AnyKeyed(bytes[8..8 + size], 0);
      KeyedMembers(v.value);
      header := ReadHeader(v.value.members, conv);
      if header.None? { return None; }
    }
    r := Some(Safetensors(header.value.0, header.value.1, bytes[8 + size..]));
  }

  lemma KeyedMembers(v: Json)
    requires Keyed(v) && v.Obj?
    ensures forall i :: 0 <= i < |v.members| && v.members[i].value.Obj? ==> DistinctKeys(v.members[i].value.members)
  {
  }

  /** save_to_memory then load_from_memory. */
  method SaveThenLoad(st: Safetensors, conv: seq<Octet> -> nat) returns (r: Option<Safetensors>)
    requires Writable(st) && Consistent(st) && |st.storage| < TWO_64
    requires forall i :: 0 <= i < |st.tensors| ==>
      st.tensors[i].value.begin < TWO_64 && st.tensors[i].value.end < TWO_64
    ensures r == Some(st) <==> !HasEmpty(st.tensors) && KeptTensors(st.tensors, conv)
    ensures HasEmpty(st.tensors) && KeptTensors(st.tensors, conv) ==> r == None
  {
    assert ShapesFit(st.tensors);
    hide Writable, KeptTensors, Consistent, HasEmpty, Load, Container;
    var bytes := Save(st);
    RoundTrip(st, conv);
    r := LoadFromMemory(bytes.value, conv);
  }
}
