/** GPU enumeration: discovered PCI devices are sorted into the table whose indices
    become GPU numbers, and looked up again by a wrap-around probe. */
module PciOrder {
  import opened Powers

  const UINT_MAX: nat := 0xFFFF_FFFF

  /** nvfs_pdevinfo: domain in the upper half, bus and devfn at the bottom. */
  function DevInfo(domain: nat, bus: nat, devfn: nat): nat {
    domain * 0x1_0000_0000 + bus * 0x100 + devfn
  }

  function Domain(x: nat): nat {
    x / 0x1_0000_0000
  }

  /** A value that describes some device. */
  predicate IsDevice(x: nat) {
    Domain(x) < 0x1_0000_0000 && x % 0x1_0000_0000 < 0x1_0000
  }

  /** A discovered device with the fields it is sorted by. */
  datatype Info = Info(pdevinfo: nat, domain: nat, bus: nat, slot: nat, func: nat)

  /** The fields as the driver cuts them out of the 64-bit value. */
  function Decode(x: nat): Info {
    Info(x, x / 0x100_0000 % 0x1_0000, x / 0x1_0000 % 0x100, x / 0x100 % 0x100, x % 0x100)
  }

  /** The comparison of the sort: field by field. */
  predicate Greater(a: Info, b: Info) {
    || a.domain > b.domain
    || (a.domain == b.domain && a.bus > b.bus)
    || (a.domain == b.domain && a.bus == b.bus && a.slot > b.slot)
    || (a.domain == b.domain && a.bus == b.bus && a.slot == b.slot && a.func > b.func)
  }

  predicate FieldsFit(a: Info) {
    a.bus < 0x100 && a.slot < 0x100 && a.func < 0x100
  }

  /** One number for the four fields. */
  function Rank(a: Info): nat {
    a.domain * 0x100_0000 + a.bus * 0x1_0000 + a.slot * 0x100 + a.func
  }

  lemma GreaterIsRank(a: Info, b: Info)
    requires FieldsFit(a) && FieldsFit(b)
    ensures Greater(a, b) <==> Rank(a) > Rank(b)
  {
  }

  /** The device with its domain cut to eight bits. */
  function OrderKey(x: nat): nat {
    Domain(x) % 0x100 * 0x1_0000_0000 + x % 0x1_0000_0000
  }

  /** What the fields of a device amount to: the cut is eight bits off, so only the
      low eight bits of the domain count. */
  lemma DeviceRank(x: nat)
    requires IsDevice(x)
    ensures FieldsFit(Decode(x)) && Rank(Decode(x)) == OrderKey(x)
  {
    var d, low := Domain(x), x % 0x1_0000_0000;
    assert x == DevInfo(d, low / 0x100, low % 0x100);
    Fields(d, low / 0x100, low % 0x100);
    HighFields(d, low / 0x100, low % 0x100);
  }

  lemma Fields(d: nat, bus: nat, devfn: nat)
    requires bus < 0x100 && devfn < 0x100
    ensures DevInfo(d, bus, devfn) % 0x100 == devfn && DevInfo(d, bus, devfn) / 0x100 % 0x100 == bus
    ensures DevInfo(d, bus, devfn) / 0x1_0000 == d * 0x1_0000
  {
    var x := DevInfo(d, bus, devfn);
    var y := d * 0x100_0000 + bus;
    assert x == y * 0x100 + devfn;
    assert x / 0x100 == y && x % 0x100 == devfn;
    assert y == d * 0x1_0000 * 0x100 + bus;
    assert y / 0x100 == d * 0x1_0000 && y % 0x100 == bus;
    assert x / 0x1_0000 == x / 0x100 / 0x100;
  }

  lemma HighFields(d: nat, bus: nat, devfn: nat)
    requires bus < 0x100 && devfn < 0x100
    ensures DevInfo(d, bus, devfn) / 0x1_0000 % 0x100 == 0
    ensures DevInfo(d, bus, devfn) / 0x100_0000 % 0x1_0000 == d % 0x100 * 0x100
  {
    Fields(d, bus, devfn);
    var x := DevInfo(d, bus, devfn);
    assert x / 0x100_0000 == x / 0x1_0000 / 0x100 == d * 0x100;
  }

  /** The field-wise order puts a device after every numerically smaller one if and
      only if its PCI domain is below 256. */
  lemma OrderExact(x: nat)
    requires IsDevice(x)
    ensures (forall y: nat :: IsDevice(y) && y < x ==> Greater(Decode(x), Decode(y))) <==> Domain(x) < 0x100
  {
    hide Greater, Decode, Rank;
    DeviceRank(x);
    if Domain(x) < 0x100 {
      forall y: nat | IsDevice(y) && y < x ensures Greater(Decode(x), Decode(y)) {
        DeviceRank(y);
        GreaterIsRank(Decode(x), Decode(y));
      }
    } else {
      var y := Domain(x) % 0x100 * 0x1_0000_0000 + x % 0x1_0000_0000;
      assert Domain(y) == Domain(x) % 0x100 && y % 0x1_0000_0000 == x % 0x1_0000_0000;
      DeviceRank(y);
      GreaterIsRank(Decode(x), Decode(y));
    }
  }

  // ----- The sort -----

  ghost predicate Ordered(s: seq<Info>) {
    forall i, j :: 0 <= i < j < |s| ==> Rank(s[i]) <= Rank(s[j])
  }

  predicate AllFit(s: seq<Info>) {
    forall i :: 0 <= i < |s| ==> FieldsFit(s[i])
  }

  /** The first `i` elements are in order and rank at most as high as all others. */
  ghost predicate Settled(s: seq<Info>, i: nat) {
    forall k, m :: 0 <= k < i && k < m < |s| ==> Rank(s[k]) <= Rank(s[m])
  }

  /** Element `i` ranks at most as high as those after it and before `j`. */
  ghost predicate LeastUpTo(s: seq<Info>, i: nat, j: nat)
    requires i < |s| && j <= |s|
  {
    forall m :: i < m < j ==> Rank(s[i]) <= Rank(s[m])
  }

  function Swapped(s: seq<Info>, i: nat, j: nat): (t: seq<Info>)
    requires i < |s| && j < |s|
    ensures |t| == |s|
  {
    s[i := s[j]][j := s[i]]
  }

  /** Exchanging two elements keeps the contents and what is settled before them,
      and puts the smaller first. */
  lemma SwapKeeps(s: seq<Info>, i: nat, j: nat)
    requires i < j < |s| && AllFit(s) && Settled(s, i) && LeastUpTo(s, i, j) && Rank(s[j]) < Rank(s[i])
    ensures multiset(Swapped(s, i, j)) == multiset(s) && AllFit(Swapped(s, i, j))
    ensures Settled(Swapped(s, i, j), i) && LeastUpTo(Swapped(s, i, j), i, j + 1)
  {
    hide Rank, FieldsFit;
  }

  lemma NextLeast(s: seq<Info>, i: nat, j: nat)
    requires i < j < |s| && LeastUpTo(s, i, j) && Rank(s[i]) <= Rank(s[j])
    ensures LeastUpTo(s, i, j + 1)
  {
    hide Rank;
  }

  lemma NextSettled(s: seq<Info>, i: nat)
    requires i < |s| && Settled(s, i) && LeastUpTo(s, i, |s|)
    ensures Settled(s, i + 1)
  {
    hide Rank;
  }

  lemma SettledIsOrdered(s: seq<Info>, i: nat)
    requires Settled(s, i) && |s| <= i + 1
    ensures Ordered(s)
  {
    hide Rank;
  }

  lemma SortStarts(s: seq<Info>, i: nat)
    ensures Settled(s, 0) && (i < |s| ==> LeastUpTo(s, i, i + 1))
  {
  }

  /** One pass: bring a smallest remaining element to position `i`. */
  method Pass(a: array<Info>, n: nat, i: nat)
    requires i < n <= a.Length && AllFit(a[..n]) && Settled(a[..n], i)
    modifies a
    ensures multiset(a[..n]) == multiset(old(a[..n])) && AllFit(a[..n]) && Settled(a[..n], i + 1)
  {
    hide Rank, Greater, AllFit, Settled, LeastUpTo;
    ghost var s := a[..n];
    SortStarts(s, i);
    var j := i + 1;
    while j < n
      invariant i < j <= n && a[..n] == s && |s| == n && multiset(s) == multiset(old(a[..n]))
      invariant AllFit(s) && Settled(s, i) && LeastUpTo(s, i, j)
    {
      assert a[i] == s[i] && a[j] == s[j];
      Fit(s, i);
      Fit(s, j);
      GreaterIsRank(s[i], s[j]);
      if Greater(a[i], a[j]) {
        SwapKeeps(s, i, j);
        a[i], a[j] := a[j], a[i];
        s := Swapped(s, i, j);
        assert a[..n] == s;
      } else {
        NextLeast(s, i, j);
      }
      j := j + 1;
    }
    NextSettled(s, i);
  }

  lemma Fit(s: seq<Info>, i: nat)
    requires AllFit(s) && i < |s|
    ensures FieldsFit(s[i])
  {
  }

  /** The exchange sort. */
  method Sort(a: array<Info>, n: nat)
    requires n <= a.Length && AllFit(a[..n])
    modifies a
    ensures Ordered(a[..n]) && multiset(a[..n]) == multiset(old(a[..n]))
  {
    hide Rank, Ordered, Settled, AllFit;
    var i := 0;
    SortStarts(a[..n], n);
    while i + 1 < n
      invariant i <= n && multiset(a[..n]) == multiset(old(a[..n])) && (n > 0 ==> i < n)
      invariant AllFit(a[..n]) && Settled(a[..n], i)
    {
      Pass(a, n, i);
      i := i + 1;
    }
    SettledIsOrdered(a[..n], i);
  }

  // ----- The table -----

  /** Every discovered value describes a device. */
  predicate Devices(devs: seq<nat>) {
    forall i :: 0 <= i < |devs| ==> IsDevice(devs[i])
  }

  function Infos(s: seq<Info>): (xs: seq<nat>)
    ensures |xs| == |s| && forall i :: 0 <= i < |s| ==> xs[i] == s[i].pdevinfo
  {
    seq(|s|, i requires 0 <= i < |s| => s[i].pdevinfo)
  }

  ghost predicate Ascending(xs: seq<nat>) {
    forall i, j :: 0 <= i < j < |xs| ==> xs[i] <= xs[j]
  }

  /** The order of the table for every list: the low eight bits of the domain, then
      the device within it. */
  ghost predicate AscendingByKey(xs: seq<nat>) {
    forall i, j :: 0 <= i < j < |xs| ==> OrderKey(xs[i]) <= OrderKey(xs[j])
  }

  predicate Decoded(a: Info) {
    a == Decode(a.pdevinfo) && IsDevice(a.pdevinfo)
  }

  /** The second half of __nvfs_find_all_device_paths: decode, sort, publish. */
  method PublishTable(devs: seq<nat>, table: array<nat>)
    requires Devices(devs) && |devs| <= table.Length == 64
    modifies table
    ensures multiset(table[..|devs|]) == multiset(devs) && table[|devs|..] == old(table[|devs|..])
    ensures AscendingByKey(table[..|devs|])
    ensures (forall i :: 0 <= i < |devs| ==> Domain(devs[i]) < 0x100) ==> Ascending(table[..|devs|])
  {
    var n := |devs|;
    var infos := new Info[64](_ => Info(0, 0, 0, 0, 0));
    var i := 0;
    while i < n
      invariant i <= n && forall k :: 0 <= k < i ==> infos[k] == Decode(devs[k])
      invariant table[..] == old(table[..])
    {
      infos[i] := Decode(devs[i]);
      i := i + 1;
    }
    hide Rank, Decode, Ordered, Ascending, AscendingByKey;
    forall k | 0 <= k < n ensures FieldsFit(infos[..n][k]) { DeviceRank(devs[k]); }
    ghost var unsorted := infos[..n];
    Sort(infos, n);
    ghost var sorted := infos[..n];
    assert table[n..] == table[..][n..] == old(table[n..]);
    i := 0;
    while i < n
      invariant i <= n && infos[..n] == sorted && table[n..] == old(table[n..])
      invariant forall k :: 0 <= k < i ==> table[k] == infos[k].pdevinfo
    {
      table[i] := infos[i].pdevinfo;
      i := i + 1;
    }
    assert table[..n] == Infos(sorted);
    assert Infos(unsorted) == devs;
    InfosPermute(unsorted, sorted);
    assert forall k :: 0 <= k < n ==> Decoded(unsorted[k]) && unsorted[k].pdevinfo == devs[k];
    TableOrder(unsorted, sorted);
  }

  /** Permuting the records permutes the values in them. */
  lemma {:induction false} InfosPermute(s: seq<Info>, t: seq<Info>)
    requires multiset(s) == multiset(t)
    ensures multiset(Infos(s)) == multiset(Infos(t))
    decreases |s|
  {
    hide Infos;
    if s == [] {
      assert |multiset(t)| == 0;
      assert t == [];
    } else {
      var x := s[0];
      var k := Find(t, x, s);
      var s', t' := s[..0] + s[1..], t[..k] + t[k + 1..];
      TakeOut(s, 0);
      TakeOut(t, k);
      Cancel(multiset(s'), multiset(t'), x);
      InfosPermute(s', t');
    }
  }

  lemma Find(t: seq<Info>, x: Info, s: seq<Info>) returns (k: nat)
    requires multiset(s) == multiset(t) && s != [] && x == s[0]
    ensures k < |t| && t[k] == x
  {
    assert x in multiset(s);
    assert x in t;
    k :| 0 <= k < |t| && t[k] == x;
  }

  lemma Cancel(a: multiset<Info>, b: multiset<Info>, x: Info)
    requires a + multiset{x} == b + multiset{x}
    ensures a == b
  {
    assert a == (a + multiset{x}) - multiset{x};
    assert b == (b + multiset{x}) - multiset{x};
  }

  lemma TakeOut(s: seq<Info>, k: nat)
    requires k < |s|
    ensures multiset(s) == multiset(s[..k] + s[k + 1..]) + multiset{s[k]}
    ensures multiset(Infos(s)) == multiset(Infos(s[..k] + s[k + 1..])) + multiset{s[k].pdevinfo}
  {
    assert s == s[..k] + [s[k]] + s[k + 1..];
    var rest := s[..k] + s[k + 1..];
    var a, b := Infos(s)[..k], Infos(s)[k + 1..];
    assert Infos(rest) == a + b;
    assert Infos(s) == a + [s[k].pdevinfo] + b;
  }

  lemma TableOrder(s: seq<Info>, t: seq<Info>)
    requires multiset(s) == multiset(t) && Ordered(t) && forall k :: 0 <= k < |s| ==> Decoded(s[k])
    ensures AscendingByKey(Infos(t))
    ensures (forall k :: 0 <= k < |s| ==> Domain(s[k].pdevinfo) < 0x100) ==> Ascending(Infos(t))
  {
    hide Rank, Decode;
    forall i, j | 0 <= i < j < |t|
      ensures OrderKey(Infos(t)[i]) <= OrderKey(Infos(t)[j])
      ensures (forall k :: 0 <= k < |s| ==> Domain(s[k].pdevinfo) < 0x100) ==> Infos(t)[i] <= Infos(t)[j]
    {
      SameElements(s, t, i);
      SameElements(s, t, j);
      DeviceRank(t[i].pdevinfo);
      DeviceRank(t[j].pdevinfo);
      assert Rank(t[i]) <= Rank(t[j]);
    }
  }

  lemma SameElements(s: seq<Info>, t: seq<Info>, i: nat)
    requires multiset(s) == multiset(t) && i < |t|
    ensures exists k :: 0 <= k < |s| && s[k] == t[i]
  {
    assert t[i] in multiset(t);
    assert t[i] in s;
  }

  // ----- The probe -----

  /** The value without its info bits 16 to 31. */
  function Masked(x: nat): nat {
    x / 0x1_0000_0000 * 0x1_0000_0000 + x % 0x1_0000
  }

  /** The slot visited in turn `k` when the probe starts at `start`. */
  function Slot(start: nat, k: nat, max: nat): nat
    requires 0 < max
  {
    (start + k) % max
  }

  lemma SlotNext(start: nat, k: nat, max: nat)
    requires 0 < max
    ensures Slot(start, k + 1, max) == (Slot(start, k, max) + 1) % max
  {
    var x := start + k;
    var q, r := x / max, x % max;
    assert x == q * max + r;
    if r + 1 < max {
      Remainder(x + 1, q, r + 1, max);
      Remainder(r + 1, 0, r + 1, max);
    } else {
      NextMultiple(q, max);
      Remainder(x + 1, q + 1, 0, max);
      Remainder(r + 1, 1, 0, max);
    }
  }

  lemma NextMultiple(q: nat, m: nat)
    ensures (q + 1) * m == q * m + m
  {
  }

  lemma Remainder(x: nat, q: nat, r: nat, m: nat)
    requires r < m && x == q * m + r
    ensures x % m == r
  {
    var q', r' := x / m, x % m;
    assert x == q' * m + r';
    if q' < q {
      Monotone(q' + 1, q, m);
      assert false;
    } else if q < q' {
      Monotone(q + 1, q', m);
      assert false;
    }
  }

  /** `max` turns visit every slot. */
  lemma EverySlot(start: nat, t: nat, max: nat)
    requires start < max && t < max
    ensures exists k :: 0 <= k < max && Slot(start, k, max) == t
  {
    var k := if start <= t then t - start else t - start + max;
    if start <= t {
      Remainder(start + k, 0, t, max);
    } else {
      Remainder(start + k, 1, t, max);
    }
    assert Slot(start, k, max) == t;
  }

  /** _lookup_index_entry: from any hash value the probe finds a slot that holds the
      key, if there is one, even though entries were not placed by hash. */
  method LookupIndex(key: nat, table: array<nat>, hash: nat) returns (r: nat)
    requires 0 < table.Length < 0xFFFF_FFFF
    ensures r < table.Length ==> Masked(table[r]) == key
    ensures r >= table.Length ==> r == UINT_MAX && forall t :: 0 <= t < table.Length ==> Masked(table[t]) != key
  {
    hide Slot, Masked;
    var max := table.Length;
    var idx := hash % max;
    ghost var start := idx;
    SlotStarts(start, max);
    var i := 0;
    while i < max
      invariant i <= max && idx == Slot(start, i, max) < max
      invariant forall k :: 0 <= k < i ==> Masked(table[Slot(start, k, max)]) != key
    {
      if Masked(table[idx]) == key { return idx; }
      SlotNext(start, i, max);
      idx := (idx + 1) % max;
      i := i + 1;
    }
    forall t | 0 <= t < max ensures Masked(table[t]) != key {
      EverySlot(start, t, max);
    }
    r := UINT_MAX;
  }

  lemma SlotStarts(start: nat, max: nat)
    requires start < max
    ensures Slot(start, 0, max) == start && forall k: nat :: Slot(start, k, max) < max
  {
  }

  /** In a table of different devices every device is found at its own index. */
  lemma FoundAtIndex(table: seq<nat>, n: nat, i: nat, r: nat)
    requires i < n <= |table| && (forall k :: 0 <= k < n ==> IsDevice(table[k]))
      && (forall k :: n <= k < |table| ==> table[k] == 0)
    requires (forall j, k :: 0 <= j < k < n ==> table[j] != table[k]) && table[i] != 0
    requires r < |table| && Masked(table[r]) == table[i]
    ensures r == i
  {
    hide Masked;
    if r < n {
      MaskedDevice(table[r]);
    } else {
      MaskedDevice(0);
    }
  }

  lemma MaskedDevice(x: nat)
    requires IsDevice(x)
    ensures Masked(x) == x
  {
  }
}
