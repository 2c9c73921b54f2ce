/** fgds_regmem and fgds_deregmem: the loops that map and unmap the segments
    of a registration, and the cleanup of one that failed half way. */
module Registration {
  import opened Options
  import opened Layout
  import PageMap
  import opened Registry
  import opened Sizes

  ghost function ToSet(s: seq<nat>): set<nat> {
    set a | a in s
  }

  ghost predicate Distinct(s: seq<nat>) {
    forall i, j :: 0 <= i < j < |s| ==> s[i] != s[j]
  }

  /** `live` is `live0` plus the mappings at `extra`, which were free before. */
  ghost predicate Extends(live0: map<nat, nat>, live: map<nat, nat>, extra: set<nat>) {
    && live.Keys == live0.Keys + extra
    && live0.Keys !! extra
    && forall a :: a in live0 ==> live[a] == live0[a]
  }

  ghost predicate SegmentsAt(live: map<nat, nat>, len: nat, vaddrs: seq<nat>) {
    forall j :: 0 <= j < |vaddrs| ==> vaddrs[j] in live && live[vaddrs[j]] == SegLength(len, j)
  }

  /** What an unmapping loop has left after its first `i` rounds: the segments
      still to come, and those (`kept`) whose munmap failed. */
  ghost predicate Remaining(live0: map<nat, nat>, live1: map<nat, nat>, live: map<nat, nat>, vaddrs: seq<nat>, i: nat,
          kept: set<nat>)
    requires i <= |vaddrs|
  {
    && kept <= ToSet(vaddrs[..i])
    && Extends(live0, live, ToSet(vaddrs[i..]) + kept)
    && forall a :: a in live ==> a in live1 && live[a] == live1[a]
  }

  lemma RemainingStarts(live0: map<nat, nat>, live: map<nat, nat>, vaddrs: seq<nat>)
    requires Extends(live0, live, ToSet(vaddrs))
    ensures Remaining(live0, live, live, vaddrs, 0, {})
  {
    assert vaddrs[0..] == vaddrs && ToSet(vaddrs) + {} == ToSet(vaddrs);
  }

  lemma RemainingStep(live0: map<nat, nat>, live1: map<nat, nat>, live: map<nat, nat>, vaddrs: seq<nat>, i: nat,
          kept: set<nat>)
    requires i < |vaddrs| && Distinct(vaddrs) && Remaining(live0, live1, live, vaddrs, i, kept)
    ensures Remaining(live0, live1, live - {vaddrs[i]}, vaddrs, i + 1, kept)
    ensures Remaining(live0, live1, live, vaddrs, i + 1, kept + {vaddrs[i]})
  {
    assert vaddrs[i..] == [vaddrs[i]] + vaddrs[i + 1..];
    assert vaddrs[..i + 1] == vaddrs[..i] + [vaddrs[i]];
    assert vaddrs[i] !in vaddrs[i + 1..] && vaddrs[i] !in vaddrs[..i];
  }

  lemma RemainingEnds(live0: map<nat, nat>, live1: map<nat, nat>, live: map<nat, nat>, vaddrs: seq<nat>, kept: set<nat>)
    requires Remaining(live0, live1, live, vaddrs, |vaddrs|, kept)
    ensures kept == live.Keys - live0.Keys && Extends(live0, live, kept)
    ensures forall a :: a in live ==> a in live1 && live[a] == live1[a]
    ensures kept == {} ==> live == live0
  {
  }

  /** The pages of the mappings in `live0` are as they were. */
  ghost predicate Untouched(live0: map<nat, nat>, pte0: map<nat, nat>, pte: map<nat, nat>) {
    forall a: nat, x: nat :: a in live0 && a <= x < a + live0[a] ==> SamePte(pte0, pte, x)
  }

  /** A call about one mapping leaves the pages of the others alone. */
  lemma UntouchedStep(live0: map<nat, nat>, live1: map<nat, nat>, pte0: map<nat, nat>, pte: map<nat, nat>,
          pte': map<nat, nat>, a: nat)
    requires LiveDisjoint(live1) && (forall b :: b in live0 ==> b in live1 && live1[b] == live0[b])
    requires a in live1 && a !in live0 && Untouched(live0, pte0, pte) && OnlyIn(pte, pte', a, live1[a])
    ensures Untouched(live0, pte0, pte')
  {
    forall b: nat, x: nat | b in live0 && b <= x < b + live0[b] ensures SamePte(pte0, pte', x) {
      assert SamePte(pte0, pte, x);
      assert RangesDisjoint(a, live1[a], b, live1[b]);
      assert SamePte(pte, pte', x);
    }
  }

  lemma UntouchedAtFirst(live: map<nat, nat>, pte: map<nat, nat>)
    ensures Untouched(live, pte, pte)
  {
  }

  /** Unmap what a failed registration had mapped. */
  method Cleanup(os: Process, len: nat, vaddrs: seq<nat>, ghost live0: map<nat, nat>)
    requires Extends(live0, os.live, ToSet(vaddrs)) && Distinct(vaddrs)
    requires LiveDisjoint(os.live) && SegmentsAt(os.live, len, vaddrs)
    modifies os`live, os`leaked, os`pte, os`faults
    ensures old(os.faults) <= os.faults
    ensures Extends(live0, os.live, os.live.Keys - live0.Keys)
    ensures os.leaked == old(os.leaked) + (os.live.Keys - live0.Keys)
    ensures forall a :: a in os.live ==> a in old(os.live) && os.live[a] == old(os.live[a])
    ensures Untouched(live0, old(os.pte), os.pte)
  {
    ghost var kept: set<nat> := {};
    RemainingStarts(live0, os.live, vaddrs);
    UntouchedAtFirst(live0, os.pte);
    for j := 0 to |vaddrs|
      invariant Remaining(live0, old(os.live), os.live, vaddrs, j, kept)
      invariant os.leaked == old(os.leaked) + kept && old(os.faults) <= os.faults
      invariant Untouched(live0, old(os.pte), os.pte)
    {
      hide Remaining, Untouched, SegLength, LiveDisjoint, OnlyIn;
      RemainingStep(live0, old(os.live), os.live, vaddrs, j, kept);
      ghost var pte := os.pte;
      var ok := os.Munmap(vaddrs[j], SegLength(len, j));
      UntouchedStep(live0, old(os.live), old(os.pte), pte, os.pte, vaddrs[j]);
      if !ok {
        kept := kept + {vaddrs[j]};
      }
    }
    RemainingEnds(live0, old(os.live), os.live, vaddrs, kept);
  }

  /** The first |vaddrs| segments are mapped and nothing else has changed. */
  ghost predicate Partial(live0: map<nat, nat>, live: map<nat, nat>, len: nat, vaddrs: seq<nat>) {
    LiveDisjoint(live) && Distinct(vaddrs) && Extends(live0, live, ToSet(vaddrs)) && SegmentsAt(live, len, vaddrs)
  }

  lemma PartialGrows(live0: map<nat, nat>, live: map<nat, nat>, len: nat, vaddrs: seq<nat>, a: nat)
    requires Partial(live0, live, len, vaddrs) && Free(live, a, SegLength(len, |vaddrs|))
    ensures Partial(live0, live[a := SegLength(len, |vaddrs|)], len, vaddrs + [a])
  {
    hide SegLength;
    var live' := live[a := SegLength(len, |vaddrs|)];
    assert ToSet(vaddrs + [a]) == ToSet(vaddrs) + {a};
    assert forall v :: v in vaddrs ==> v in live;
    assert LiveDisjoint(live');
  }

  lemma SubsetStaysDisjoint(live: map<nat, nat>, sub: map<nat, nat>)
    requires LiveDisjoint(live)
    requires forall a :: a in sub ==> a in live && sub[a] == live[a]
    ensures LiveDisjoint(sub)
  {
  }

  /** What a failed registration leaves: the old mappings, plus any whose
      munmap failed, which are recorded as leaked. */
  ghost predicate Undone(live0: map<nat, nat>, leaked0: set<nat>, live: map<nat, nat>, leaked: set<nat>) {
    && LiveDisjoint(live)
    && Extends(live0, live, live.Keys - live0.Keys)
    && leaked == leaked0 + (live.Keys - live0.Keys)
  }

  method CleanupAll(os: Process, len: nat, vaddrs: seq<nat>, ghost live0: map<nat, nat>)
    requires Partial(live0, os.live, len, vaddrs)
    modifies os`live, os`leaked, os`pte, os`faults
    ensures old(os.faults) <= os.faults
    ensures Undone(live0, old(os.leaked), os.live, os.leaked)
    ensures Untouched(live0, old(os.pte), os.pte)
  {
    hide Untouched, SegLength;
    Cleanup(os, len, vaddrs, live0);
    SubsetStaysDisjoint(old(os.live), os.live);
  }

  /** The first `k` segments of the region are backed by their GPU pages. */
  ghost predicate RegionDone(os: Process, pte: map<nat, nat>, r: Region, k: nat)
    requires k <= |r.vaddrs|
  {
    forall i :: 0 <= i < k ==> PinDone(os.gpu, os.bar, pte, PinOf(r, i))
  }

  lemma PinStays(gpu: nat -> Option<nat>, bar: PageMap.Bar, live: map<nat, nat>, pte0: map<nat, nat>,
          pte: map<nat, nat>, p: Pin)
    requires PinDone(gpu, bar, pte0, p) && Untouched(live, pte0, pte) && p.len % GPU_PAGE == 0
    requires p.vaddr in live && live[p.vaddr] == p.len
    ensures PinDone(gpu, bar, pte, p)
  {
    PageMap.FillBounds(p.len);
    var pages := PagesAt(gpu, p.gpuAddr, p.len);
    if PageMap.AllPresent(pages, PageMap.DevPages(p.len)) {
      forall k | 0 <= k < PageMap.HostPages(p.len) && k / 16 < PageMap.DevPages(p.len)
        ensures PageMap.Backed(pte, p.vaddr, pages, k)
      {
        assert PageMap.Backed(pte0, p.vaddr, pages, k);
        assert SamePte(pte0, pte, PageMap.PageAt(p.vaddr, k));
      }
    }
  }

  lemma RegionStays(os: Process, live: map<nat, nat>, pte0: map<nat, nat>, pte: map<nat, nat>, r: Region, k: nat)
    requires k <= |r.vaddrs| && RegionDone(os, pte0, r, k) && Untouched(live, pte0, pte)
    requires SegmentsAt(live, r.length, r.vaddrs) && r.length % GPU_PAGE == 0
    ensures RegionDone(os, pte, r, k)
  {
    hide PinDone, Untouched;
    forall i | 0 <= i < k ensures PinDone(os.gpu, os.bar, pte, PinOf(r, i)) {
      SegmentWhole(r.length, i);
      PinStays(os.gpu, os.bar, live, pte0, pte, PinOf(r, i));
    }
  }

  lemma SegmentWhole(len: nat, i: nat)
    requires len % GPU_PAGE == 0
    ensures SegLength(len, i) % GPU_PAGE == 0
  {
    hide SegCount;
    var q := len / SEGMENT;
    assert len % SEGMENT == len - GPU_PAGE * (SEGMENT / GPU_PAGE * q);
  }

  lemma RegionGrows(os: Process, pte: map<nat, nat>, gpuAddr: nat, len: nat, vaddrs: seq<nat>, a: nat)
    requires RegionDone(os, pte, Region(gpuAddr, len, vaddrs), |vaddrs|)
    requires PinDone(os.gpu, os.bar, pte, Pin(gpuAddr + SEGMENT * |vaddrs|, a, SegLength(len, |vaddrs|)))
    ensures RegionDone(os, pte, Region(gpuAddr, len, vaddrs + [a]), |vaddrs| + 1)
  {
    hide PinDone, SegLength;
    var r, r' := Region(gpuAddr, len, vaddrs), Region(gpuAddr, len, vaddrs + [a]);
    forall i | 0 <= i < |vaddrs| + 1 ensures PinDone(os.gpu, os.bar, pte, PinOf(r', i)) {
      if i < |vaddrs| {
        assert PinOf(r', i) == PinOf(r, i);
      }
    }
  }

  /** Binding one more segment disturbs neither the mappings from before nor the
      segments already bound. */
  lemma BindStep(os: Process, live0: map<nat, nat>, pte0: map<nat, nat>, live: map<nat, nat>, pte: map<nat, nat>,
          pte': map<nat, nat>, gpuAddr: nat, len: nat, vaddrs: seq<nat>, a: nat)
    requires Partial(live0, live, len, vaddrs) && Free(live, a, SegLength(len, |vaddrs|)) && len % GPU_PAGE == 0
    requires OnlyIn(pte, pte', a, SegLength(len, |vaddrs|))
    requires Untouched(live0, pte0, pte) && RegionDone(os, pte, Region(gpuAddr, len, vaddrs), |vaddrs|)
    ensures Untouched(live0, pte0, pte') && RegionDone(os, pte', Region(gpuAddr, len, vaddrs), |vaddrs|)
  {
    PartialGrows(live0, live, len, vaddrs, a);
    var live' := live[a := SegLength(len, |vaddrs|)];
    UntouchedAtFirst(live, pte);
    hide Untouched, RegionDone, SegLength, OnlyIn, LiveDisjoint;
    UntouchedStep(live0, live', pte0, pte, pte', a);
    UntouchedStep(live, live', pte, pte, pte', a);
    RegionStays(os, live, pte, pte', Region(gpuAddr, len, vaddrs), |vaddrs|);
  }

  lemma UntouchedTwice(live0: map<nat, nat>, pte0: map<nat, nat>, pte1: map<nat, nat>, pte: map<nat, nat>)
    requires Untouched(live0, pte0, pte1) && Untouched(live0, pte1, pte)
    ensures Untouched(live0, pte0, pte)
  {
    forall a: nat, x: nat | a in live0 && a <= x < a + live0[a] ensures SamePte(pte0, pte, x) {
      assert SamePte(pte0, pte1, x) && SamePte(pte1, pte, x);
    }
  }

  /** The mmap-then-bind loop of fgds_regmem. If it fails, `vaddrs` says which
      segments had been bound by then: those bindings stay in the kernel. */
  method MapSegments(os: Process, gpuAddr: nat, len: nat, count: nat, left: nat)
    returns (ok: bool, vaddrs: seq<nat>)
    requires LiveDisjoint(os.live) && len % GPU_PAGE == 0
    requires count == SegCount(len) && left == len % SEGMENT
    modifies os
    ensures ok ==> |vaddrs| == count && os.leaked == old(os.leaked) && Partial(old(os.live), os.live, len, vaddrs)
    ensures ok ==> RegionDone(os, os.pte, Region(gpuAddr, len, vaddrs), count)
    ensures !ok ==> |vaddrs| < count && Undone(old(os.live), old(os.leaked), os.live, os.leaked)
    ensures old(os.faults) <= os.faults && (ok <==> os.faults == old(os.faults))
    ensures os.pins == old(os.pins) + PinsOf(Region(gpuAddr, len, vaddrs), |vaddrs|)
    ensures Untouched(old(os.live), old(os.pte), os.pte)
  {
    hide Undone, Free, PinsOf, Owned, Untouched, RegionDone, PinDone, OnlyIn;
    vaddrs := [];
    var mapped := 0;
    EmptyPartial(os.live, len);
    EmptyPins(gpuAddr, len);
    NothingDone(os, os.live, os.pte, gpuAddr, len);
    for i := 0 to count
      invariant |vaddrs| == i && (i < count ==> mapped == SEGMENT * i)
      invariant Partial(old(os.live), os.live, len, vaddrs) && os.leaked == old(os.leaked)
        && os.faults == old(os.faults)
      invariant os.pins == old(os.pins) + PinsOf(Region(gpuAddr, len, vaddrs), i)
      invariant Untouched(old(os.live), old(os.pte), os.pte)
      invariant RegionDone(os, os.pte, Region(gpuAddr, len, vaddrs), i)
    {
      hide Partial;
      var segLen := if i == count - 1 && left != 0 then left else SEGMENT;
      assert segLen == SegLength(len, i);
      SegmentWhole(len, i);
      ghost var before, pte := os.live, os.pte;
      var a := os.Mmap(segLen);
      if a.None? {
        CleanupAll(os, len, vaddrs, old(os.live));
        UntouchedTwice(old(os.live), old(os.pte), pte, os.pte);
        return false, vaddrs;
      }
      PartialGrows(old(os.live), before, len, vaddrs, a.value);
      var bound := os.IoctlMap(Pin(gpuAddr + mapped, a.value, segLen));
      BindStep(os, old(os.live), old(os.pte), before, pte, os.pte, gpuAddr, len, vaddrs, a.value);
      if !bound {
        pte := os.pte;
        CleanupAll(os, len, vaddrs + [a.value], old(os.live));
        UntouchedTwice(old(os.live), old(os.pte), pte, os.pte);
        return false, vaddrs;
      }
      PinsGrow(gpuAddr, len, vaddrs, a.value);
      RegionGrows(os, os.pte, gpuAddr, len, vaddrs, a.value);
      vaddrs := vaddrs + [a.value];
      mapped := mapped + segLen;
    }
    ok := true;
  }

  lemma NothingDone(os: Process, live: map<nat, nat>, pte: map<nat, nat>, gpuAddr: nat, len: nat)
    ensures Untouched(live, pte, pte) && RegionDone(os, pte, Region(gpuAddr, len, []), 0)
  {
  }

  lemma EmptyPartial(live: map<nat, nat>, len: nat)
    requires LiveDisjoint(live)
    ensures Partial(live, live, len, [])
  {
  }

  lemma EmptyPins(gpuAddr: nat, len: nat)
    ensures PinsOf(Region(gpuAddr, len, []), 0) == {}
  {
  }

  lemma PinsGrow(gpuAddr: nat, len: nat, vaddrs: seq<nat>, a: nat)
    ensures PinsOf(Region(gpuAddr, len, vaddrs + [a]), |vaddrs| + 1)
         == PinsOf(Region(gpuAddr, len, vaddrs), |vaddrs|)
            + {Pin(gpuAddr + SEGMENT * |vaddrs|, a, SegLength(len, |vaddrs|))}
  {
    var r, s := Region(gpuAddr, len, vaddrs), Region(gpuAddr, len, vaddrs + [a]);
    forall i | 0 <= i < |vaddrs| ensures PinOf(s, i) == PinOf(r, i) {
    }
    assert PinOf(s, |vaddrs|) == Pin(gpuAddr + SEGMENT * |vaddrs|, a, SegLength(len, |vaddrs|));
  }

  // ----- The law is kept -----

  ghost function Without<T>(s: seq<T>, k: nat): seq<T>
    requires k < |s|
  {
    s[..k] + s[k + 1..]
  }

  lemma {:induction false} OwnedWithout(rs: seq<Region>, k: nat)
    requires k < |rs|
    ensures Owned(rs) == multiset(rs[k].vaddrs) + Owned(Without(rs, k))
  {
    var rest := Without(rs, k);
    if k == 0 {
      assert rest == rs[1..];
    } else {
      OwnedWithout(rs[1..], k - 1);
      assert rest[0] == rs[0] && rest[1..] == Without(rs[1..], k - 1) && rs[1..][k - 1] == rs[k];
      Regroup(multiset(rs[0].vaddrs), multiset(rs[k].vaddrs), Owned(rest[1..]));
    }
  }

  lemma Regroup(a: multiset<nat>, b: multiset<nat>, c: multiset<nat>)
    ensures a + (b + c) == b + (a + c)
  {
  }

  lemma DistinctMultiset(s: seq<nat>)
    requires Distinct(s)
    ensures multiset(s) == multiset(ToSet(s))
  {
    forall a ensures multiset(s)[a] == multiset(ToSet(s))[a] {
      if a in s {
        var i :| 0 <= i < |s| && s[i] == a;
        assert s == s[..i] + [a] + s[i + 1..];
        assert a !in s[..i] && a !in s[i + 1..];
      }
    }
  }

  lemma ExtendsCounts(live0: map<nat, nat>, live: map<nat, nat>, extra: set<nat>)
    requires Extends(live0, live, extra)
    ensures multiset(live.Keys) == multiset(live0.Keys) + multiset(extra)
  {
  }

  lemma NewRegionValid(live0: map<nat, nat>, live: map<nat, nat>, r: Region)
    requires Partial(live0, live, r.length, r.vaddrs)
    requires 0 < r.length && r.length % GPU_PAGE == 0 && |r.vaddrs| == SegCount(r.length)
    ensures ValidRegion(r) && Mapped(r, live)
  {
    hide SegCount, SegLength, Extends;
    forall i, j | 0 <= i < j < |r.vaddrs|
      ensures RangesDisjoint(r.vaddrs[i], SegLength(r.length, i), r.vaddrs[j], SegLength(r.length, j))
    {
      assert r.vaddrs[i] != r.vaddrs[j];
    }
  }

  lemma MappedStays(r: Region, live0: map<nat, nat>, live: map<nat, nat>, extra: set<nat>)
    requires Mapped(r, live0) && Extends(live0, live, extra)
    ensures Mapped(r, live)
  {
    hide SegLength;
  }

  /** A completed registration keeps the law, with the new region in front. */
  lemma LawfulAfterRegister(rs: seq<Region>, live0: map<nat, nat>, live: map<nat, nat>, leaked: set<nat>, r: Region)
    requires Lawful(rs, live0, leaked) && Partial(live0, live, r.length, r.vaddrs)
    requires 0 < r.length && r.length % GPU_PAGE == 0 && |r.vaddrs| == SegCount(r.length)
    requires forall q :: q in rs ==> RangesDisjoint(q.gpuAddr, q.length, r.gpuAddr, r.length)
    ensures Lawful([r] + rs, live, leaked)
  {
    hide SegCount, SegLength, Mapped, Extends, LiveDisjoint, ValidRegion, SegmentsAt, Distinct, ToSet;
    NewRegionValid(live0, live, r);
    DistinctMultiset(r.vaddrs);
    ExtendsCounts(live0, live, ToSet(r.vaddrs));
    assert ([r] + rs)[1..] == rs;
    forall k | 0 <= k < |rs| ensures Mapped(rs[k], live) {
      MappedStays(rs[k], live0, live, ToSet(r.vaddrs));
    }
  }

  /** So does a failed one, with the list as it was. */
  lemma LawfulAfterFailure(rs: seq<Region>, live0: map<nat, nat>, leaked0: set<nat>, live: map<nat, nat>,
          leaked: set<nat>)
    requires Lawful(rs, live0, leaked0) && Undone(live0, leaked0, live, leaked)
    ensures Lawful(rs, live, leaked)
    ensures leaked == leaked0 ==> live == live0
  {
    hide SegCount, SegLength, ValidRegion, Mapped;
    var extra := live.Keys - live0.Keys;
    ExtendsCounts(live0, live, extra);
    LeakedAreLive(rs, live0, leaked0);
    assert multiset(leaked) == multiset(leaked0) + multiset(extra);
    forall k | 0 <= k < |rs| ensures Mapped(rs[k], live) {
      MappedStays(rs[k], live0, live, extra);
    }
  }

  lemma LeakedAreLive(rs: seq<Region>, live: map<nat, nat>, leaked: set<nat>)
    requires multiset(live.Keys) == Owned(rs) + multiset(leaked)
    ensures leaked <= live.Keys
  {
    forall a | a in leaked ensures a in live.Keys {
      assert multiset(leaked)[a] > 0;
      assert multiset(live.Keys)[a] > 0;
    }
  }

  lemma CountedOnce(s: seq<nat>)
    requires forall a :: multiset(s)[a] <= 1
    ensures Distinct(s)
  {
    forall i, j | 0 <= i < j < |s| ensures s[i] != s[j] {
      assert s == s[..i] + [s[i]] + s[i + 1..j] + [s[j]] + s[j + 1..];
      assert multiset(s)[s[i]] <= 1;
    }
  }

  /** The count says each segment address belongs to one region only, once. */
  lemma SegmentsOnce(rs: seq<Region>, k: nat, live: map<nat, nat>, leaked: set<nat>)
    requires multiset(live.Keys) == Owned(rs) + multiset(leaked) && k < |rs|
    ensures Distinct(rs[k].vaddrs) && ToSet(rs[k].vaddrs) <= live.Keys
    ensures forall a :: a in rs[k].vaddrs ==> Owned(Without(rs, k))[a] == 0
  {
    hide Owned;
    var mine := rs[k].vaddrs;
    OwnedWithout(rs, k);
    forall a ensures multiset(mine)[a] <= 1 {
      assert multiset(live.Keys)[a] <= 1;
    }
    CountedOnce(mine);
    forall a | a in mine ensures a in live.Keys && Owned(Without(rs, k))[a] == 0 {
      assert multiset(mine)[a] > 0;
      assert multiset(live.Keys)[a] > 0;
    }
  }

  lemma OwnedHas(rs: seq<Region>, j: nat, a: nat)
    requires j < |rs| && a in rs[j].vaddrs
    ensures Owned(rs)[a] > 0
  {
    hide Owned;
    OwnedWithout(rs, j);
    assert multiset(rs[j].vaddrs)[a] > 0;
  }

  /** Removing region `k` and its segments keeps the law too. */
  lemma LawfulAfterRemoval(rs: seq<Region>, k: nat, live: map<nat, nat>, leaked: set<nat>, live': map<nat, nat>)
    requires Lawful(rs, live, leaked) && k < |rs|
    requires live' == live - ToSet(rs[k].vaddrs)
    ensures Lawful(Without(rs, k), live', leaked)
    ensures Extends(live', live, ToSet(rs[k].vaddrs)) && Distinct(rs[k].vaddrs)
  {
    hide SegCount, SegLength, ValidRegion, Owned, Mapped, GpuDisjoint, Distinct, LiveDisjoint;
    var gone, others := rs[k].vaddrs, Without(rs, k);
    SegmentsOnce(rs, k, live, leaked);
    assert Extends(live', live, ToSet(gone));
    CountAfterRemoval(rs, k, live, leaked, live');
    SubsetStaysDisjoint(live, live');
    forall j | 0 <= j < |others| ensures ValidRegion(others[j]) && Mapped(others[j], live') {
      assert others[j] == rs[if j < k then j else j + 1];
      forall a | a in others[j].vaddrs ensures a !in gone {
        OwnedHas(others, j, a);
      }
      MappedAway(others[j], live, live', gone);
    }
    WithoutDisjoint(rs, k);
  }

  lemma CountAfterRemoval(rs: seq<Region>, k: nat, live: map<nat, nat>, leaked: set<nat>, live': map<nat, nat>)
    requires multiset(live.Keys) == Owned(rs) + multiset(leaked) && k < |rs|
    requires Extends(live', live, ToSet(rs[k].vaddrs)) && Distinct(rs[k].vaddrs)
    ensures multiset(live'.Keys) == Owned(Without(rs, k)) + multiset(leaked)
  {
    hide Owned, Extends, Distinct, ToSet;
    OwnedWithout(rs, k);
    DistinctMultiset(rs[k].vaddrs);
    ExtendsCounts(live', live, ToSet(rs[k].vaddrs));
  }

  lemma MappedAway(r: Region, live: map<nat, nat>, live': map<nat, nat>, gone: seq<nat>)
    requires Mapped(r, live) && live' == live - ToSet(gone)
    requires forall a :: a in r.vaddrs ==> a !in gone
    ensures Mapped(r, live')
  {
    hide SegLength;
  }

  lemma WithoutDisjoint(rs: seq<Region>, k: nat)
    requires GpuDisjoint(rs) && k < |rs|
    ensures GpuDisjoint(Without(rs, k))
  {
    var others := Without(rs, k);
    forall i, j | 0 <= i < j < |others|
      ensures RangesDisjoint(others[i].gpuAddr, others[i].length, others[j].gpuAddr, others[j].length)
    {
      var i', j' := if i < k then i else i + 1, if j < k then j else j + 1;
      assert others[i] == rs[i'] && others[j] == rs[j'];
    }
  }

  // ----- The bindings are kept -----

  /** Every registered buffer is backed, segment by segment, by its GPU pages. */
  ghost predicate Realised(os: Process, pte: map<nat, nat>, rs: seq<Region>) {
    forall k :: 0 <= k < |rs| ==> RegionDone(os, pte, rs[k], |rs[k].vaddrs|)
  }

  lemma RealisedStays(os: Process, rs: seq<Region>, live: map<nat, nat>, leaked: set<nat>, pte0: map<nat, nat>,
          pte: map<nat, nat>)
    requires Lawful(rs, live, leaked) && Untouched(live, pte0, pte)
    ensures Realised(os, pte0, rs) ==> Realised(os, pte, rs)
  {
    hide RegionDone, Untouched, Owned, LiveDisjoint, GpuDisjoint;
    if Realised(os, pte0, rs) {
      forall k | 0 <= k < |rs| ensures RegionDone(os, pte, rs[k], |rs[k].vaddrs|) {
        assert SegmentsAt(live, rs[k].length, rs[k].vaddrs);
        RegionStays(os, live, pte0, pte, rs[k], |rs[k].vaddrs|);
      }
    }
  }

  lemma RealisedMore(os: Process, pte: map<nat, nat>, rs: seq<Region>, r: Region)
    ensures Realised(os, pte, rs) && RegionDone(os, pte, r, |r.vaddrs|) ==> Realised(os, pte, [r] + rs)
  {
    hide RegionDone;
  }

  lemma RealisedLess(os: Process, pte: map<nat, nat>, rs: seq<Region>, f: nat)
    requires f < |rs|
    ensures Realised(os, pte, rs) ==> Realised(os, pte, Without(rs, f))
  {
    hide RegionDone;
    var others := Without(rs, f);
    assert forall k :: 0 <= k < |others| ==> others[k] == rs[if k < f then k else k + 1];
  }

  // ----- fgds_regmem and fgds_deregmem -----

  /** fgds_regmem. It succeeds exactly when the length is a multiple of 64 KiB, memory
      can be allocated and no system call fails.
      On success the new region heads the list, its segments are mapped and
      bound; on failure the list is as before and so are the mappings, unless
      a munmap of the cleanup itself failed. `bound` is the number of segments
      already bound when it failed: their bindings are not undone. */
  method RegMem(dev: Device, os: Process, gpuAddr: nat, len: nat, oom: bool)
    returns (rc: int, target: nat, ghost bound: seq<nat>)
    requires dev.Valid() && Lawful(dev.Regions(), os.live, os.leaked)
    requires 0 < len
    requires forall r :: r in dev.Regions() ==> RangesDisjoint(r.gpuAddr, r.length, gpuAddr, len)
    modifies dev, os
    ensures dev.Valid() && Lawful(dev.Regions(), os.live, os.leaked)
    ensures rc == 0 <==> len % GPU_PAGE == 0 && !oom && os.faults == old(os.faults)
    ensures rc == 0 ==> dev.Regions() == [Region(gpuAddr, len, bound)] + old(dev.Regions())
    ensures rc == 0 ==> |bound| > 0 && target == bound[0]
    ensures rc == 0 ==> |dev.nodes| > 0 && fresh(dev.nodes[0]) && dev.nodes == [dev.nodes[0]] + old(dev.nodes)
    ensures rc == 0 ==> Extends(old(os.live), os.live, ToSet(bound)) && os.leaked == old(os.leaked)
    ensures rc != 0 ==> dev.nodes == old(dev.nodes) && dev.Regions() == old(dev.Regions())
    ensures rc != 0 && os.leaked == old(os.leaked) ==> os.live == old(os.live)
    ensures os.pins == old(os.pins) + PinsOf(Region(gpuAddr, len, bound), |bound|)
    ensures len % GPU_PAGE != 0 ==> rc != 0 && os.live == old(os.live)
    ensures Realised(os, old(os.pte), old(dev.Regions())) ==> Realised(os, os.pte, dev.Regions())
  {
    hide Owned, Undone, Extends, PinsOf, Linked, RegionsOf, Distinct, ToSet, SegmentsAt, LiveDisjoint, Untouched,
      RegionDone, Realised, Mapped;
    bound := [];
    EmptyPins(gpuAddr, len);
    if len % GPU_PAGE != 0 {
      return -14, 0, [];
    }
    var count, left := len / SEGMENT, 0;
    if len % SEGMENT != 0 {
      count := count + 1;
      left := len % SEGMENT;
    }
    if oom {
      return -1, 0, [];
    }
    var ok, vaddrs := MapSegments(os, gpuAddr, len, count, left);
    bound := vaddrs;
    RealisedStays(os, old(dev.Regions()), old(os.live), old(os.leaked), old(os.pte), os.pte);
    if !ok {
      LawfulAfterFailure(old(dev.Regions()), old(os.live), old(os.leaked), os.live, os.leaked);
      return -14, 0, bound;
    }
    var node := new Node(vaddrs, count, gpuAddr, len, left);
    LawfulAfterRegister(dev.Regions(), old(os.live), os.live, os.leaked, node.AsRegion());
    RealisedMore(os, os.pte, dev.Regions(), node.AsRegion());
    dev.Insert(node);
    return 0, vaddrs[0], bound;
  }

  /** The unbind-then-munmap loop of fgds_deregmem: a failing step is noted and
      the loop goes on. */
  method UnmapSegments(os: Process, r: Region, count: nat, left: nat, ghost live0: map<nat, nat>) returns (rc: int)
    requires count == |r.vaddrs| == SegCount(r.length) && left == r.length % SEGMENT
    requires Extends(live0, os.live, ToSet(r.vaddrs)) && Distinct(r.vaddrs)
    requires LiveDisjoint(os.live) && SegmentsAt(os.live, r.length, r.vaddrs)
    modifies os
    ensures Extends(live0, os.live, os.live.Keys - live0.Keys)
    ensures os.leaked == old(os.leaked) + (os.live.Keys - live0.Keys)
    ensures forall a :: a in os.live ==> a in old(os.live) && os.live[a] == old(os.live[a])
    ensures old(os.faults) <= os.faults && (rc == 0 <==> os.faults == old(os.faults))
    ensures rc == 0 ==> os.live == live0 && os.leaked == old(os.leaked)
    ensures rc == 0 ==> os.pins == old(os.pins) - PinsOf(r, count)
    ensures Untouched(live0, old(os.pte), os.pte)
  {
    hide PinsOf, Distinct, ToSet, Untouched, LiveDisjoint, OnlyIn;
    rc := 0;
    var unmapped := 0;
    ghost var kept: set<nat> := {};
    RemainingStarts(live0, os.live, r.vaddrs);
    UntouchedAtFirst(live0, os.pte);
    PinsNext(r, 0);
    ExtendsApart(live0, os.live, r.vaddrs);
    hide Extends;
    for i := 0 to count
      invariant i < count ==> unmapped == SEGMENT * i
      invariant Remaining(live0, old(os.live), os.live, r.vaddrs, i, kept)
      invariant os.leaked == old(os.leaked) + kept
      invariant old(os.faults) <= os.faults && (rc == 0 <==> os.faults == old(os.faults))
      invariant rc == 0 ==> kept == {} && os.pins == old(os.pins) - PinsOf(r, i)
      invariant Untouched(live0, old(os.pte), os.pte)
    {
      hide Remaining;
      RemainingStep(live0, old(os.live), os.live, r.vaddrs, i, kept);
      PinsNext(r, i);
      var segLen := if i == count - 1 && left != 0 then left else SEGMENT;
      ghost var pte := os.pte;
      var unbound := os.IoctlUnmap(Pin(r.gpuAddr + unmapped, r.vaddrs[i], segLen));
      UntouchedStep(live0, old(os.live), old(os.pte), pte, os.pte, r.vaddrs[i]);
      if !unbound {
        rc := -1;
      }
      unmapped := unmapped + segLen;
      pte := os.pte;
      var ok := os.Munmap(r.vaddrs[i], segLen);
      UntouchedStep(live0, old(os.live), old(os.pte), pte, os.pte, r.vaddrs[i]);
      if !ok {
        rc := -1;
        kept := kept + {r.vaddrs[i]};
      }
    }
    RemainingEnds(live0, old(os.live), os.live, r.vaddrs, kept);
  }

  lemma ExtendsApart(live0: map<nat, nat>, live: map<nat, nat>, vaddrs: seq<nat>)
    requires Extends(live0, live, ToSet(vaddrs))
    ensures forall b :: b in live0 ==> b in live && live[b] == live0[b]
    ensures forall i :: 0 <= i < |vaddrs| ==> vaddrs[i] in live && vaddrs[i] !in live0
  {
  }

  lemma PinsNext(r: Region, i: nat)
    requires i <= |r.vaddrs|
    ensures PinsOf(r, 0) == {}
    ensures i < |r.vaddrs| ==> PinsOf(r, i + 1) == PinsOf(r, i) + {PinOf(r, i)}
  {
  }

  /** The same for a region taken out of a lawful registry: what is left is lawful. */
  method ReleaseRegion(os: Process, r: Region, count: nat, left: nat, ghost rs: seq<Region>, ghost f: nat)
    returns (rc: int)
    requires f < |rs| && r == rs[f] && Lawful(rs, os.live, os.leaked)
    requires count == |r.vaddrs| == SegCount(r.length) && left == r.length % SEGMENT
    modifies os
    ensures Lawful(Without(rs, f), os.live, os.leaked)
    ensures rc == 0 <==> os.faults == old(os.faults)
    ensures rc == 0 ==> os.live == old(os.live) - ToSet(r.vaddrs) && os.leaked == old(os.leaked)
    ensures rc == 0 ==> os.pins == old(os.pins) - PinsOf(r, count)
    ensures Realised(os, old(os.pte), rs) ==> Realised(os, os.pte, Without(rs, f))
  {
    hide Extends, Distinct, ToSet, PinsOf, LiveDisjoint, Owned, Lawful, Without, Realised, Untouched;
    ghost var live0 := os.live - ToSet(r.vaddrs);
    LawfulParts(rs, os.live, os.leaked);
    LawfulAfterRemoval(rs, f, os.live, os.leaked, live0);
    rc := UnmapSegments(os, r, count, left, live0);
    SubsetStaysDisjoint(old(os.live), os.live);
    LawfulAfterFailure(Without(rs, f), live0, old(os.leaked), os.live, os.leaked);
    RealisedLess(os, old(os.pte), rs, f);
    RealisedStays(os, Without(rs, f), live0, old(os.leaked), old(os.pte), os.pte);
  }

  /** Find the region named exactly and unlink its node. */
  method TakeOut(dev: Device, gpuAddr: nat, len: nat) returns (node: Node?, ghost f: nat)
    requires dev.Valid() && GpuDisjoint(dev.Regions())
    requires forall k :: 0 <= k < |dev.Regions()| ==> 0 < dev.Regions()[k].length
    modifies dev, dev.nodes`next
    ensures dev.Valid()
    ensures node == null ==>
              && dev.nodes == old(dev.nodes) && dev.Regions() == old(dev.Regions())
              && forall k :: 0 <= k < |old(dev.Regions())| ==> !Exactly(old(dev.Regions())[k], gpuAddr, len)
    ensures node != null ==>
              && f < |old(dev.Regions())| && old(dev.Regions())[f] == node.AsRegion() && node.Consistent()
              && Exactly(old(dev.Regions())[f], gpuAddr, len)
              && (forall k :: 0 <= k < |old(dev.Regions())| && Exactly(old(dev.Regions())[k], gpuAddr, len) ==> k == f)
              && dev.Regions() == Without(old(dev.Regions()), f)
  {
    hide Linked, RegionsOf, GpuDisjoint;
    ghost var rs := dev.Regions();
    f := 0;
    node := dev.FindNode(gpuAddr, len);
    ExactIsFound(rs, gpuAddr, len);
    if node == null || node.length != len || !node.isMapped {
      return null, f;
    }
    f := Find(rs, gpuAddr, len).value;
    var deleted, k := dev.Delete(node);
    StartsDiffer(rs, f);
    if !deleted {
      return null, f;
    }
  }

  /** fgds_deregmem. A call that names no registration exactly (same start,
      same length) changes nothing; one that does removes that region. It reports
      success exactly when no system call failed, and the region's mappings and
      bindings are then gone as well. */
  method DeregMem(dev: Device, os: Process, gpuAddr: nat, len: nat) returns (rc: int)
    requires dev.Valid() && Lawful(dev.Regions(), os.live, os.leaked)
    modifies dev, dev.nodes`next, os
    ensures dev.Valid() && Lawful(dev.Regions(), os.live, os.leaked)
    ensures (forall k :: 0 <= k < |old(dev.Regions())| ==> !Exactly(old(dev.Regions())[k], gpuAddr, len)) ==>
              && rc != 0 && dev.nodes == old(dev.nodes) && os.live == old(os.live) && os.pins == old(os.pins)
              && os.faults == old(os.faults)
    ensures forall k :: 0 <= k < |old(dev.Regions())| && Exactly(old(dev.Regions())[k], gpuAddr, len) ==>
              && dev.Regions() == Without(old(dev.Regions()), k)
              && (rc == 0 <==> os.faults == old(os.faults))
              && (rc == 0 ==>
                    && os.live == old(os.live) - ToSet(old(dev.Regions())[k].vaddrs)
                    && os.leaked == old(os.leaked)
                    && os.pins == old(os.pins) - PinsOf(old(dev.Regions())[k], |old(dev.Regions())[k].vaddrs|))
    ensures Realised(os, old(os.pte), old(dev.Regions())) ==> Realised(os, os.pte, dev.Regions())
  {
    hide Linked, RegionsOf, ToSet, PinsOf, LiveDisjoint, Owned, Mapped, GpuDisjoint, Lawful, Without, Realised;
    ghost var rs := dev.Regions();
    LawfulParts(rs, os.live, os.leaked);
    var node, f := TakeOut(dev, gpuAddr, len);
    if node == null {
      return -1;
    }
    rc := ReleaseRegion(os, node.AsRegion(), node.mmapCount, node.lengthLeft, rs, f);
  }

  lemma LawfulParts(rs: seq<Region>, live: map<nat, nat>, leaked: set<nat>)
    requires Lawful(rs, live, leaked)
    ensures GpuDisjoint(rs) && LiveDisjoint(live)
    ensures forall k :: 0 <= k < |rs| ==>
      ValidRegion(rs[k]) && 0 < rs[k].length && |rs[k].vaddrs| == SegCount(rs[k].length)
    ensures forall k :: 0 <= k < |rs| ==> SegmentsAt(live, rs[k].length, rs[k].vaddrs)
  {
  }

  predicate Exactly(r: Region, gpuAddr: nat, len: nat) {
    r.gpuAddr == gpuAddr && r.length == len
  }

  /** The lookup finds the region named exactly, if there is one. */
  lemma ExactIsFound(rs: seq<Region>, gpuAddr: nat, len: nat)
    requires GpuDisjoint(rs) && forall k :: 0 <= k < |rs| ==> 0 < rs[k].length
    ensures forall k :: 0 <= k < |rs| && Exactly(rs[k], gpuAddr, len) ==> Find(rs, gpuAddr, len) == Some(k)
    ensures Find(rs, gpuAddr, len).Some? && rs[Find(rs, gpuAddr, len).value].length == len ==>
              Exactly(rs[Find(rs, gpuAddr, len).value], gpuAddr, len)
  {
    forall k | 0 <= k < |rs| && Exactly(rs[k], gpuAddr, len) ensures Find(rs, gpuAddr, len) == Some(k) {
      FindIsUnique(rs, gpuAddr, len, k);
    }
  }

  lemma StartsDiffer(rs: seq<Region>, f: nat)
    requires GpuDisjoint(rs) && (forall k :: 0 <= k < |rs| ==> 0 < rs[k].length) && f < |rs|
    ensures forall k :: 0 <= k < |rs| && rs[k].gpuAddr == rs[f].gpuAddr ==> k == f
  {
  }

  lemma ExtendsBack(live0: map<nat, nat>, live: map<nat, nat>, extra: set<nat>)
    requires Extends(live0, live, extra)
    ensures live - extra == live0
  {
  }

  /** Registering a buffer and deregistering it again is the identity on the
      list and on the mappings. */
  method RegisterThenDeregister(dev: Device, os: Process, gpuAddr: nat, len: nat, oom: bool) returns (ok: bool)
    requires dev.Valid() && Lawful(dev.Regions(), os.live, os.leaked)
    requires 0 < len
    requires forall r :: r in dev.Regions() ==> RangesDisjoint(r.gpuAddr, r.length, gpuAddr, len)
    modifies dev, dev.nodes`next, os
    ensures dev.Valid() && dev.Regions() == old(dev.Regions())
    ensures ok <==> len % GPU_PAGE == 0 && !oom && os.faults == old(os.faults)
    ensures ok ==> os.live == old(os.live) && os.leaked == old(os.leaked)
  {
    hide Linked, RegionsOf, Distinct, PinsOf, Lawful, Realised, Extends, ToSet;
    var rc, _, bound := RegMem(dev, os, gpuAddr, len, oom);
    if rc != 0 {
      return false;
    }
    assert Exactly(dev.Regions()[0], gpuAddr, len);
    assert Without(dev.Regions(), 0) == old(dev.Regions());
    ExtendsBack(old(os.live), os.live, ToSet(bound));
    rc := DeregMem(dev, os, gpuAddr, len);
    ok := rc == 0;
  }
}
