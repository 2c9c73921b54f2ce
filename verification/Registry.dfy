/** Registering and deregistering GPU memory: a per-device linked list of
    mapped regions, and the host mappings and kernel bindings behind it. */
module Registry {
  import opened Options
  import opened Layout
  import PageMap
  import opened Sizes

  // ----- The operating system's side -----

  /** A kernel binding made by FGDS_IOCTL_MAP: GPU range to host range. */
  datatype Pin = Pin(gpuAddr: nat, vaddr: nat, len: nat)

  predicate Free(live: map<nat, nat>, a: nat, len: nat) {
    a !in live && forall b :: b in live ==> a + len <= b || b + live[b] <= a
  }

  ghost predicate LiveDisjoint(live: map<nat, nat>) {
    forall a, b :: a in live && b in live && a != b ==> RangesDisjoint(a, live[a], b, live[b])
  }

  /** An address above every live mapping. */
  lemma FreeExists(live: map<nat, nat>, len: nat)
    ensures exists a: nat :: Free(live, a, len)
  {
    var top := UpperBound(live, live.Keys);
    assert Free(live, top, len);
  }

  lemma UpperBound(live: map<nat, nat>, keys: set<nat>) returns (top: nat)
    requires keys <= live.Keys
    ensures forall b :: b in keys ==> b < top && b + live[b] <= top
  {
    if keys == {} {
      top := 0;
    } else {
      var b: nat :| b in keys;
      top := UpperBound(live, keys - {b});
      top := if top < b + live[b] + 1 then b + live[b] + 1 else top;
    }
  }

  /** The physical addresses of the GPU pages from `a` on, where the driver has them. */
  function PagesAt(gpu: nat -> Option<nat>, a: nat, len: nat): (pages: seq<Option<nat>>)
    ensures |pages| == PageMap.DevPages(len)
  {
    seq(PageMap.DevPages(len), k requires 0 <= k => gpu(a + k * GPU_PAGE))
  }

  /** The binding is in place: its host range is backed by its GPU pages. */
  ghost predicate PinDone(gpu: nat -> Option<nat>, bar: PageMap.Bar, pte: map<nat, nat>, p: Pin) {
    PageMap.AreaDone(pte, p.vaddr, p.len, bar, PagesAt(gpu, p.gpuAddr, p.len))
  }

  predicate SamePte(pte0: map<nat, nat>, pte: map<nat, nat>, x: nat) {
    (x in pte <==> x in pte0) && (x in pte0 ==> pte[x] == pte0[x])
  }

  /** Only the pages of [a, a + len) may have changed. */
  ghost predicate OnlyIn(pte0: map<nat, nat>, pte: map<nat, nat>, a: nat, len: nat) {
    forall x: nat :: !(a <= x < a + len) ==> SamePte(pte0, pte, x)
  }

  lemma {:induction false} BackedExists(pte0: map<nat, nat>, p: Pin, pages: seq<Option<nat>>, n: nat)
    returns (pte: map<nat, nat>)
    requires p.len % GPU_PAGE == 0 && n <= PageMap.HostPages(p.len)
    requires PageMap.DevPages(p.len) <= |pages| && PageMap.AllPresent(pages, PageMap.DevPages(p.len))
    ensures OnlyIn(pte0, pte, p.vaddr, p.len)
    ensures forall k :: 0 <= k < n && k / 16 < PageMap.DevPages(p.len) ==> PageMap.Backed(pte, p.vaddr, pages, k)
  {
    PageMap.FillBounds(p.len);
    pte := pte0;
    if n != 0 {
      var before := BackedExists(pte0, p, pages, n - 1);
      var k := n - 1;
      pte := before;
      if k / 16 < PageMap.DevPages(p.len) {
        var x := PageMap.PageAt(p.vaddr, k);
        assert p.vaddr <= x < p.vaddr + p.len;
        pte := before[x := U64(pages[k / 16].value + k % 16 * CPU_PAGE)];
        forall y: nat | !(p.vaddr <= y < p.vaddr + p.len) ensures SamePte(pte0, pte, y) {
          assert SamePte(pte0, before, y);
        }
        forall j | 0 <= j < n && j / 16 < PageMap.DevPages(p.len) ensures PageMap.Backed(pte, p.vaddr, pages, j) {
          if j < k {
            assert PageMap.Backed(before, p.vaddr, pages, j);
          }
        }
      }
    }
  }

  lemma DoneExists(gpu: nat -> Option<nat>, bar: PageMap.Bar, pte0: map<nat, nat>, p: Pin)
    requires p.len % GPU_PAGE == 0 && p.vaddr % CPU_PAGE == 0
    requires PageMap.AllChecked(bar, PagesAt(gpu, p.gpuAddr, p.len), PageMap.DevPages(p.len))
    ensures exists pte :: OnlyIn(pte0, pte, p.vaddr, p.len) && PinDone(gpu, bar, pte, p)
  {
    var pte := BackedExists(pte0, p, PagesAt(gpu, p.gpuAddr, p.len), PageMap.HostPages(p.len));
    assert OnlyIn(pte0, pte, p.vaddr, p.len) && PinDone(gpu, bar, pte, p);
  }

  /** The calling process: its mappings of the device file (start to length),
      the mappings a failed munmap left behind, its page table, and the kernel's
      bindings. Every call may fail at any time. */
  class Process {
    const gpu: nat -> Option<nat> // the physical address of each GPU page, if the driver has it
    const bar: PageMap.Bar
    var live: map<nat, nat>
    var leaked: set<nat>
    var pins: set<Pin>
    ghost var pte: map<nat, nat>
    ghost var faults: nat // calls that have failed so far

    constructor (gpu: nat -> Option<nat>, bar: PageMap.Bar)
      ensures this.gpu == gpu && this.bar == bar
      ensures live == map[] && leaked == {} && pins == {} && pte == map[] && faults == 0
    {
      this.gpu, this.bar := gpu, bar;
      live, leaked, pins, pte, faults := map[], {}, {}, map[], 0;
    }

    /** mmap hands out any range that overlaps no live one, or fails. */
    method Mmap(len: nat) returns (a: Option<nat>)
      modifies this`live, this`faults
      ensures a.None? ==> live == old(live)
      ensures faults == old(faults) + if a.None? then 1 else 0
      ensures a.Some? ==> Free(old(live), a.value, len) && live == old(live)[a.value := len]
    {
      if * {
        a := None;
        faults := faults + 1;
      } else {
        FreeExists(live, len);
        var addr: nat :| Free(live, addr, len);
        live := live[addr := len];
        a := Some(addr);
      }
    }

    /** munmap also drops the pages of the range. */
    method Munmap(a: nat, len: nat) returns (ok: bool)
      modifies this`live, this`leaked, this`pte, this`faults
      ensures faults == old(faults) + if ok then 0 else 1
      ensures ok ==> live == old(live) - {a} && leaked == old(leaked)
      ensures !ok ==> live == old(live) && leaked == old(leaked) + {a}
      ensures OnlyIn(old(pte), pte, a, len)
    {
      ok := *;
      if ok {
        live := live - {a};
        pte := map x | x in pte && !(a <= x < a + len) :: pte[x];
      } else {
        leaked := leaked + {a};
        faults := faults + 1;
      }
    }

    /** FGDS_IOCTL_MAP. What the kernel does for it is modelled in PageMap. */
    method IoctlMap(p: Pin) returns (ok: bool)
      requires p.len % GPU_PAGE == 0
      modifies this`pins, this`pte, this`faults
      ensures pins == if ok then old(pins) + {p} else old(pins)
      ensures faults == old(faults) + if ok then 0 else 1
      ensures OnlyIn(old(pte), pte, p.vaddr, p.len)
      ensures ok ==> PinDone(gpu, bar, pte, p)
    {
      ok := *;
      ghost var pages := PagesAt(gpu, p.gpuAddr, p.len);
      ghost var n := PageMap.DevPages(p.len);
      if p.vaddr % CPU_PAGE != 0 || (PresentIn(p) && !CheckedIn(p)) {
        ok := false;
      }
      if ok {
        pins := pins + {p};
        if PageMap.AllPresent(pages, n) {
          DoneExists(gpu, bar, pte, p);
          ghost var pte' :| OnlyIn(pte, pte', p.vaddr, p.len) && PinDone(gpu, bar, pte', p);
          pte := pte';
        }
      } else {
        faults := faults + 1;
        Scribble(p);
      }
    }

    predicate PresentIn(p: Pin) {
      PageMap.AllPresent(PagesAt(gpu, p.gpuAddr, p.len), PageMap.DevPages(p.len))
    }

    predicate CheckedIn(p: Pin) {
      PageMap.AllChecked(bar, PagesAt(gpu, p.gpuAddr, p.len), PageMap.DevPages(p.len))
    }

    method IoctlUnmap(p: Pin) returns (ok: bool)
      modifies this`pins, this`pte, this`faults
      ensures pins == if ok then old(pins) - {p} else old(pins)
      ensures faults == old(faults) + if ok then 0 else 1
      ensures OnlyIn(old(pte), pte, p.vaddr, p.len)
    {
      ok := *;
      if ok {
        pins := pins - {p};
      } else {
        faults := faults + 1;
      }
      Scribble(p);
    }

    /** The pages of the range end up in some state. */
    ghost method Scribble(p: Pin)
      modifies this`pte
      ensures OnlyIn(old(pte), pte, p.vaddr, p.len)
    {
      Unchanged(pte, p.vaddr, p.len);
      var pte' :| OnlyIn(pte, pte', p.vaddr, p.len);
      pte := pte';
    }
  }

  lemma Unchanged(pte: map<nat, nat>, a: nat, len: nat)
    ensures OnlyIn(pte, pte, a, len)
  {
  }

  // ----- What the list means -----

  function PinOf(r: Region, i: nat): Pin
    requires i < |r.vaddrs|
  {
    Pin(r.gpuAddr + SEGMENT * i, r.vaddrs[i], SegLength(r.length, i))
  }

  ghost function PinsOf(r: Region, k: nat): set<Pin>
    requires k <= |r.vaddrs|
  {
    set i | 0 <= i < k :: PinOf(r, i)
  }

  /** All host segments of the registered regions, with multiplicity. */
  ghost function Owned(rs: seq<Region>): multiset<nat> {
    if rs == [] then multiset{} else multiset(rs[0].vaddrs) + Owned(rs[1..])
  }

  ghost predicate Mapped(r: Region, live: map<nat, nat>) {
    forall i :: 0 <= i < |r.vaddrs| ==> r.vaddrs[i] in live && live[r.vaddrs[i]] == SegLength(r.length, i)
  }

  /** The registry's law: every region is well formed and mapped, regions do
      not overlap on the GPU, and the live mappings are exactly the regions'
      segments plus those a failed munmap leaked, each counted once. */
  ghost predicate Lawful(rs: seq<Region>, live: map<nat, nat>, leaked: set<nat>) {
    && (forall k :: 0 <= k < |rs| ==> ValidRegion(rs[k]) && Mapped(rs[k], live))
    && GpuDisjoint(rs)
    && LiveDisjoint(live)
    && multiset(live.Keys) == Owned(rs) + multiset(leaked)
  }

  ghost predicate GpuDisjoint(rs: seq<Region>) {
    forall j, k :: 0 <= j < k < |rs| ==>
      RangesDisjoint(rs[j].gpuAddr, rs[j].length, rs[k].gpuAddr, rs[k].length)
  }

  predicate Covers(r: Region, gpuAddr: nat, len: nat) {
    r.gpuAddr <= gpuAddr && gpuAddr + len <= r.gpuAddr + r.length
  }

  /** The first region of the list that covers [gpuAddr, gpuAddr + len). */
  function Find(rs: seq<Region>, gpuAddr: nat, len: nat): (k: Option<nat>)
    ensures k.Some? ==> k.value < |rs| && Covers(rs[k.value], gpuAddr, len)
    ensures k.None? ==> forall j :: 0 <= j < |rs| ==> !Covers(rs[j], gpuAddr, len)
  {
    if rs == [] then None
    else if Covers(rs[0], gpuAddr, len) then Some(0)
    else match Find(rs[1..], gpuAddr, len)
      case None => None
      case Some(k) => Some(k + 1)
  }

  lemma {:induction false} FindIs(rs: seq<Region>, gpuAddr: nat, len: nat, i: nat)
    requires i < |rs| && Covers(rs[i], gpuAddr, len) && (forall j :: 0 <= j < i ==> !Covers(rs[j], gpuAddr, len))
    ensures Find(rs, gpuAddr, len) == Some(i)
  {
    if i > 0 {
      FindIs(rs[1..], gpuAddr, len, i - 1);
    }
  }

  /** With disjoint regions the covering region is unique, so which one the
      list happens to hold first does not matter. */
  lemma FindIsUnique(rs: seq<Region>, gpuAddr: nat, len: nat, k: nat)
    requires GpuDisjoint(rs) && 0 < len
    requires k < |rs| && Covers(rs[k], gpuAddr, len)
    ensures Find(rs, gpuAddr, len) == Some(k)
  {
    var f := Find(rs, gpuAddr, len);
    assert f.Some?;
  }

  // ----- The linked list -----

  class Node {
    var vaddrs: seq<nat>
    var mmapCount: nat
    var gpuAddr: nat
    var length: nat
    var lengthLeft: nat
    var isMapped: bool
    var next: Node?

    constructor (vaddrs: seq<nat>, mmapCount: nat, gpuAddr: nat, length: nat, lengthLeft: nat)
      ensures AsRegion() == Region(gpuAddr, length, vaddrs)
      ensures this.mmapCount == mmapCount && this.lengthLeft == lengthLeft && isMapped
    {
      this.vaddrs, this.mmapCount, this.gpuAddr := vaddrs, mmapCount, gpuAddr;
      this.length, this.lengthLeft := length, lengthLeft;
      isMapped, next := true, null;
    }

    function AsRegion(): Region
      reads `gpuAddr, `length, `vaddrs
    {
      Region(gpuAddr, length, vaddrs)
    }

    ghost predicate Consistent()
      reads `isMapped, `mmapCount, `length, `lengthLeft
    {
      isMapped && mmapCount == SegCount(length) && lengthLeft == length % SEGMENT
    }
  }

  ghost predicate Linked(head: Node?, nodes: seq<Node>)
    reads nodes
  {
    && head == (if nodes == [] then null else nodes[0])
    && (forall i {:trigger nodes[i].next} :: 0 <= i < |nodes| ==>
      nodes[i].next == if i + 1 < |nodes| then nodes[i + 1] else null)
    && (forall i, j :: 0 <= i < j < |nodes| ==> nodes[i] != nodes[j])
  }

  ghost function RegionsOf(nodes: seq<Node>): (rs: seq<Region>)
    reads nodes`gpuAddr, nodes`length, nodes`vaddrs
    ensures |rs| == |nodes| && forall i :: 0 <= i < |nodes| ==> rs[i] == nodes[i].AsRegion()
  {
    if nodes == [] then [] else [nodes[0].AsRegion()] + RegionsOf(nodes[1..])
  }

  lemma RegionsWithout(nodes: seq<Node>, k: nat)
    requires k < |nodes|
    ensures RegionsOf(nodes[..k] + nodes[k + 1..]) == RegionsOf(nodes)[..k] + RegionsOf(nodes)[k + 1..]
  {
    hide RegionsOf;
  }

  class Device {
    var head: Node?
    ghost var nodes: seq<Node>

    ghost predicate Valid()
      reads this, nodes
    {
      Linked(head, nodes) && forall i :: 0 <= i < |nodes| ==> nodes[i].Consistent()
    }

    ghost function Regions(): seq<Region>
      reads this, nodes`gpuAddr, nodes`length, nodes`vaddrs
    {
      RegionsOf(nodes)
    }

    constructor ()
      ensures Valid() && nodes == []
    {
      head := null;
      nodes := [];
    }

    /** insert_fgds_mmap_node: push at the head. */
    method Insert(node: Node)
      requires Valid() && node !in nodes && node.Consistent()
      modifies this, node`next
      ensures Valid() && nodes == [node] + old(nodes)
      ensures Regions() == [old(node.AsRegion())] + old(Regions())
    {
      node.next := head;
      head := node;
      nodes := [node] + nodes;
    }

    /** find_fgds_mmap_node */
    method FindNode(gpuAddr: nat, len: nat) returns (node: Node?)
      requires Valid()
      ensures node == match Find(Regions(), gpuAddr, len)
                      case None => null
                      case Some(k) => nodes[k]
    {
      var current := head;
      ghost var i := 0;
      while current != null
        invariant 0 <= i <= |nodes|
        invariant current == if i < |nodes| then nodes[i] else null
        invariant forall j :: 0 <= j < i ==> !Covers(Regions()[j], gpuAddr, len)
        decreases |nodes| - i
      {
        assert Regions()[i] == current.AsRegion();
        if current.gpuAddr <= gpuAddr && current.gpuAddr + current.length >= gpuAddr + len {
          FindIs(Regions(), gpuAddr, len, i);
          return current;
        }
        current := current.next;
        i := i + 1;
      }
      return null;
    }

    /** Unlink node `k` by redirecting its predecessor, or the head. */
    method Unlink(previous: Node?, current: Node, ghost k: nat)
      requires Valid() && k < |nodes| && current == nodes[k]
      requires previous == if k == 0 then null else nodes[k - 1]
      modifies this, nodes`next
      ensures Linked(head, nodes)
      ensures nodes == old(nodes)[..k] + old(nodes)[k + 1..]
    {
      if previous != null {
        previous.next := current.next;
      } else {
        head := current.next;
      }
      nodes := nodes[..k] + nodes[k + 1..];
    }

    /** The same, seen in the regions. */
    method TakeOut(previous: Node?, current: Node, ghost k: nat)
      requires Valid() && k < |nodes| && current == nodes[k]
      requires previous == if k == 0 then null else nodes[k - 1]
      modifies this, nodes`next
      ensures Linked(head, nodes)
      ensures nodes == old(nodes)[..k] + old(nodes)[k + 1..]
      ensures Regions() == old(Regions())[..k] + old(Regions())[k + 1..]
    {
      hide RegionsOf;
      ghost var before, rs := nodes, RegionsOf(nodes);
      Unlink(previous, current, k);
      hide Linked;
      assert RegionsOf(before) == rs;
      RegionsWithout(before, k);
    }

    /** delete_fgds_mmap_node: unlink the first node whose GPU address matches. */
    method Delete(node: Node) returns (ok: bool, ghost k: nat)
      requires Valid()
      modifies this, nodes`next
      ensures Valid()
      ensures !ok ==> nodes == old(nodes)
      ensures !ok ==> forall i :: 0 <= i < |nodes| ==> nodes[i].gpuAddr != node.gpuAddr
      ensures ok ==> k < |old(nodes)| && old(nodes)[k].gpuAddr == node.gpuAddr
      ensures ok ==> forall i :: 0 <= i < k ==> old(nodes)[i].gpuAddr != node.gpuAddr
      ensures ok ==> nodes == old(nodes)[..k] + old(nodes)[k + 1..]
      ensures ok ==> Regions() == old(Regions())[..k] + old(Regions())[k + 1..]
    {
      hide RegionsOf;
      var current := head;
      var previous: Node? := null;
      k := 0;
      ok := false;
      while current != null
        invariant 0 <= k <= |nodes|
        invariant current == if k < |nodes| then nodes[k] else null
        invariant previous == if k == 0 then null else nodes[k - 1]
        invariant forall i :: 0 <= i < k ==> nodes[i].gpuAddr != node.gpuAddr
        decreases |nodes| - k
      {
        if current.gpuAddr == node.gpuAddr {
          TakeOut(previous, current, k);
          ok := true;
          return;
        }
        previous := current;
        current := current.next;
        k := k + 1;
      }
    }
  }
}
