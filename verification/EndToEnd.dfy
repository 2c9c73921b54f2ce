/** From a byte of a registered GPU buffer to the byte of GPU memory behind it:
    segmenting, the transfer table and the kernel's page insertion composed. */
module EndToEnd {
  import opened Layout
  import opened Options
  import PageMap
  import opened Registration
  import opened Registry
  import opened Sizes

  // ----- The kernel's part -----

  /** The kernel returns 0 for a MAP call: the area is found, the GPU address is
      above the length, and everything succeeds or a page is silently missing. */
  predicate Answers0(vmas: seq<PageMap.Vma>, p: Pin, env: PageMap.Env)
    requires PageMap.DevPages(p.len) <= |env.pages|
  {
    var mb := PageMap.LookupBuffer(vmas, p.vaddr, p.len);
    && mb.Some? && p.len < p.gpuAddr
    && (PageMap.Succeeds(mb.value.bar, p.len, p.len, env) ||
        (PageMap.Ready(mb.value.bar, p.len, env.oom) && !PageMap.AllPresent(env.pages, PageMap.DevPages(p.len))
         && env.p2pRet == 0))
  }

  /** The MAP ioctl, kernel side. It does what Registry.Process.IoctlMap promises,
      and it says exactly when it answers 0. The driver answers with the process's
      GPU pages, and the area was set up for the GPU's BAR. */
  method IoctlByKernel(space: PageMap.AddressSpace, os: Process, p: Pin, env: PageMap.Env) returns (ok: bool)
    requires p.len % GPU_PAGE == 0 && env.pages == PagesAt(os.gpu, p.gpuAddr, p.len) && env.err != 0
    requires var mb := PageMap.LookupBuffer(space.vmas, p.vaddr, p.len); mb.Some? ==> mb.value.bar == Some(os.bar)
    modifies space`pte, set v | v in space.vmas && v.buffer != null :: v.buffer
    ensures ok <==> Answers0(space.vmas, p, env)
    ensures OnlyIn(old(space.pte), space.pte, p.vaddr, p.len)
    ensures ok ==> PinDone(os.gpu, os.bar, space.pte, p)
  {
    hide PageMap.AreaBacked, PageMap.LookupBuffer, PagesAt;
    PageMap.FillBounds(p.len);
    var ret, overran := PageMap.MapDevAddr(space, p.gpuAddr, p.len, p.vaddr, p.len, env);
    ok := ret == 0;
    forall x: nat | !(p.vaddr <= x < p.vaddr + p.len) ensures SamePte(old(space.pte), space.pte, x) {
    }
  }

  // ----- From a byte to its GPU page -----

  /** The physical address behind a user address. */
  ghost function Physical(pte: map<nat, nat>, v: nat): nat
    requires v - v % CPU_PAGE in pte
  {
    pte[v - v % CPU_PAGE] + v % CPU_PAGE
  }

  /** A byte of a backed area is the corresponding byte of its device page. */
  lemma AreaByte(pte: map<nat, nat>, va: nat, len: nat, pages: seq<Option<nat>>, o: nat)
    requires PageMap.AreaBacked(pte, va, len, pages) && va % CPU_PAGE == 0 && len % GPU_PAGE == 0 && o < len
    requires o / GPU_PAGE < |pages| && pages[o / GPU_PAGE].Some?
    requires pages[o / GPU_PAGE].value + GPU_PAGE <= TWO_64
    ensures (va + o) - (va + o) % CPU_PAGE in pte
    ensures Physical(pte, va + o) == pages[o / GPU_PAGE].value + o % GPU_PAGE
  {
    PageMap.FillBounds(len);
    var k := o / CPU_PAGE;
    assert k / 16 == o / GPU_PAGE;
    assert PageMap.Backed(pte, va, pages, k);
    assert (va + o) % CPU_PAGE == o % CPU_PAGE;
    assert PageMap.PageAt(va, k) == va + o - o % CPU_PAGE;
    assert k % 16 * CPU_PAGE + o % CPU_PAGE == o % GPU_PAGE;
  }

  /** The GPU page of byte `o` of the buffer, if the driver has it. */
  function DevicePage(os: Process, r: Region, o: nat): Option<nat> {
    os.gpu(r.gpuAddr + o / GPU_PAGE * GPU_PAGE)
  }

  /** The driver has every page of the buffer. */
  ghost predicate Resident(os: Process, r: Region) {
    forall o: nat :: o < r.length ==> DevicePage(os, r, o).Some?
  }

  /** The BAR and the pages are where 64 bits can address them. */
  ghost predicate Sane(os: Process) {
    && GPU_PAGE <= os.bar.size && os.bar.paddr + os.bar.size <= TWO_64
    && forall a: nat :: os.gpu(a).Some? ==> os.gpu(a).value < TWO_64
  }

  /** Host address `v` is mapped to byte `o` of the buffer, inside the BAR. */
  ghost predicate ReachesDevice(os: Process, pte: map<nat, nat>, r: Region, v: nat, o: nat) {
    && DevicePage(os, r, o).Some? && v - v % CPU_PAGE in pte
    && Physical(pte, v) == DevicePage(os, r, o).value + o % GPU_PAGE
    && os.bar.paddr <= Physical(pte, v) < os.bar.paddr + os.bar.size
  }

  /** The pages of segment `i` are those of the buffer from its first byte on. */
  lemma SegmentPages(os: Process, r: Region, o: nat)
    requires ValidRegion(r) && o < r.length
    ensures var i, p := o / SEGMENT, o % SEGMENT;
      var pages := PagesAt(os.gpu, r.gpuAddr + SEGMENT * i, SegLength(r.length, i));
      && i < |r.vaddrs| && p < SegLength(r.length, i) && p % GPU_PAGE == o % GPU_PAGE
      && SegLength(r.length, i) % GPU_PAGE == 0 && p / GPU_PAGE < |pages|
      && pages[p / GPU_PAGE] == DevicePage(os, r, o)
      && (Resident(os, r) ==> PageMap.AllPresent(pages, |pages|))
  {
    var i, p := o / SEGMENT, o % SEGMENT;
    var len := SegLength(r.length, i);
    HostInSegment(r, o);
    SegmentWhole(r.length, i);
    var pages := PagesAt(os.gpu, r.gpuAddr + SEGMENT * i, len);
    PageInSegment(o);
    hide SegLength, RangesDisjoint;
    if Resident(os, r) {
      forall k | 0 <= k < |pages| ensures pages[k].Some? {
        SegmentOffset(r.length, i, k);
        assert DevicePage(os, r, SEGMENT * i + k * GPU_PAGE).Some?;
      }
    }
  }

  /** A segment holds whole GPU pages. */
  lemma PageInSegment(o: nat)
    ensures SEGMENT * (o / SEGMENT) + o % SEGMENT / GPU_PAGE * GPU_PAGE == o / GPU_PAGE * GPU_PAGE
    ensures o % SEGMENT % GPU_PAGE == o % GPU_PAGE
  {
    var i, p := o / SEGMENT, o % SEGMENT;
    var k, m := p / GPU_PAGE, p % GPU_PAGE;
    assert o == (i * (SEGMENT / GPU_PAGE) + k) * GPU_PAGE + m;
    assert o / GPU_PAGE == i * (SEGMENT / GPU_PAGE) + k && o % GPU_PAGE == m;
  }

  lemma SegmentOffset(len: nat, i: nat, k: nat)
    requires i < SegCount(len) && len % GPU_PAGE == 0 && k < PageMap.DevPages(SegLength(len, i))
    ensures SEGMENT * i + k * GPU_PAGE < len
    ensures (SEGMENT * i + k * GPU_PAGE) / GPU_PAGE * GPU_PAGE == SEGMENT * i + k * GPU_PAGE
  {
  }

  /** Byte `o` of a buffer whose segments are bound reaches device page o / 64 KiB at
      o % 64 KiB, which lies inside the BAR. */
  lemma ByteReachesDevice(os: Process, pte: map<nat, nat>, r: Region, o: nat)
    requires ValidRegion(r) && RegionDone(os, pte, r, |r.vaddrs|) && Resident(os, r) && Sane(os) && o < r.length
    ensures ReachesDevice(os, pte, r, Host(r, o), o)
  {
    var i, p := o / SEGMENT, o % SEGMENT;
    SegmentPages(os, r, o);
    var len := SegLength(r.length, i);
    var pages := PagesAt(os.gpu, r.gpuAddr + SEGMENT * i, len);
    assert PinDone(os.gpu, os.bar, pte, PinOf(r, i));
    hide SegLength, ValidRegion, PageMap.AreaBacked, PagesAt, RegionDone, Resident;
    PageMap.BarCheckSound(os.bar, pages[p / GPU_PAGE].value);
    AreaByte(pte, r.vaddrs[i], len, pages, p);
  }

  /** Every byte of the buffer reaches its own byte of GPU memory. */
  ghost predicate AllReach(os: Process, pte: map<nat, nat>, r: Region) {
    ValidRegion(r) && forall o: nat :: o < r.length ==> ReachesDevice(os, pte, r, Host(r, o), o)
  }

  lemma BufferReaches(os: Process, pte: map<nat, nat>, r: Region)
    requires ValidRegion(r) && RegionDone(os, pte, r, |r.vaddrs|) && Resident(os, r) && Sane(os)
    ensures AllReach(os, pte, r)
  {
    hide RegionDone, Resident, Sane, ReachesDevice, Host;
    forall o: nat | o < r.length ensures ReachesDevice(os, pte, r, Host(r, o), o) {
      ByteReachesDevice(os, pte, r, o);
    }
  }

  /** Every registered buffer, however many were registered and deregistered before
      and since: byte `i` of a transfer window is moved to or from its own GPU page. */
  lemma TransferReachesDevice(os: Process, pte: map<nat, nat>, rs: seq<Region>, live: map<nat, nat>,
          leaked: set<nat>, k: nat, off: nat, n: nat, i: nat)
    requires Lawful(rs, live, leaked) && Realised(os, pte, rs) && Sane(os)
    requires k < |rs| && Resident(os, rs[k]) && off + n <= rs[k].length && i < n
    ensures |Addresses(Table(rs[k], off, n))| == n
    ensures ReachesDevice(os, pte, rs[k], Addresses(Table(rs[k], off, n))[i], off + i)
  {
    LawfulParts(rs, live, leaked);
    hide Lawful, ValidRegion, ReachesDevice, RegionDone, Table, Addresses, Sane, Resident;
    TablePartitions(rs[k], off, n);
    assert Addresses(Table(rs[k], off, n))[i] == WindowHost(rs[k], off, i) == Host(rs[k], off + i);
    ByteReachesDevice(os, pte, rs[k], off + i);
  }

  /** After a successful registration, this buffer and every one registered earlier
      and still live can be reached byte by byte. */
  method Register(dev: Device, os: Process, gpuAddr: nat, len: nat, oom: bool) returns (rc: int)
    requires dev.Valid() && Lawful(dev.Regions(), os.live, os.leaked) && Realised(os, os.pte, dev.Regions())
    requires 0 < len && Sane(os)
    requires forall r :: r in dev.Regions() ==> RangesDisjoint(r.gpuAddr, r.length, gpuAddr, len)
    modifies dev, os
    ensures dev.Valid() && Lawful(dev.Regions(), os.live, os.leaked) && Realised(os, os.pte, dev.Regions())
    ensures rc == 0 ==> |dev.Regions()| > 0 && dev.Regions()[1..] == old(dev.Regions())
    ensures rc == 0 ==> dev.Regions()[0].gpuAddr == gpuAddr && dev.Regions()[0].length == len
    ensures rc != 0 ==> dev.Regions() == old(dev.Regions())
    ensures forall k :: 0 <= k < |dev.Regions()| && Resident(os, dev.Regions()[k]) ==>
      AllReach(os, os.pte, dev.Regions()[k])
  {
    hide Linked, RegionsOf, Extends, Distinct, ToSet, PinsOf, Resident, ReachesDevice;
    var target;
    ghost var bound;
    rc, target, bound := RegMem(dev, os, gpuAddr, len, oom);
    LawfulParts(dev.Regions(), os.live, os.leaked);
    hide Lawful, ValidRegion, RegionDone, Sane;
    forall k | 0 <= k < |dev.Regions()| && Resident(os, dev.Regions()[k])
      ensures AllReach(os, os.pte, dev.Regions()[k])
    {
      BufferReaches(os, os.pte, dev.Regions()[k]);
    }
  }
}
