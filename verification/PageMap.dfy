/** The kernel side of a registration: the pages of a GPU memory range are found
    in the GPU's PCIe BAR and inserted, as 4 KiB CPU pages, into a user mapping. */
module PageMap {
  import opened Options
  import opened Sizes

  const ENOMEM: int := -12
  const EFAULT: int := -14
  const EINVAL: int := -22

  /** The BAR through which the GPU's memory is reached: its physical range and
      the kernel address it is mapped at (0 if it is not). */
  datatype Bar = Bar(paddr: nat, size: nat, memVa: nat)

  /** The physical page behind a kernel address in the mapped BAR. */
  function VirtToPage(b: Bar, va: nat): nat {
    U64(b.paddr + va - b.memVa)
  }

  predicate BarChecked(b: Bar, page: nat) {
    U64(page - b.paddr) <= U64(b.size - GPU_PAGE)
  }

  /** The 64 KiB device page lies inside the BAR. */
  predicate InBar(b: Bar, page: nat) {
    b.paddr <= page && page + GPU_PAGE <= b.paddr + b.size
  }

  /** The unsigned comparison tests exactly that, if and only if the BAR holds at
      least one page: for a smaller one the subtraction wraps. */
  lemma BarCheckExact(b: Bar)
    requires b.paddr + b.size <= TWO_64
    ensures (forall page :: 0 <= page < TWO_64 ==> (BarChecked(b, page) <==> InBar(b, page))) <==>
      GPU_PAGE <= b.size
  {
    if b.size < GPU_PAGE {
      var page := if b.size == 0 then 0 else b.paddr;
      assert !InBar(b, page);
      if b.size == 0 {
        SmallBar(b);
      } else {
        assert BarChecked(b, page);
      }
    } else {
      forall page | 0 <= page < TWO_64 ensures BarChecked(b, page) <==> InBar(b, page) {
        BarCheckSound(b, page);
      }
    }
  }

  lemma SmallBar(b: Bar)
    requires b.size == 0 && b.paddr <= TWO_64
    ensures exists page :: 0 <= page < TWO_64 && BarChecked(b, page) && !InBar(b, page)
  {
    var page := U64(b.paddr);
    assert BarChecked(b, page) && !InBar(b, page);
  }

  lemma BarCheckSound(b: Bar, page: nat)
    requires GPU_PAGE <= b.size && b.paddr + b.size <= TWO_64 && page < TWO_64
    ensures BarChecked(b, page) <==> InBar(b, page)
  {
    if page < b.paddr {
      assert U64(page - b.paddr) == page - b.paddr + TWO_64;
    }
  }

  // ----- Page counts -----

  function DevPages(devLen: nat): nat {
    (devLen + 0xFFFF) / GPU_PAGE
  }

  function HostPages(devLen: nat): nat {
    if devLen < GPU_PAGE then (devLen + 0xFFF) / CPU_PAGE else DevPages(devLen) * 16
  }

  /** Slot `i * 16 + j` of the page table. */
  function Slot(i: nat, j: nat): nat {
    i * 16 + j
  }

  /** The fill loop stays inside the table it allocated. */
  predicate TableFits(devLen: nat) {
    devLen == 0 || 0xF000 < devLen
  }

  /** TableFits is the exact condition: sixteen slots are written per device page
      even when fewer were allocated. Lengths the library registers are multiples
      of 64 KiB and meet it. */
  lemma FillBounds(devLen: nat)
    ensures (forall i: nat, j: nat :: i < DevPages(devLen) && j < 16 ==> Slot(i, j) < HostPages(devLen)) <==>
      TableFits(devLen)
    ensures devLen % GPU_PAGE == 0 ==> TableFits(devLen) && HostPages(devLen) * CPU_PAGE == devLen
  {
    if !TableFits(devLen) {
      assert Slot(0, HostPages(devLen)) == HostPages(devLen);
    }
  }

  // ----- The objects -----

  /** struct fgds_mmap_buffer. The mapping it stands for is fixed when it is made. */
  /** The `dev_page_addrs` of a buffer: null, an array, or the address of one that has
      been freed. */
  datatype PageAddrs = NoAddrs | Held | Freed

  class MmapBuffer {
    const cVaddr: nat
    const mapLen: nat
    const bar: Option<Bar>
    var devAddr: nat
    var devLen: nat
    var devPageNum: nat
    var hostPageNum: nat
    var ppages: array?<nat>
    var addrs: PageAddrs
    var remap: bool

    constructor (cVaddr: nat, mapLen: nat, bar: Option<Bar>)
      ensures this.cVaddr == cVaddr && this.mapLen == mapLen && this.bar == bar && !remap && ppages == null
      ensures addrs == NoAddrs
    {
      this.cVaddr, this.mapLen, this.bar := cVaddr, mapLen, bar;
      devAddr, devLen, devPageNum, hostPageNum, ppages, addrs, remap := 0, 0, 0, 0, null, NoAddrs, false;
    }
  }

  /** A virtual memory area and its private data. */
  datatype Vma = Vma(start: nat, end: nat, buffer: MmapBuffer?)

  /** The first `n` CPU page slots of `table` are mapped from `va` on. */
  ghost predicate Inserted(pte: map<nat, nat>, va: nat, table: seq<nat>, n: nat)
    requires n <= |table|
  {
    forall k :: 0 <= k < n ==> PageAt(va, k) in pte && pte[PageAt(va, k)] == table[k]
  }

  function PageAt(va: nat, k: nat): nat {
    va + k * CPU_PAGE
  }

  /** Nothing outside [va, va + n pages) changed. */
  ghost predicate SameElsewhere(pte0: map<nat, nat>, pte: map<nat, nat>, va: nat, n: nat) {
    forall a :: !(va <= a < va + n * CPU_PAGE) ==> (a in pte <==> a in pte0) && (a in pte0 ==> pte[a] == pte0[a])
  }

  /** The user process: its areas and its page table, from page address to the
      physical address of the page. */
  class AddressSpace {
    var vmas: seq<Vma>
    var pte: map<nat, nat>

    constructor (vmas: seq<Vma>)
      ensures this.vmas == vmas && pte == map[]
    {
      this.vmas, pte := vmas, map[];
    }

    /** vm_insert_pages: all pages must fit the area; it may give up after `stop`
        pages with error `err`. */
    method InsertPages(va: nat, end: nat, table: array<nat>, n: nat, stop: nat, err: int) returns (ret: int)
      requires n <= table.Length && err != 0
      modifies this`pte
      ensures ret == 0 <==> va + n * CPU_PAGE <= end && n <= stop
      ensures ret == 0 ==> Inserted(pte, va, table[..], n)
      ensures SameElsewhere(old(pte), pte, va, n)
    {
      if va + n * CPU_PAGE > end { return EFAULT; }
      var k := 0;
      while k < n && k < stop
        invariant k <= n && k <= stop
        invariant Inserted(pte, va, table[..], k)
        invariant SameElsewhere(old(pte), pte, va, n)
      {
        pte := pte[PageAt(va, k) := table[k]];
        k := k + 1;
      }
      ret := if k < n then err else 0;
    }
  }

  /** What the rest of the kernel answers: which allocation fails (0 to 3; any
      other number for none), the GPU driver's return code and page table, and how
      far page insertion gets. */
  datatype Env = Env(oom: nat, p2pRet: int, pages: seq<Option<nat>>, stop: nat, err: int)

  predicate AllPresent(pages: seq<Option<nat>>, n: nat)
    requires n <= |pages|
  {
    forall i :: 0 <= i < n ==> pages[i].Some?
  }

  predicate AllChecked(b: Bar, pages: seq<Option<nat>>, n: nat)
    requires n <= |pages|
  {
    forall i :: 0 <= i < n ==> pages[i].Some? && BarChecked(b, pages[i].value)
  }

  method CollectPages(pages: seq<Option<nat>>, n: nat) returns (ok: bool, addrs: array<nat>)
    requires n <= |pages|
    ensures fresh(addrs) && addrs.Length == n
    ensures ok <==> AllPresent(pages, n)
    ensures ok ==> forall i :: 0 <= i < n ==> addrs[i] == pages[i].value
  {
    addrs := new nat[n](_ => 0);
    var i := 0;
    while i < n
      invariant i <= n
      invariant forall k :: 0 <= k < i ==> pages[k].Some? && addrs[k] == pages[k].value
    {
      if pages[i].None? { return false, addrs; }
      addrs[i] := pages[i].value;
      i := i + 1;
    }
    ok := true;
  }

  /** The CPU page that slot `k` must hold. */
  function PageOf(addrs: seq<nat>, k: nat): nat
    requires k / 16 < |addrs|
  {
    U64(addrs[k / 16] + k % 16 * CPU_PAGE)
  }

  /** One device page: check it against the BAR and fill its sixteen slots. The code
      does not look whether the table has that many left; `overran` says that it is
      about to write past the end. */
  method FillPage(b: Bar, addrs: array<nat>, i: nat, ppages: array<nat>) returns (ok: bool, overran: bool)
    requires i < addrs.Length && i * 16 <= ppages.Length && addrs != ppages
    requires forall k :: 0 <= k < i * 16 ==> ppages[k] == PageOf(addrs[..], k)
    modifies ppages
    ensures ok <==> BarChecked(b, addrs[i]) && i * 16 + 16 <= ppages.Length
    ensures overran <==> BarChecked(b, addrs[i]) && ppages.Length < i * 16 + 16
    ensures ok ==> forall k :: 0 <= k < i * 16 + 16 ==> ppages[k] == PageOf(addrs[..], k)
  {
    hide U64, VirtToPage;
    var off := U64(addrs[i] - b.paddr);
    var va := U64(b.memVa + off);
    if off > U64(b.size - GPU_PAGE) { return false, false; }
    var j := 0;
    while j < 16
      invariant j <= 16 && i * 16 + j <= ppages.Length
      invariant forall k :: 0 <= k < i * 16 + j ==> ppages[k] == PageOf(addrs[..], k)
    {
      if ppages.Length <= i * 16 + j { return false, true; }
      ppages[i * 16 + j] := VirtToPage(b, U64(va + j * CPU_PAGE));
      SlotPage(b, addrs[i], j);
      assert (i * 16 + j) / 16 == i && (i * 16 + j) % 16 == j;
      j := j + 1;
    }
    ok, overran := true, false;
  }

  /** Through the BAR mapping and back, wrap-around included, slot `j` of a device
      page is the page's own physical address plus `j` CPU pages. */
  lemma SlotPage(b: Bar, page: nat, j: nat)
    ensures VirtToPage(b, U64(U64(b.memVa + U64(page - b.paddr)) + j * CPU_PAGE)) == U64(page + j * CPU_PAGE)
  {
    U64Add(page - b.paddr, b.memVa);
    U64Add(b.memVa + (page - b.paddr), j * CPU_PAGE);
    U64Add(b.memVa + (page - b.paddr) + j * CPU_PAGE, b.paddr - b.memVa);
  }

  lemma U64Add(x: int, y: int)
    ensures U64(U64(x) + y) == U64(x + y)
  {
  }

  /** All device pages. It overruns exactly if the table is too short and no page
      outside the BAR stops it before. */
  method FillTable(b: Bar, addrs: array<nat>, ppages: array<nat>) returns (ok: bool, overran: bool)
    requires addrs != ppages
    modifies ppages
    ensures ok <==> addrs.Length * 16 <= ppages.Length && forall i :: 0 <= i < addrs.Length ==> BarChecked(b, addrs[i])
    ensures overran <==>
      ppages.Length < addrs.Length * 16 && forall i :: 0 <= i <= ppages.Length / 16 ==> BarChecked(b, addrs[i])
    ensures ok ==> forall k :: 0 <= k < addrs.Length * 16 ==> ppages[k] == PageOf(addrs[..], k)
  {
    var i := 0;
    while i < addrs.Length
      invariant i <= addrs.Length && i * 16 <= ppages.Length
      invariant forall k :: 0 <= k < i ==> BarChecked(b, addrs[k])
      invariant forall k :: 0 <= k < i * 16 ==> ppages[k] == PageOf(addrs[..], k)
    {
      ok, overran := FillPage(b, addrs, i, ppages);
      if !ok { return; }
      i := i + 1;
    }
    ok, overran := true, false;
  }

  // ----- fgds_map_dev_addr_inner and its callers -----

  /** The checks and allocations before the GPU driver is asked all pass. */
  predicate Ready(bar: Option<Bar>, devLen: nat, oom: nat) {
    && bar.Some? && bar.value.memVa != 0
    && (devLen < GPU_PAGE ==> devLen % CPU_PAGE == 0)
    && oom >= 4
  }

  /** Every device page is there and inside the BAR, and every CPU page goes in. */
  predicate Insertable(b: Bar, mapLen: nat, devLen: nat, env: Env)
    requires DevPages(devLen) <= |env.pages|
  {
    && AllChecked(b, env.pages, DevPages(devLen))
    && HostPages(devLen) * CPU_PAGE <= mapLen && HostPages(devLen) <= env.stop
  }

  predicate Succeeds(bar: Option<Bar>, mapLen: nat, devLen: nat, env: Env)
    requires DevPages(devLen) <= |env.pages|
  {
    Ready(bar, devLen, env.oom) && Insertable(bar.value, mapLen, devLen, env)
  }

  /** CPU page `k` of the area is backed by its part of the device page. */
  ghost predicate Backed(pte: map<nat, nat>, va: nat, pages: seq<Option<nat>>, k: nat)
    requires k / 16 < |pages| && pages[k / 16].Some?
  {
    PageAt(va, k) in pte && pte[PageAt(va, k)] == U64(pages[k / 16].value + k % 16 * CPU_PAGE)
  }

  /** The whole area is backed by the device pages, in order. */
  ghost predicate AreaBacked(pte: map<nat, nat>, va: nat, devLen: nat, pages: seq<Option<nat>>) {
    && DevPages(devLen) <= |pages| && AllPresent(pages, DevPages(devLen))
    && forall k :: 0 <= k < HostPages(devLen) && k / 16 < DevPages(devLen) ==> Backed(pte, va, pages, k)
  }

  /** What a MAP call that returned 0 has done for an area: if the driver has all its
      pages, they are inside the BAR and back the area. */
  ghost predicate AreaDone(pte: map<nat, nat>, va: nat, len: nat, b: Bar, pages: seq<Option<nat>>) {
    && DevPages(len) <= |pages|
    && (AllPresent(pages, DevPages(len)) ==>
          va % CPU_PAGE == 0 && AreaBacked(pte, va, len, pages) && AllChecked(b, pages, DevPages(len)))
  }

  /** The fill loop leaves its table. */
  predicate Overruns(b: Bar, devLen: nat, env: Env)
    requires DevPages(devLen) <= |env.pages|
  {
    !TableFits(devLen) && AllChecked(b, env.pages, DevPages(devLen))
  }

  /** What a MAP call leaves in `dev_page_addrs`. A failure after the addresses were
      collected frees the array and leaves its address there. */
  function AddrsAfter(before: PageAddrs, collected: bool, mapped: bool): PageAddrs {
    if !collected then before else if mapped then Held else Freed
  }

  /** The part between the driver's answer and the inserted pages. A missing
      device page makes it return the driver's code, not an error of its own. What
      happens after an overrun is not modelled. */
  method InsertDevice(mb: MmapBuffer, space: AddressSpace, b: Bar, devLen: nat, env: Env)
    returns (ret: int, mapped: bool, overran: bool)
    requires DevPages(devLen) <= |env.pages| && env.err != 0
    requires devLen < GPU_PAGE ==> devLen % CPU_PAGE == 0
    modifies mb`ppages, mb`addrs, space`pte
    ensures overran == Overruns(b, devLen, env)
    ensures !overran ==> mb.addrs == AddrsAfter(old(mb.addrs), AllPresent(env.pages, DevPages(devLen)), mapped)
    ensures mapped == (!overran && Insertable(b, mb.mapLen, devLen, env))
    ensures !overran ==> mapped == (mb.ppages != null)
    ensures mapped ==> ret == 0 && AreaBacked(space.pte, mb.cVaddr, devLen, env.pages)
    ensures !mapped && !overran ==> (ret == 0 <==> !AllPresent(env.pages, DevPages(devLen)) && env.p2pRet == 0)
    ensures !AllChecked(b, env.pages, DevPages(devLen)) || overran ==> space.pte == old(space.pte)
    ensures SameElsewhere(old(space.pte), space.pte, mb.cVaddr, HostPages(devLen))
  {
    FillBounds(devLen);
    var n, hn := DevPages(devLen), HostPages(devLen);
    assert n * 16 <= hn <==> TableFits(devLen);
    mapped, overran := false, false;
    var table := new nat[hn](_ => 0);
    mb.ppages := table;
    var present, addrs := CollectPages(env.pages, n);
    if !present {
      mb.ppages := null;
      return env.p2pRet, false, false;
    }
    mb.addrs := Held;
    var good;
    good, overran := FillTable(b, addrs, table);
    if overran { return EFAULT, false, true; }
    if !good {
      mb.ppages, mb.addrs := null, Freed;
      return EINVAL, false, false;
    }
    ret := space.InsertPages(mb.cVaddr, mb.cVaddr + mb.mapLen, table, hn, env.stop, env.err);
    if ret != 0 {
      mb.ppages, mb.addrs := null, Freed;
      return ret, false, false;
    }
    mapped := true;
    forall k | 0 <= k < hn && k / 16 < n ensures Backed(space.pte, mb.cVaddr, env.pages, k) {
      assert table[..][k] == PageOf(addrs[..], k);
    }
  }

  /** The addresses of all device pages were collected. */
  predicate Collected(bar: Option<Bar>, devLen: nat, env: Env)
    requires DevPages(devLen) <= |env.pages|
  {
    Ready(bar, devLen, env.oom) && AllPresent(env.pages, DevPages(devLen))
  }

  /** fgds_map_dev_addr_inner. `remap` records success. The one way to return 0
      without mapping anything is a missing device page that the driver did not
      report. */
  method MapInner(mb: MmapBuffer, space: AddressSpace, devLen: nat, env: Env) returns (ret: int, overran: bool)
    requires DevPages(devLen) <= |env.pages| && env.err != 0
    modifies mb, space`pte
    ensures overran <==> Ready(mb.bar, devLen, env.oom) && Overruns(mb.bar.value, devLen, env)
    ensures !overran ==> mb.remap == (old(mb.remap) || Succeeds(mb.bar, mb.mapLen, devLen, env))
    ensures !overran && Succeeds(mb.bar, mb.mapLen, devLen, env) ==>
      ret == 0 && mb.ppages != null && AreaBacked(space.pte, mb.cVaddr, devLen, env.pages)
    ensures !overran ==>
      (ret == 0 && !Succeeds(mb.bar, mb.mapLen, devLen, env) <==>
        Ready(mb.bar, devLen, env.oom) && !AllPresent(env.pages, DevPages(devLen)) && env.p2pRet == 0)
    ensures !Ready(mb.bar, devLen, env.oom) || overran || !AllChecked(mb.bar.value, env.pages, DevPages(devLen)) ==>
      space.pte == old(space.pte)
    ensures SameElsewhere(old(space.pte), space.pte, mb.cVaddr, HostPages(devLen))
    ensures mb.devAddr == old(mb.devAddr) && mb.devLen == old(mb.devLen)
    ensures !overran ==>
      mb.addrs == AddrsAfter(old(mb.addrs), Collected(mb.bar, devLen, env), Succeeds(mb.bar, mb.mapLen, devLen, env))
  {
    overran := false;
    if mb.bar.None? || mb.bar.value.memVa == 0 {
      mb.ppages := null;
      return ENOMEM, false;
    }
    mb.devPageNum := DevPages(devLen);
    if devLen < GPU_PAGE {
      if devLen % CPU_PAGE != 0 {
        mb.ppages := null;
        return EINVAL, false;
      }
      mb.hostPageNum := (devLen + 0xFFF) / CPU_PAGE;
    } else {
      mb.hostPageNum := mb.devPageNum * 16;
    }
    if env.oom < 4 {
      mb.ppages := null;
      return ENOMEM, false;
    }
    var mapped;
    ret, mapped, overran := InsertDevice(mb, space, mb.bar.value, devLen, env);
    if mapped {
      mb.remap := true;
    }
  }

  /** The area that holds `addr`, if any (areas do not overlap). */
  function VmaLookup(vmas: seq<Vma>, addr: nat): Option<Vma> {
    if vmas == [] then None
    else if vmas[0].start <= addr < vmas[0].end then Some(vmas[0])
    else VmaLookup(vmas[1..], addr)
  }

  /** fgds_lookup_mmap_buffer: the buffer that was mapped at exactly this address
      with exactly this length. */
  function LookupBuffer(vmas: seq<Vma>, addr: nat, length: nat): (r: Option<MmapBuffer>)
    ensures r.Some? ==> addr != 0 && addr % CPU_PAGE == 0 && r.value.cVaddr == addr && r.value.mapLen == length
  {
    if addr == 0 || addr % CPU_PAGE != 0 then None else
      match VmaLookup(vmas, addr)
      case None => None
      case Some(v) =>
        if v.buffer != null && v.buffer.cVaddr == addr && v.buffer.mapLen == length then Some(v.buffer) else None
  }

  ghost predicate AreasDisjoint(vmas: seq<Vma>) {
    forall i, j :: 0 <= i < j < |vmas| ==> vmas[i].end <= vmas[j].start || vmas[j].end <= vmas[i].start
  }

  ghost predicate Holds(vmas: seq<Vma>, k: nat, addr: nat) {
    k < |vmas| && vmas[k].start <= addr < vmas[k].end
  }

  lemma {:induction false} VmaLookupExact(vmas: seq<Vma>, addr: nat, k: nat)
    requires AreasDisjoint(vmas) && Holds(vmas, k, addr)
    ensures VmaLookup(vmas, addr) == Some(vmas[k])
  {
    if k == 0 {
    } else {
      assert vmas[0].end <= vmas[k].start || vmas[k].end <= vmas[0].start;
      VmaLookupExact(vmas[1..], addr, k - 1);
    }
  }

  /** A buffer is found exactly if the address is not null, page aligned and in an
      area that was set up for a buffer of this address and length. */
  lemma LookupExact(vmas: seq<Vma>, addr: nat, length: nat, mb: MmapBuffer)
    requires AreasDisjoint(vmas)
    ensures LookupBuffer(vmas, addr, length) == Some(mb) <==>
      && addr != 0 && addr % CPU_PAGE == 0 && mb.cVaddr == addr && mb.mapLen == length
      && exists k: nat :: Holds(vmas, k, addr) && vmas[k].buffer == mb
  {
    if LookupBuffer(vmas, addr, length) == Some(mb) {
      VmaIsThere(vmas, addr);
    }
    if k: nat :| Holds(vmas, k, addr) && vmas[k].buffer == mb {
      VmaLookupExact(vmas, addr, k);
    }
  }

  /** fgds_map_dev_addr. */
  method MapDevAddr(space: AddressSpace, devAddr: nat, devLen: nat, addr: nat, length: nat, env: Env)
    returns (ret: int, overran: bool)
    requires DevPages(devLen) <= |env.pages| && env.err != 0
    modifies space`pte, set v | v in space.vmas && v.buffer != null :: v.buffer
    ensures LookupBuffer(space.vmas, addr, length).None? || devAddr <= length ==>
      ret == EINVAL && !overran && space.pte == old(space.pte)
    ensures LookupBuffer(space.vmas, addr, length).Some? && length < devAddr ==>
      var mb := LookupBuffer(space.vmas, addr, length).value;
      && mb.devAddr == devAddr && mb.devLen == devLen
      && (overran <==> Ready(mb.bar, devLen, env.oom) && Overruns(mb.bar.value, devLen, env))
      && (!overran && Succeeds(mb.bar, length, devLen, env) ==>
        ret == 0 && mb.remap && AreaBacked(space.pte, addr, devLen, env.pages))
      && (!overran && ret == 0 && !Succeeds(mb.bar, length, devLen, env) ==> space.pte == old(space.pte))
      && (!overran ==>
            (ret == 0 && !Succeeds(mb.bar, length, devLen, env) <==>
              Ready(mb.bar, devLen, env.oom) && !AllPresent(env.pages, DevPages(devLen)) && env.p2pRet == 0))
      && (!overran && Collected(mb.bar, devLen, env) ==>
            mb.addrs == if Succeeds(mb.bar, length, devLen, env) then Held else Freed)
    ensures SameElsewhere(old(space.pte), space.pte, addr, HostPages(devLen))
  {
    var found := LookupBuffer(space.vmas, addr, length);
    if found.None? || devAddr <= length { return EINVAL, false; }
    var mb := found.value;
    LookupIsThere(space.vmas, addr, length);
    mb.devAddr, mb.devLen := devAddr, devLen;
    ret, overran := MapInner(mb, space, devLen, env);
  }

  /** fgds_mbuffer_free, as far as the buffer's own fields go: it frees the array if
      there is an address, so a freed one is freed once more. */
  method Release(mb: MmapBuffer) returns (again: bool)
    modifies mb
    ensures again <==> old(mb.addrs) == Freed
    ensures mb.addrs == NoAddrs && mb.ppages == null && !mb.remap && mb.devAddr == 0 && mb.devLen == 0
  {
    again := mb.addrs == Freed;
    mb.remap, mb.addrs, mb.ppages, mb.devAddr, mb.devLen := false, NoAddrs, null, 0, 0;
  }

  /** One MAP call on a new buffer and its release: the array is freed twice exactly
      if the call failed after collecting the addresses. */
  method MapThenRelease(mb: MmapBuffer, space: AddressSpace, devLen: nat, env: Env) returns (overran: bool, again: bool)
    requires DevPages(devLen) <= |env.pages| && env.err != 0 && mb.addrs == NoAddrs
    modifies mb, space`pte
    ensures !overran ==>
      (again <==> Collected(mb.bar, devLen, env) && !Insertable(mb.bar.value, mb.mapLen, devLen, env))
    ensures mb.addrs == NoAddrs && mb.ppages == null && !mb.remap
  {
    var ret;
    ret, overran := MapInner(mb, space, devLen, env);
    again := Release(mb);
  }

  lemma LookupIsThere(vmas: seq<Vma>, addr: nat, length: nat)
    requires LookupBuffer(vmas, addr, length).Some?
    ensures exists v :: v in vmas && v.buffer == LookupBuffer(vmas, addr, length).value
  {
    VmaIsThere(vmas, addr);
  }

  lemma {:induction false} VmaIsThere(vmas: seq<Vma>, addr: nat)
    requires VmaLookup(vmas, addr).Some?
    ensures exists k: nat :: Holds(vmas, k, addr) && vmas[k] == VmaLookup(vmas, addr).value
    ensures VmaLookup(vmas, addr).value in vmas
  {
    if vmas[0].start <= addr < vmas[0].end {
      assert Holds(vmas, 0, addr);
    } else {
      VmaIsThere(vmas[1..], addr);
      var k: nat :| Holds(vmas[1..], k, addr) && vmas[1..][k] == VmaLookup(vmas, addr).value;
      assert Holds(vmas, k + 1, addr);
    }
  }
}
