/** fgds_read, fgds_write and fgds_async against one specification: what a
    single pread or pwrite of the whole window would do. */
module Api {
  import opened Options
  import opened Layout
  import opened Registry
  import opened Registration
  import opened Sizes
  import opened XferTable
  import opened Kernel
  import opened Transfer
  import opened Batch
  import opened Tiling
  import opened Packing
  import opened Pipeline
  import opened Direct

  /** The window lies in a registration. The lookup covers the whole length on
      the direct path and the first sub-I/O on the ring path; both come to the
      same when `gpuBuf` is the start of the registration. */
  ghost predicate Takes(rs: seq<Region>, gpuBuf: nat, bufOff: nat, n: nat, lookup: nat) {
    var h := Home(rs, gpuBuf);
    h.Some? && gpuBuf + lookup <= h.value.gpuAddr + h.value.length && bufOff + n <= h.value.length
  }

  ghost function WindowOf(rs: seq<Region>, gpuBuf: nat, bufOff: nat, fOff: nat, n: nat): Window
    requires Home(rs, gpuBuf).Some?
  {
    Window(Home(rs, gpuBuf).value, bufOff, fOff, n)
  }

  lemma WindowFits(rs: seq<Region>, size: nat, gpuBuf: nat, bufOff: nat, fOff: nat, n: nat, lookup: nat)
    requires GoodRegions(rs, size) && Takes(rs, gpuBuf, bufOff, n, lookup)
    ensures Fits(WindowOf(rs, gpuBuf, bufOff, fOff, n), size)
  {
    hide SegLength, RangesDisjoint;
  }

  /** fgds_read_direct and fgds_write_direct. */
  method DirectTransfer(op: Op, dev: Device, ring: Uring, gpuBuf: nat, bufOff: nat, n: nat, fOff: nat, oom: bool)
    returns (rc: int, ghost ioFailed: bool)
    requires dev.Valid() && GoodRegions(dev.Regions(), |ring.kernel.mem|)
    requires ring.Quiet() && bufOff + n < 0x8000_0000_0000_0000
    modifies ring`kernel, ring`errors
    ensures ring.Quiet()
    ensures n == 0 ==> (rc == 0 || rc == -1) && ring.kernel == old(ring.kernel)
    ensures 0 < n && (oom || !Takes(dev.Regions(), gpuBuf, bufOff, n, n)) ==>
      rc == -1 && ring.kernel == old(ring.kernel) && ring.errors == old(ring.errors) && !ioFailed
    ensures 0 < n && !oom && Takes(dev.Regions(), gpuBuf, bufOff, n, n) ==>
      var w := WindowOf(dev.Regions(), gpuBuf, bufOff, fOff, n);
      && Fits(w, |old(ring.kernel).mem|)
      && Framed(op, w, old(ring.kernel), ring.kernel, n)
      && old(ring.errors) <= ring.errors && (ioFailed <==> old(ring.errors) < ring.errors)
      && (ioFailed ==> rc == -1)
      && (!ioFailed ==>
        rc == Reported(op, old(ring.kernel).file, fOff, n) && Finished(op, w, old(ring.kernel), ring.kernel))
  {
    hide Framed, Inv, ValidRegion, Below, Linked, RegionsOf, Find, Table, RestTiles, Finished, InOneSegment, Reported,
      GpuDisjoint;
    ioFailed := false;
    ghost var rs := dev.Regions();
    var t := DoXferAddr(dev, gpuBuf, bufOff, n, oom);
    if t.None? {
      if 0 < n {
        LookupIsHome(rs, gpuBuf, bufOff, n);
      }
      return -1, ioFailed;
    }
    if n == 0 {
      rc := RunEmpty(op, ring, t.value, fOff, Chosen(rs, gpuBuf, 0));
      return rc, ioFailed;
    }
    LookupIsHome(rs, gpuBuf, bufOff, n);
    WindowFits(rs, |ring.kernel.mem|, gpuBuf, bufOff, fOff, n, n);
    ghost var w := WindowOf(rs, gpuBuf, bufOff, fOff, n);
    TableRest(op, w);
    rc, ioFailed := RunTable(op, ring, t.value, fOff, w);
    if !ioFailed {
      InvFinishes(op, w, old(ring.kernel), ring.kernel, rc);
    }
  }

  /** The same loop over the table of an empty window moves nothing. */
  method RunEmpty(op: Op, ring: Uring, t: seq<Xfer>, fOff: nat, ghost r: Region) returns (rc: int)
    requires ring.Quiet() && Below(r, |ring.kernel.mem|)
    requires forall e :: e in t ==> e.nbyte == 0 && InOneSegment(r, e)
    modifies ring`kernel, ring`errors
    ensures ring.Quiet() && ring.kernel == old(ring.kernel) && (rc == 0 || rc == -1)
  {
    for i := 0 to |t|
      invariant ring.Quiet() && ring.kernel == old(ring.kernel)
    {
      assert t[i] in t;
      var ret, o := Sync(op, ring, t[i].target, t[i].nbyte, fOff);
      EmptyMovesNothing(op, old(ring.kernel), t[i].target, fOff, o);
      if ret < 0 {
        return -1;
      }
    }
    rc := 0;
  }

  lemma EmptyMovesNothing(op: Op, k: State, addr: nat, off: nat, o: Outcome)
    requires addr <= |k.mem| && k.inflight == [] && k.cq == [] && (o.Failed? ==> |o.debris| <= 0)
    ensures After(k, Request(op, addr, 0, off), o).(cq := []) == k
  {
    assert Splice(k.mem, addr, []) == k.mem;
    assert RemoveAt([Request(op, addr, 0, off)], 0) == [];
  }

  /** Below this size a call goes direct; from it on it goes through the ring. */
  function Threshold(op: Op): nat {
    match op
    case Read => 0x8_0000
    case Write => 0x20_0000
  }

  /** The part of the range the first table lookup of the call must cover. */
  function FirstLookup(op: Op, n: nat): nat {
    if n < Threshold(op) then n else SubSize(n)
  }

  /** fgds_read and fgds_write, for every size, offset, file length, completion
      order and pattern of failing pieces. `env` is false when the table cannot
      be allocated or the ring cannot be set up.

      The call succeeds exactly when nothing fails and the window lies in the
      registration; it then reports and leaves what one big call would. Whatever
      happens, only the window's own bytes change. The ring is left empty, but
      for the entries of an overrunning window (Residue). */
  method FgdsTransfer(op: Op, dev: Device, ring: Uring, gpuBuf: nat, bufOff: nat, n: nat, fOff: nat, env: bool)
    returns (rc: int, ghost ioFailed: bool)
    requires dev.Valid() && GoodRegions(dev.Regions(), |ring.kernel.mem|)
    requires ring.Quiet() && 0 < n && bufOff + n < 0x8000_0000_0000_0000
    modifies ring
    ensures ring.kernel.inflight == [] && ring.kernel.cq == []
    ensures old(ring.errors) <= ring.errors && (ioFailed <==> old(ring.errors) < ring.errors)
    ensures rc != -1 <==> env && !ioFailed && Takes(dev.Regions(), gpuBuf, bufOff, n, FirstLookup(op, n))
    ensures rc != -1 ==>
      var w := WindowOf(dev.Regions(), gpuBuf, bufOff, fOff, n);
      && Fits(w, |old(ring.kernel).mem|) && ring.Quiet()
      && rc == Reported(op, old(ring.kernel).file, fOff, n)
      && Finished(op, w, old(ring.kernel), ring.kernel)
    ensures Reaches(dev.Regions(), gpuBuf, bufOff, n) ==>
      var w := CallWindow(dev.Regions(), gpuBuf, bufOff, fOff, n);
      && Fits(w, |old(ring.kernel).mem|)
      && Framed(op, w, old(ring.kernel), ring.kernel, w.n)
    ensures !Reaches(dev.Regions(), gpuBuf, bufOff, n) ==> rc == -1 && ring.kernel == old(ring.kernel)
    ensures |ring.sq| == if env && !ioFailed && Threshold(op) <= n && Reaches(dev.Regions(), gpuBuf, bufOff, n)
                         then Residue(bufOff, n, Home(dev.Regions(), gpuBuf).value.length) else 0
  {
    hide Framed, Finished, ValidRegion, Below, Linked, RegionsOf, Residue, Home, Reported;
    ghost var rs, k0 := dev.Regions(), ring.kernel;
    TakesReaches(op, rs, gpuBuf, bufOff, fOff, n);
    ghost var reaches := Reaches(rs, gpuBuf, bufOff, n);
    if reaches {
      CallWindowFits(rs, |k0.mem|, gpuBuf, bufOff, fOff, n);
      FramedStarts(op, CallWindow(rs, gpuBuf, bufOff, fOff, n), k0);
    }
    if n < Threshold(op) {
      rc, ioFailed := DirectTransfer(op, dev, ring, gpuBuf, bufOff, n, fOff, !env);
      ReportedIsCount(op, k0.file, fOff, n);
      return;
    }
    if !env {
      return -1, false;
    }
    ghost var batches;
    rc, ioFailed, batches := RingTransfer(op, dev, ring, gpuBuf, bufOff, n, fOff);
    if reaches && bufOff + n <= Home(rs, gpuBuf).value.length {
      InRangeNoResidue(bufOff, n, Home(rs, gpuBuf).value.length);
    }
    ReportedIsCount(op, k0.file, fOff, n);
  }

  lemma ReportedIsCount(op: Op, file: seq<Byte>, off: nat, n: nat)
    ensures 0 <= Reported(op, file, off, n) <= n
  {
  }

  lemma FramedStarts(op: Op, w: Window, k: State)
    requires Fits(w, |k.mem|) && k.inflight == [] && k.cq == []
    ensures Framed(op, w, k, k, w.n)
  {
    hide Fits, HostOf, ForWindow, InWindow;
  }

  lemma TakesReaches(op: Op, rs: seq<Region>, gpuBuf: nat, bufOff: nat, fOff: nat, n: nat)
    requires 0 < n
    ensures Takes(rs, gpuBuf, bufOff, n, n) ==> Reaches(rs, gpuBuf, bufOff, n)
    ensures Reaches(rs, gpuBuf, bufOff, n) ==>
              CallWindow(rs, gpuBuf, bufOff, fOff, n).r == Home(rs, gpuBuf).value
    ensures Reaches(rs, gpuBuf, bufOff, n) && bufOff + n <= Home(rs, gpuBuf).value.length ==>
              CallWindow(rs, gpuBuf, bufOff, fOff, n) == WindowOf(rs, gpuBuf, bufOff, fOff, n)
    ensures Takes(rs, gpuBuf, bufOff, n, SubSize(n)) <==>
              Reaches(rs, gpuBuf, bufOff, n) && bufOff + n <= Home(rs, gpuBuf).value.length
  {
  }

  /** Writing a window and reading the same file range back, into any window of
      any registration, reproduces the bytes. The two calls may take different
      paths. */
  method WriteThenRead(dev: Device, ring: Uring, gpuBuf1: nat, off1: nat, gpuBuf2: nat, off2: nat, n: nat, fOff: nat)
    returns (ok: bool)
    requires dev.Valid() && GoodRegions(dev.Regions(), |ring.kernel.mem|)
    requires ring.Quiet() && 0 < n && off1 + n < 0x8000_0000_0000_0000 && off2 + n < 0x8000_0000_0000_0000
    requires Takes(dev.Regions(), gpuBuf1, off1, n, FirstLookup(Write, n))
    requires Takes(dev.Regions(), gpuBuf2, off2, n, FirstLookup(Read, n))
    modifies ring
    ensures ok <==> ring.errors == old(ring.errors)
    ensures ok ==>
      var w1, w2 := WindowOf(dev.Regions(), gpuBuf1, off1, fOff, n), WindowOf(dev.Regions(), gpuBuf2, off2, fOff, n);
      && Fits(w1, |old(ring.kernel).mem|) && Fits(w2, |ring.kernel.mem|)
      && Gather(w2, ring.kernel.mem) == Gather(w1, old(ring.kernel).mem)
  {
    hide Framed, Finished, ValidRegion, Below, Linked, RegionsOf, Residue, Home, Reported, Gather, Reaches, CallWindow;
    var wrote, _ := FgdsTransfer(Write, dev, ring, gpuBuf1, off1, n, fOff, true);
    if wrote == -1 {
      return false;
    }
    ghost var k0, k1 := old(ring.kernel), ring.kernel;
    ghost var w1, w2 := WindowOf(dev.Regions(), gpuBuf1, off1, fOff, n),
      WindowOf(dev.Regions(), gpuBuf2, off2, fOff, n);
    FinishedKeepsSize(Write, w1, k0, k1);
    var read, _ := FgdsTransfer(Read, dev, ring, gpuBuf2, off2, n, fOff, true);
    if read == -1 {
      return false;
    }
    FinishedKeepsSize(Read, w2, k1, ring.kernel);
    RoundTrip(w1, w2, k0, k1, ring.kernel);
    ok := true;
  }

  lemma FinishedKeepsSize(op: Op, w: Window, k0: State, k: State)
    requires Fits(w, |k0.mem|) && Finished(op, w, k0, k)
    ensures |k.mem| == |k0.mem|
  {
  }

  lemma RoundTrip(w1: Window, w2: Window, k0: State, k1: State, k2: State)
    requires Fits(w1, |k0.mem|) && Fits(w2, |k1.mem|) && |k1.mem| == |k2.mem| && w1.fOff == w2.fOff && w1.n == w2.n
    requires Finished(Write, w1, k0, k1) && Finished(Read, w2, k1, k2)
    ensures Gather(w2, k2.mem) == Gather(w1, k0.mem)
  {
    hide ValidRegion, Below, Shaped, HostOf, SameOutside;
    var data := Gather(w1, k0.mem);
    forall i | 0 <= i < w2.n ensures Gather(w2, k2.mem)[i] == data[i] {
      assert Landed(w2, k1.file, k1.mem, k2.mem, i);
      assert k1.file[w1.fOff + i] == data[i];
    }
  }

  /** fgds_async followed by its callback: the window starts at offset 0. */
  method FgdsAsync(op: Op, dev: Device, ring: Uring, gpuBuf: nat, n: nat, fOff: nat, oom: bool)
    returns (launched: bool, bytesDone: int, ghost failures: nat)
    requires dev.Valid() && GoodRegions(dev.Regions(), |ring.kernel.mem|)
    requires ring.Quiet() && n < 0x8000_0000_0000_0000
    modifies ring`kernel, ring`errors
    ensures ring.Quiet()
    ensures launched <==> !oom && 0 < n && Takes(dev.Regions(), gpuBuf, 0, n, n)
    ensures ring.errors == old(ring.errors) + failures
    ensures !launched ==> ring.kernel == old(ring.kernel)
    ensures launched ==>
      var w := WindowOf(dev.Regions(), gpuBuf, 0, fOff, n);
      && Fits(w, |old(ring.kernel).mem|)
      && Framed(op, w, old(ring.kernel), ring.kernel, n)
      && (bytesDone == Reported(op, old(ring.kernel).file, fOff, n) <==> failures == 0)
      && (failures == 0 ==> Finished(op, w, old(ring.kernel), ring.kernel))
  {
    hide Framed, Inv, ValidRegion, Below, Linked, RegionsOf, Find, Table, RestTiles, Finished, InOneSegment, Reported,
      GpuDisjoint;
    ghost var rs := dev.Regions();
    var t := DoXferAddr(dev, gpuBuf, 0, n, oom);
    if 0 < n {
      LookupIsHome(rs, gpuBuf, 0, n);
    }
    if t.None? {
      return false, 0, 0;
    }
    WindowFits(rs, |ring.kernel.mem|, gpuBuf, 0, fOff, n, n);
    ghost var w := WindowOf(rs, gpuBuf, 0, fOff, n);
    TableRest(op, w);
    launched := true;
    bytesDone, failures := Callback(op, ring, t.value, fOff, w);
    if failures == 0 {
      InvFinishes(op, w, old(ring.kernel), ring.kernel, bytesDone);
    }
  }

  // ----- What this means for the GPU buffers -----

  /** The contents of a registered GPU buffer, as its host mapping shows it. */
  ghost function View(r: Region, mem: seq<Byte>): (v: seq<Byte>)
    requires ValidRegion(r) && Below(r, |mem|)
    ensures |v| == r.length
    ensures forall o :: 0 <= o < r.length ==> Host(r, o) < |mem| && v[o] == mem[Host(r, o)]
  {
    ViewDefined(r, |mem|);
    seq(r.length, o requires 0 <= o < r.length => (ViewDefined(r, |mem|); mem[Host(r, o)]))
  }

  lemma ViewDefined(r: Region, size: nat)
    requires ValidRegion(r) && Below(r, size)
    ensures forall o :: 0 <= o < r.length ==> Host(r, o) < size
  {
    hide SegLength, RangesDisjoint;
    forall o | 0 <= o < r.length ensures Host(r, o) < size {
      HostInSegment(r, o);
    }
  }

  /** A finished read is one splice of the file's bytes into the buffer... */
  lemma ReadIsOneSplice(w: Window, file: seq<Byte>, mem0: seq<Byte>, mem: seq<Byte>)
    requires Fits(w, |mem0|) && ReadAll(w, file, mem0, mem)
    ensures View(w.r, mem) == Splice(View(w.r, mem0), w.bufOff, Pread(file, w.fOff, w.n))
  {
    hide Below, SegCount, SegLength, Host, RangesDisjoint, InWindow, View;
    var spliced := Splice(View(w.r, mem0), w.bufOff, Pread(file, w.fOff, w.n));
    forall o | 0 <= o < w.r.length ensures View(w.r, mem)[o] == spliced[o] {
      if w.bufOff <= o < w.bufOff + w.n {
        var i := o - w.bufOff;
        assert w.bufOff + i == o;
        assert Landed(w, file, mem0, mem, i);
      } else {
        OutsideWindow(w, |mem0|, o);
      }
    }
  }

  lemma OutsideWindow(w: Window, size: nat, o: nat)
    requires Fits(w, size) && o < w.r.length && !(w.bufOff <= o < w.bufOff + w.n)
    ensures !InWindow(w, Host(w.r, o))
  {
    hide Below, SegCount, SegLength, Host, RangesDisjoint;
    if InWindow(w, Host(w.r, o)) {
      var i :| 0 <= i < w.n && HostOf(w, i) == Host(w.r, o);
      HostInjective(w.r, w.bufOff + i, o);
    }
  }

  ghost predicate HostDisjoint(r: Region, q: Region) {
    forall i, j :: 0 <= i < |r.vaddrs| && 0 <= j < |q.vaddrs| ==>
      RangesDisjoint(r.vaddrs[i], SegLength(r.length, i), q.vaddrs[j], SegLength(q.length, j))
  }

  /** ...and no other registered buffer changes, even when pieces fail. */
  lemma OtherBuffersUnchanged(w: Window, mem0: seq<Byte>, mem: seq<Byte>, q: Region)
    requires Fits(w, |mem0|) && |mem| == |mem0| && SameOutside(w, mem0, mem)
    requires ValidRegion(q) && Below(q, |mem0|) && HostDisjoint(w.r, q)
    ensures View(q, mem) == View(q, mem0)
  {
    hide Below, SegCount, SegLength, Host, RangesDisjoint, View;
    forall o | 0 <= o < q.length ensures View(q, mem)[o] == View(q, mem0)[o] {
      assert !InWindow(w, Host(q, o)) by {
        if InWindow(w, Host(q, o)) {
          var i :| 0 <= i < w.n && HostOf(w, i) == Host(q, o);
          HostsApart(w.r, q, w.bufOff + i, o);
        }
      }
    }
  }

  lemma HostsApart(r: Region, q: Region, o: nat, p: nat)
    requires ValidRegion(r) && ValidRegion(q) && HostDisjoint(r, q) && o < r.length && p < q.length
    ensures Host(r, o) != Host(q, p)
  {
    HostInSegment(r, o);
    HostInSegment(q, p);
    assert RangesDisjoint(r.vaddrs[o / SEGMENT], SegLength(r.length, o / SEGMENT),
                          q.vaddrs[p / SEGMENT], SegLength(q.length, p / SEGMENT));
  }

  /** The registry's law gives the transfer engine all it relies on: with every live
      mapping below `size`, the registrations are good, and the memory of one never
      overlaps that of another. */
  lemma LawfulIsGood(rs: seq<Region>, live: map<nat, nat>, leaked: set<nat>, size: nat)
    requires Lawful(rs, live, leaked) && Addressable(rs) && forall a :: a in live ==> a + live[a] <= size
    ensures GoodRegions(rs, size)
    ensures forall j, k :: 0 <= j < |rs| && 0 <= k < |rs| && j != k ==> HostDisjoint(rs[j], rs[k])
  {
    hide SegLength, SegCount, RangesDisjoint, Owned;
    forall j, k | 0 <= j < |rs| && 0 <= k < |rs| && j != k ensures HostDisjoint(rs[j], rs[k]) {
      SegmentsOnce(rs, j, live, leaked);
      forall i, m | 0 <= i < |rs[j].vaddrs| && 0 <= m < |rs[k].vaddrs|
        ensures RangesDisjoint(rs[j].vaddrs[i], SegLength(rs[j].length, i), rs[k].vaddrs[m], SegLength(rs[k].length, m))
      {
        OthersElsewhere(rs, j, k, m);
        var a, b := rs[j].vaddrs[i], rs[k].vaddrs[m];
        assert a in live && b in live && a != b;
      }
    }
  }

  /** Segment `m` of another registration still counts once `j` is taken out. */
  lemma OthersElsewhere(rs: seq<Region>, j: nat, k: nat, m: nat)
    requires j < |rs| && k < |rs| && j != k && m < |rs[k].vaddrs|
    ensures Owned(Without(rs, j))[rs[k].vaddrs[m]] > 0
  {
    var others := Without(rs, j);
    var i := if k < j then k else k - 1;
    assert others[i] == rs[k];
    OwnedHas(others, i, rs[k].vaddrs[m]);
  }
}
