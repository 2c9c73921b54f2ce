/** Which GPU addresses a transfer touches. The library counts the buffer offset
    from the start of the registration, not from the address it is given. */
module GpuAddress {
  import opened Api
  import opened Kernel
  import opened Layout
  import opened Options
  import opened Pipeline
  import opened Registry
  import opened Sizes
  import opened Transfer
  import opened XferTable

  predicate Inside(r: Region, g: nat) {
    r.gpuAddr <= g < r.gpuAddr + r.length
  }

  /** The byte at GPU address `g`, seen through the mapping of the registration. */
  ghost function GpuByte(r: Region, mem: seq<Byte>, g: nat): Byte
    requires ValidRegion(r) && Below(r, |mem|) && Inside(r, g)
  {
    View(r, mem)[g - r.gpuAddr]
  }

  /** The buffer changed from `start` on, where `data` is now, and nowhere else. */
  ghost predicate LandsAt(r: Region, start: nat, data: seq<Byte>, mem0: seq<Byte>, mem: seq<Byte>)
    requires ValidRegion(r) && Below(r, |mem0|) && |mem| == |mem0|
  {
    forall g: nat :: Inside(r, g) ==>
      GpuByte(r, mem, g) == if start <= g < start + |data| then data[g - start] else GpuByte(r, mem0, g)
  }

  /** `data` is what the buffer holds from `start` on. */
  ghost predicate TakenAt(r: Region, start: nat, data: seq<Byte>, mem: seq<Byte>)
    requires ValidRegion(r) && Below(r, |mem|)
  {
    forall i: nat :: i < |data| ==> TakenByte(r, start, data, mem, i)
  }

  ghost predicate TakenByte(r: Region, start: nat, data: seq<Byte>, mem: seq<Byte>, i: nat)
    requires ValidRegion(r) && Below(r, |mem|) && i < |data|
  {
    Inside(r, start + i) && data[i] == GpuByte(r, mem, start + i)
  }

  /** A read lands at the start of the registration plus the offset. */
  lemma ReadLandsAt(w: Window, file: seq<Byte>, mem0: seq<Byte>, mem: seq<Byte>)
    requires Fits(w, |mem0|) && ReadAll(w, file, mem0, mem)
    ensures LandsAt(w.r, w.r.gpuAddr + w.bufOff, Pread(file, w.fOff, w.n), mem0, mem)
  {
    hide View, ValidRegion, Below;
    ReadIsOneSplice(w, file, mem0, mem);
  }

  /** A write takes its bytes from there. */
  lemma WriteTakesFrom(w: Window, mem: seq<Byte>)
    requires Fits(w, |mem|)
    ensures TakenAt(w.r, w.r.gpuAddr + w.bufOff, Gather(w, mem), mem)
  {
    hide ValidRegion, Below, Host, View;
    var start, data := w.r.gpuAddr + w.bufOff, Gather(w, mem);
    forall i: nat | i < |data| ensures TakenByte(w.r, start, data, mem, i) {
      assert start + i - w.r.gpuAddr == w.bufOff + i;
      assert HostOf(w, i) == Host(w.r, w.bufOff + i);
    }
  }

  /** Ones in the window, zeros elsewhere: a read of ones into zeros. */
  lemma OnesLand(w: Window, size: nat) returns (file: seq<Byte>, mem0: seq<Byte>, mem: seq<Byte>)
    requires Fits(w, size)
    ensures |mem0| == |mem| == size && |file| == w.fOff + w.n && ReadAll(w, file, mem0, mem)
    ensures forall i :: 0 <= i < |file| ==> file[i] == 1
    ensures forall i :: 0 <= i < size ==> mem0[i] == 0
    ensures forall i :: 0 <= i < size ==> mem[i] == if InWindow(w, i) then 1 else 0
  {
    hide ValidRegion, Below, HostOf;
    file := seq(w.fOff + w.n, i => 1);
    mem0 := seq(size, i => 0);
    mem := OnesIn(w, size, size);
    forall i | 0 <= i < w.n ensures Landed(w, file, mem0, mem, i) {
      HostOfBelow(w, size, i);
      assert InWindow(w, HostOf(w, i));
    }
  }

  lemma {:induction false} OnesIn(w: Window, size: nat, k: nat) returns (mem: seq<Byte>)
    requires Fits(w, size)
    ensures |mem| == k && forall i :: 0 <= i < k ==> mem[i] == if InWindow(w, i) then 1 else 0
  {
    hide ValidRegion, Below, InWindow;
    mem := [];
    if k != 0 {
      mem := OnesIn(w, size, k - 1);
      mem := mem + [if InWindow(w, k - 1) then 1 else 0];
    }
  }

  /** Every read of the window lands at `start`. */
  ghost predicate ReadsLandAt(w: Window, size: nat, start: nat)
    requires Fits(w, size)
  {
    forall file, mem0, mem :: |mem0| == size && ReadAll(w, file, mem0, mem) ==>
      LandsAt(w.r, start, Pread(file, w.fOff, w.n), mem0, mem)
  }

  lemma LandsOnlyAt(w: Window, size: nat, start: nat)
    requires Fits(w, size) && 0 < w.n && w.r.gpuAddr + w.bufOff < start
    ensures !ReadsLandAt(w, size, start)
  {
    var file, mem0, mem := OnesLand(w, size);
    ReadLandsAt(w, file, mem0, mem);
    hide ValidRegion, Below, ReadAll, View, InWindow, Host;
    var g := w.r.gpuAddr + w.bufOff;
    assert Inside(w.r, g) && GpuByte(w.r, mem, g) == 1;
    assert GpuByte(w.r, mem0, g) == 0;
    assert !LandsAt(w.r, start, Pread(file, w.fOff, w.n), mem0, mem);
  }

  lemma LandsAtStart(w: Window, size: nat)
    requires Fits(w, size)
    ensures ReadsLandAt(w, size, w.r.gpuAddr + w.bufOff)
  {
    hide ValidRegion, Below, LandsAt, SameOutside, Landed;
    forall file, mem0, mem | |mem0| == size && ReadAll(w, file, mem0, mem)
      ensures LandsAt(w.r, w.r.gpuAddr + w.bufOff, Pread(file, w.fOff, w.n), mem0, mem)
    {
      ReadLandsAt(w, file, mem0, mem);
    }
  }

  lemma HomeBefore(rs: seq<Region>, gpuBuf: nat)
    requires Home(rs, gpuBuf).Some?
    ensures Home(rs, gpuBuf).value.gpuAddr <= gpuBuf
  {
  }

  /** Reads land where the caller pointed, whatever the file and memory hold,
      exactly if it pointed at the start of the registration. */
  lemma ReadStartExact(rs: seq<Region>, size: nat, gpuBuf: nat, bufOff: nat, fOff: nat, n: nat, lookup: nat)
    requires GoodRegions(rs, size) && Takes(rs, gpuBuf, bufOff, n, lookup) && 0 < n
    ensures var w := WindowOf(rs, gpuBuf, bufOff, fOff, n);
      Fits(w, size) && (ReadsLandAt(w, size, gpuBuf + bufOff) <==> gpuBuf == w.r.gpuAddr)
  {
    hide GoodRegions, Home, Fits, ReadsLandAt;
    WindowFits(rs, size, gpuBuf, bufOff, fOff, n, lookup);
    HomeBefore(rs, gpuBuf);
    var w := WindowOf(rs, gpuBuf, bufOff, fOff, n);
    LandsAtStart(w, size);
    if gpuBuf != w.r.gpuAddr {
      LandsOnlyAt(w, size, gpuBuf + bufOff);
    }
  }

  /** Every write of the window takes its bytes from `start`. */
  ghost predicate WritesTakeFrom(w: Window, size: nat, start: nat)
    requires Fits(w, size)
  {
    forall mem: seq<Byte> :: |mem| == size ==> TakenAt(w.r, start, Gather(w, mem), mem)
  }

  lemma TakenFromStart(w: Window, size: nat)
    requires Fits(w, size)
    ensures WritesTakeFrom(w, size, w.r.gpuAddr + w.bufOff)
  {
    hide ValidRegion, Below, TakenAt, Gather;
    forall mem: seq<Byte> | |mem| == size
      ensures TakenAt(w.r, w.r.gpuAddr + w.bufOff, Gather(w, mem), mem)
    {
      WriteTakesFrom(w, mem);
    }
  }

  lemma TakenOnlyFrom(w: Window, size: nat, start: nat)
    requires Fits(w, size) && 0 < w.n && w.r.gpuAddr + w.bufOff < start
    ensures !WritesTakeFrom(w, size, start)
  {
    hide ValidRegion, Below, TakenAt, Gather, ReadAll, InWindow;
    var file, mem0, mem := OnesLand(w, size);
    PastWindow(w, start - w.bufOff - w.r.gpuAddr, mem);
  }

  /** Likewise writes take what the caller pointed at. */
  lemma WriteStartExact(rs: seq<Region>, size: nat, gpuBuf: nat, bufOff: nat, fOff: nat, n: nat, lookup: nat)
    requires GoodRegions(rs, size) && Takes(rs, gpuBuf, bufOff, n, lookup) && 0 < n
    ensures var w := WindowOf(rs, gpuBuf, bufOff, fOff, n);
      Fits(w, size) && (WritesTakeFrom(w, size, gpuBuf + bufOff) <==> gpuBuf == w.r.gpuAddr)
  {
    hide GoodRegions, Home, Fits, WritesTakeFrom;
    WindowFits(rs, size, gpuBuf, bufOff, fOff, n, lookup);
    HomeBefore(rs, gpuBuf);
    var w := WindowOf(rs, gpuBuf, bufOff, fOff, n);
    TakenFromStart(w, size);
    if gpuBuf != w.r.gpuAddr {
      TakenOnlyFrom(w, size, gpuBuf + bufOff);
    }
  }

  /** With ones exactly in the window, no other place of the buffer holds the same
      bytes. */
  lemma PastWindow(w: Window, d: nat, mem: seq<Byte>)
    requires Fits(w, |mem|) && 0 < d && 0 < w.n
    requires forall i :: 0 <= i < |mem| ==> mem[i] == if InWindow(w, i) then 1 else 0
    ensures !TakenAt(w.r, w.r.gpuAddr + d + w.bufOff, Gather(w, mem), mem)
  {
    hide View, InWindow, ValidRegion, Below, Host;
    var start, data, last := w.r.gpuAddr + d + w.bufOff, Gather(w, mem), w.n - 1;
    HostOfBelow(w, |mem|, last);
    assert InWindow(w, HostOf(w, last)) by { InItself(w, last); }
    assert data[last] == 1;
    if Inside(w.r, start + last) {
      OutsideWindow(w, |mem|, d + w.bufOff + last);
      assert start + last - w.r.gpuAddr == d + w.bufOff + last;
      assert GpuByte(w.r, mem, start + last) == 0;
    }
    assert !TakenByte(w.r, start, data, mem, last);
  }

  lemma InItself(w: Window, i: nat)
    requires Shaped(w) && i < w.n
    ensures InWindow(w, HostOf(w, i))
  {
  }

  /** An address inside a registration is accepted all the same. */
  lemma InteriorAccepted(gpuAddr: nat) returns (rs: seq<Region>, size: nat)
    requires gpuAddr <= 0x1000_0000_0000_0000
    ensures GoodRegions(rs, size) && Takes(rs, gpuAddr + 1, 0, 1, 1)
    ensures WindowOf(rs, gpuAddr + 1, 0, 0, 1).r.gpuAddr == gpuAddr
  {
    rs, size := [Region(gpuAddr, GPU_PAGE, [0])], GPU_PAGE;
  }
}
