/** The io_uring path of fgds_read and fgds_write. The two functions are the
    same loop over different request kinds, so one method models both. */
module Pipeline {
  import opened Options
  import opened Layout
  import opened Registry
  import opened Sizes
  import opened XferTable
  import opened Kernel
  import opened Transfer
  import opened Batch
  import opened Tiling
  import opened Packing

  /** The regions a transfer may be asked about. */
  ghost predicate GoodRegions(rs: seq<Region>, size: nat) {
    && AllValid(rs) && Addressable(rs) && GpuDisjoint(rs)
    && forall k :: 0 <= k < |rs| ==> Below(rs[k], size)
  }

  /** The registration that contains address `gpuBuf`. */
  ghost function Home(rs: seq<Region>, gpuBuf: nat): Option<Region> {
    match Find(rs, gpuBuf, 1)
    case None => None
    case Some(k) => Some(rs[k])
  }

  /** Looking up a longer range finds the same registration, or none. */
  lemma LookupIsHome(rs: seq<Region>, gpuBuf: nat, bufOff: nat, size: nat)
    requires GpuDisjoint(rs) && 0 < size
    ensures Accepted(rs, gpuBuf, bufOff, size) <==>
              && Home(rs, gpuBuf).Some?
              && gpuBuf + size <= Home(rs, gpuBuf).value.gpuAddr + Home(rs, gpuBuf).value.length
              && bufOff + size <= Home(rs, gpuBuf).value.length
    ensures Accepted(rs, gpuBuf, bufOff, size) ==> Chosen(rs, gpuBuf, size) == Home(rs, gpuBuf).value
  {
    hide Find;
    var k, h := Find(rs, gpuBuf, size), Find(rs, gpuBuf, 1);
    if k.Some? {
      FindIsUnique(rs, gpuBuf, 1, k.value);
    } else if h.Some? {
      assert !Covers(rs[h.value], gpuBuf, size);
    }
  }

  /** Prepare one request per entry of a sub-I/O's table. */
  method PrepareTable(op: Op, ring: Uring, t: seq<Xfer>, fOff: nat)
    requires |ring.sq| + |t| <= QUEUE_DEPTH
    modifies ring`sq
    ensures ring.sq == old(ring.sq) + Requests(op, t, fOff)
  {
    hide Requests;
    var subFOff: nat := fOff;
    assert t[0..] == t;
    for j := 0 to |t|
      invariant |ring.sq| == |old(ring.sq)| + j
      invariant ring.sq + Requests(op, t[j..], subFOff) == old(ring.sq) + Requests(op, t, fOff)
    {
      var e := match op
        case Read => ReadSqe(t[j].target, t[j].nbyte, subFOff)
        case Write => WriteSqe(t[j].target, t[j].nbyte, subFOff);
      NextRequest(op, t, j, subFOff, e);
      Shift(ring.sq, e, Requests(op, t[j + 1..], subFOff + t[j].nbyte));
      var ok := ring.Prepare(e);
      if !ok {
        assert false;
      }
      subFOff := subFOff + t[j].nbyte;
    }
    assert t[|t|..] == [];
    assert ring.sq + [] == ring.sq;
  }

  lemma NextRequest(op: Op, t: seq<Xfer>, j: nat, off: nat, e: Sqe)
    requires j < |t| && e == match op
      case Read => ReadSqe(t[j].target, t[j].nbyte, off)
      case Write => WriteSqe(t[j].target, t[j].nbyte, off)
    ensures Requests(op, t[j..], off) == [e] + Requests(op, t[j + 1..], off + t[j].nbyte)
  {
    assert t[j..][0] == t[j] && t[j..][1..] == t[j + 1..];
  }

  lemma Shift(a: seq<Sqe>, e: Sqe, b: seq<Sqe>)
    ensures a + ([e] + b) == (a + [e]) + b
  {
  }

  /** The first sub-I/O of the call has a registration to go to, and the window
      starts inside it. Otherwise the call is refused before anything happens. */
  ghost predicate Reaches(rs: seq<Region>, gpuBuf: nat, bufOff: nat, n: nat) {
    var h := Home(rs, gpuBuf);
    h.Some? && gpuBuf + SubSize(n) <= h.value.gpuAddr + h.value.length && bufOff <= h.value.length
  }

  /** The call's window, clipped to the registration it was made on. */
  ghost function CallWindow(rs: seq<Region>, gpuBuf: nat, bufOff: nat, fOff: nat, n: nat): (w: Window)
    requires Reaches(rs, gpuBuf, bufOff, n)
    ensures w.bufOff + w.n <= w.r.length
  {
    var r := Home(rs, gpuBuf).value;
    Window(r, bufOff, fOff, if bufOff + n <= r.length then n else r.length - bufOff)
  }

  lemma CallWindowFits(rs: seq<Region>, size: nat, gpuBuf: nat, bufOff: nat, fOff: nat, n: nat)
    requires GoodRegions(rs, size) && Reaches(rs, gpuBuf, bufOff, n)
    ensures Fits(CallWindow(rs, gpuBuf, bufOff, fOff, n), size)
    ensures ValidRegion(CallWindow(rs, gpuBuf, bufOff, fOff, n).r)
  {
    hide SegLength, RangesDisjoint;
  }

  /** What the lookup of the sub-I/O at `pos` answers. */
  lemma SubTranslation(rs: seq<Region>, gpuBuf: nat, bufOff: nat, n: nat, pos: nat, size: nat)
    requires GpuDisjoint(rs) && pos < n && size == SubSize(n - pos)
    ensures !Reaches(rs, gpuBuf, bufOff, n) && pos == 0 ==> !Accepted(rs, gpuBuf, bufOff, size)
    ensures Reaches(rs, gpuBuf, bufOff, n) ==>
              (Accepted(rs, gpuBuf, bufOff + pos, size) <==> bufOff + pos + size <= Home(rs, gpuBuf).value.length)
    ensures Accepted(rs, gpuBuf, bufOff + pos, size) ==> Chosen(rs, gpuBuf, size) == Home(rs, gpuBuf).value
  {
    LookupIsHome(rs, gpuBuf, bufOff + pos, size);
    LookupIsHome(rs, gpuBuf, bufOff, size);
  }

  /** Translate the sub-I/O at `pos`: refused when it runs past the end of the
      registration, otherwise its table there. */
  method TranslateSub(dev: Device, gpuBuf: nat, bufOff: nat, n: nat, pos: nat, size: nat) returns (t: Option<seq<Xfer>>)
    requires dev.Valid() && AllValid(dev.Regions()) && Addressable(dev.Regions()) && GpuDisjoint(dev.Regions())
    requires pos < n && size == SubSize(n - pos) && bufOff + n < 0x8000_0000_0000_0000
    ensures !Reaches(dev.Regions(), gpuBuf, bufOff, n) && pos == 0 ==> t.None?
    ensures Reaches(dev.Regions(), gpuBuf, bufOff, n) ==>
      var r := Home(dev.Regions(), gpuBuf).value;
      && ValidRegion(r)
      && (t.Some? <==> bufOff + pos + size <= r.length)
      && (t.Some? ==> t.value == Table(r, bufOff + pos, size) && |t.value| == Touched(bufOff + pos, size))
  {
    hide Linked, RegionsOf, GpuDisjoint, Accepted, Chosen, Table, Touched, ValidRegion, InOneSegment, Find;
    SubTranslation(dev.Regions(), gpuBuf, bufOff, n, pos, size);
    t := DoXferAddr(dev, gpuBuf, bufOff + pos, size, false);
    if t.Some? && Reaches(dev.Regions(), gpuBuf, bufOff, n) {
      TableCount(Home(dev.Regions(), gpuBuf).value, bufOff + pos, size);
    }
  }

  /** Prepare a translated sub-I/O: the queue then tiles `size` bytes more. */
  method PrepareSub(op: Op, ring: Uring, t: seq<Xfer>, fOff: nat, ghost w: Window, ghost done: nat, ghost pos: nat,
          ghost size: nat)
    requires Fits(w, |ring.kernel.mem|) && pos + size <= w.n && fOff == w.fOff + pos
    requires t == Table(w.r, w.bufOff + pos, size) && |ring.sq| + |t| <= QUEUE_DEPTH
    requires Tiles(w, ring.sq, done, pos) && forall e :: e in ring.sq ==> Kind(op, e)
    modifies ring`sq
    ensures |ring.sq| == |old(ring.sq)| + |t|
    ensures Tiles(w, ring.sq, done, pos + size) && forall e :: e in ring.sq ==> Kind(op, e)
  {
    hide Table, Tiles, ForWindow, Below;
    TableTiles(op, w, pos, size);
    TilesAppend(w, ring.sq, Requests(op, t, fOff), done, pos, pos + size);
    PrepareTable(op, ring, t, fOff);
  }

  /** Phase 1: fill the submission queue. It stops early when a sub-I/O cannot be
      translated, with the entries prepared so far still in the queue. */
  method FillBatch(op: Op, dev: Device, ring: Uring, gpuBuf: nat, bufOff: nat, fOff: nat, n: nat, done: nat,
          ghost w: Window)
    returns (sqeCount: nat, batchBytes: nat, err: bool)
    requires dev.Valid() && GoodRegions(dev.Regions(), |ring.kernel.mem|)
    requires done < n && bufOff + n < 0x8000_0000_0000_0000 && ring.sq == []
    requires !Reaches(dev.Regions(), gpuBuf, bufOff, n) ==> done == 0
    requires Reaches(dev.Regions(), gpuBuf, bufOff, n) ==>
               w == CallWindow(dev.Regions(), gpuBuf, bufOff, fOff, n) && Fits(w, |ring.kernel.mem|) && done <= w.n
    modifies ring`sq
    ensures !Reaches(dev.Regions(), gpuBuf, bufOff, n) ==> err && ring.sq == []
    ensures Reaches(dev.Regions(), gpuBuf, bufOff, n) ==>
              && |ring.sq| == sqeCount <= QUEUE_DEPTH && done + batchBytes <= w.n
              && Tiles(w, ring.sq, done, done + batchBytes) && (forall e :: e in ring.sq ==> Kind(op, e))
              && (err <==> Stuck(bufOff + done, n - done, 0, w.r.length).Some?)
              && (err ==> sqeCount == Stuck(bufOff + done, n - done, 0, w.r.length).value)
              && (!err ==> batchBytes == PackBytes(bufOff + done, n - done, 0))
  {
    hide PackBytes, Stuck, Peak, Tiles, Linked, RegionsOf, ValidRegion, Below, Shaped, Home, Find, InOneSegment, Kind,
      Touched, Table, Accepted, Chosen, GpuDisjoint, AllValid, Addressable, Reaches, CallWindow;
    sqeCount, batchBytes, err := 0, 0, false;
    ghost var rs := dev.Regions();
    ghost var reaches := Reaches(rs, gpuBuf, bufOff, n);
    if reaches {
      EmptyTiles(w, done);
      HomeRegion(rs, |ring.kernel.mem|, gpuBuf, bufOff, fOff, n);
    }
    while sqeCount < QUEUE_DEPTH && done + batchBytes < n
      invariant |ring.sq| == sqeCount <= QUEUE_DEPTH && done + batchBytes <= n
      invariant !reaches ==> sqeCount == batchBytes == 0
      invariant reaches ==> done + batchBytes <= w.n
      invariant reaches ==> Tiles(w, ring.sq, done, done + batchBytes) && forall e :: e in ring.sq ==> Kind(op, e)
      invariant reaches ==>
        Stuck(bufOff + done, n - done, 0, w.r.length) ==
        Stuck(bufOff + (done + batchBytes), n - (done + batchBytes), sqeCount, w.r.length)
      invariant PackBytes(bufOff + done, n - done, 0) ==
                batchBytes + PackBytes(bufOff + (done + batchBytes), n - (done + batchBytes), sqeCount)
      decreases n - (done + batchBytes)
    {
      var subSize := SUB_IO;
      if done + batchBytes + subSize > n {
        subSize := n - done - batchBytes;
      }
      var pos := done + batchBytes;
      PackTurn(bufOff + pos, n - pos, sqeCount, w.r.length);
      var xfer := TranslateSub(dev, gpuBuf, bufOff, n, pos, subSize);
      if xfer.None? {
        return sqeCount, batchBytes, true;
      }
      if sqeCount + |xfer.value| > QUEUE_DEPTH {
        return;
      }
      PrepareSub(op, ring, xfer.value, fOff + pos, w, done, pos, subSize);
      sqeCount := sqeCount + |xfer.value|;
      batchBytes := batchBytes + subSize;
    }
    PackTurn(bufOff + (done + batchBytes), n - (done + batchBytes), sqeCount, w.r.length);
  }

  lemma HomeRegion(rs: seq<Region>, size: nat, gpuBuf: nat, bufOff: nat, fOff: nat, n: nat)
    requires GoodRegions(rs, size) && Reaches(rs, gpuBuf, bufOff, n)
    ensures var w := CallWindow(rs, gpuBuf, bufOff, fOff, n);
            && w.r == Home(rs, gpuBuf).value && ValidRegion(w.r) && w.bufOff == bufOff && w.fOff == fOff
            && w.n == if bufOff + n <= w.r.length then n else w.r.length - bufOff
  {
    CallWindowFits(rs, size, gpuBuf, bufOff, fOff, n);
  }

  lemma EmptyTiles(w: Window, lo: nat)
    requires Shaped(w)
    ensures Tiles(w, [], lo, lo)
  {
  }

  lemma TableCount(r: Region, off: nat, n: nat)
    requires ValidRegion(r) && off + n <= r.length && 0 < n
    ensures |Table(r, off, n)| == Touched(off, n)
  {
    TableShape(r, off, n);
  }

  /** Phase 3: reap one completion per submitted request. After a failed one, the
      rest of the batch is drained so that the ring is left empty. */
  method ReapBatch(op: Op, ring: Uring, submitted: nat, total0: int, ghost w: Window, ghost k0: State, ghost upto: nat)
    returns (err: bool, total: int)
    requires Fits(w, |k0.mem|) && Inv(op, w, k0, ring.kernel, upto, total0)
    requires ring.sq == [] && |ring.kernel.inflight| == submitted && ring.kernel.cq == []
    modifies ring`kernel, ring`errors
    ensures ring.Quiet() && Framed(op, w, k0, ring.kernel, upto)
    ensures !err ==> Inv(op, w, k0, ring.kernel, upto, total)
    ensures old(ring.errors) <= ring.errors && (err <==> old(ring.errors) < ring.errors)
  {
    hide Framed, Sound, Fits, Progress, Negatives;
    NoNegatives();
    err, total := false, total0;
    var reaped := 0;
    InvUnfolds(op, w, k0, ring.kernel, upto, total);
    for k := 0 to submitted
      invariant reaped == k && |ring.kernel.inflight| + |ring.kernel.cq| == submitted - reaped
      invariant Wf(ring.kernel) && Inv(op, w, k0, ring.kernel, upto, total)
      invariant ring.errors == old(ring.errors) + Negatives(ring.kernel.cq)
    {
      hide Inv;
      ghost var before := ring.kernel;
      var res, steps := ring.WaitCqe();
      InvProgresses(op, w, k0, before, ring.kernel, upto, total, steps);
      InvUnfolds(op, w, k0, ring.kernel, upto, total);
      reaped := reaped + 1;
      NegativesHead(ring.kernel.cq);
      if res < 0 {
        ReapKeepsFrame(op, w, k0, ring.kernel, upto);
        ring.Seen();
        err := true;
        break;
      }
      InvReaps(op, w, k0, ring.kernel, upto, total);
      total := total + res;
      ring.Seen();
      InvUnfolds(op, w, k0, ring.kernel, upto, total);
    }
    if err {
      DrainBatch(op, ring, submitted, reaped, w, k0, upto);
    }
  }

  lemma NoNegatives()
    ensures Negatives([]) == 0
  {
  }

  lemma InvUnfolds(op: Op, w: Window, k0: State, k: State, upto: nat, total: int)
    requires Fits(w, |k0.mem|) && Inv(op, w, k0, k, upto, total)
    ensures Wf(k) && Framed(op, w, k0, k, upto)
  {
  }

  lemma ReapKeepsFrame(op: Op, w: Window, k0: State, k: State, upto: nat)
    requires Fits(w, |k0.mem|) && Framed(op, w, k0, k, upto) && k.cq != []
    ensures Framed(op, w, k0, k.(cq := k.cq[1..]), upto) && Wf(k.(cq := k.cq[1..]))
  {
  }

  /** The error path: peek and reap what is there, then wait for the rest. */
  method DrainBatch(op: Op, ring: Uring, submitted: nat, reaped0: nat, ghost w: Window, ghost k0: State,
          ghost upto: nat)
    requires Fits(w, |k0.mem|) && Framed(op, w, k0, ring.kernel, upto) && Wf(ring.kernel)
    requires ring.sq == [] && |ring.kernel.inflight| + |ring.kernel.cq| == submitted - reaped0
    modifies ring`kernel, ring`errors
    ensures ring.Quiet() && Framed(op, w, k0, ring.kernel, upto) && old(ring.errors) <= ring.errors
  {
    hide Framed, Fits, Progress, Negatives;
    var reaped := reaped0;
    while true
      invariant |ring.kernel.inflight| + |ring.kernel.cq| == submitted - reaped
      invariant Framed(op, w, k0, ring.kernel, upto) && Wf(ring.kernel) && old(ring.errors) <= ring.errors
      decreases submitted - reaped
    {
      ghost var before := ring.kernel;
      var there, steps := ring.PeekCqe();
      FramedProgresses(op, w, k0, before, ring.kernel, upto, steps);
      if !there {
        break;
      }
      ReapKeepsFrame(op, w, k0, ring.kernel, upto);
      ring.Seen();
      reaped := reaped + 1;
    }
    while reaped < submitted
      invariant |ring.kernel.inflight| + |ring.kernel.cq| == submitted - reaped
      invariant Framed(op, w, k0, ring.kernel, upto) && Wf(ring.kernel) && old(ring.errors) <= ring.errors
      decreases submitted - reaped
    {
      ghost var before := ring.kernel;
      var _, steps := ring.WaitCqe();
      FramedProgresses(op, w, k0, before, ring.kernel, upto, steps);
      ReapKeepsFrame(op, w, k0, ring.kernel, upto);
      ring.Seen();
      reaped := reaped + 1;
    }
  }

  /** All bytes of the window have been moved, as by one big call. */
  ghost predicate Finished(op: Op, w: Window, k0: State, k: State)
    requires Fits(w, |k0.mem|)
  {
    match op
    case Read => k.file == k0.file && ReadAll(w, k0.file, k0.mem, k.mem)
    case Write => k.mem == k0.mem && k.file == Pwrite(k0.file, w.fOff, Gather(w, k0.mem))
  }

  lemma InvStarts(op: Op, w: Window, k: State)
    requires Fits(w, |k.mem|) && k.inflight == [] && k.cq == []
    ensures Inv(op, w, k, k, 0, 0)
  {
    hide ValidRegion, Below, Shaped, HostOf, ForWindow;
  }

  lemma InvFinishes(op: Op, w: Window, k0: State, k: State, total: int)
    requires Fits(w, |k0.mem|) && 0 < w.n && Inv(op, w, k0, k, w.n, total) && k.inflight == [] && k.cq == []
    ensures Finished(op, w, k0, k) && total == Reported(op, k0.file, w.fOff, w.n)
  {
    hide ValidRegion, Below, Shaped, HostOf, ForWindow, Untouched, Landed, SameOutside, Gather;
    forall i ensures !Pending(w, k.inflight, i) {
      NonePending(w, i);
    }
    if op == Write {
      assert !Pending(w, k.inflight, w.n - 1);
      assert w.fOff + (w.n - 1) < |k.file|;
      assert k.file == Pwrite(k0.file, w.fOff, Gather(w, k0.mem));
    }
  }

  lemma FramedWidens(op: Op, w: Window, k0: State, k: State, upto: nat)
    requires Fits(w, |k0.mem|) && Framed(op, w, k0, k, upto) && k.inflight == []
    ensures Framed(op, w, k0, k, w.n)
  {
    hide SameOutside, FileSameOutside, Fits;
  }

  /** How one batch ends: a sub-I/O could not be translated, a request failed, or
      all its bytes were moved. */
  datatype BatchEnd = Blocked | IoError | Moved(bytes: nat)

  /** One turn of the outer loop, under the ring lock. */
  method OneBatch(op: Op, dev: Device, ring: Uring, gpuBuf: nat, bufOff: nat, fOff: nat, n: nat, done: nat,
          total0: int, ghost w: Window, ghost k0: State)
    returns (b: BatchEnd, total: int)
    requires dev.Valid() && GoodRegions(dev.Regions(), |ring.kernel.mem|)
    requires ring.Quiet() && done < n && bufOff + n < 0x8000_0000_0000_0000
    requires !Reaches(dev.Regions(), gpuBuf, bufOff, n) ==> done == 0
    requires Reaches(dev.Regions(), gpuBuf, bufOff, n) ==>
               && w == CallWindow(dev.Regions(), gpuBuf, bufOff, fOff, n) && done <= w.n
               && |k0.mem| == |ring.kernel.mem| && Fits(w, |k0.mem|)
               && Inv(op, w, k0, ring.kernel, done, total0)
    modifies ring
    ensures ring.kernel.inflight == [] && ring.kernel.cq == []
    ensures |ring.kernel.mem| == |old(ring.kernel).mem|
    ensures b.Blocked? ==> ring.kernel == old(ring.kernel)
    ensures old(ring.errors) <= ring.errors && (b.IoError? <==> old(ring.errors) < ring.errors)
    ensures !b.Blocked? ==> ring.sq == []
    ensures !Reaches(dev.Regions(), gpuBuf, bufOff, n) ==> b.Blocked? && ring.sq == []
    ensures Reaches(dev.Regions(), gpuBuf, bufOff, n) ==>
              && (b.Blocked? <==> Stuck(bufOff + done, n - done, 0, w.r.length).Some?)
              && (b.Blocked? ==> |ring.sq| == Stuck(bufOff + done, n - done, 0, w.r.length).value)
              && Framed(op, w, k0, ring.kernel, w.n)
              && (b.Moved? ==> b.bytes == PackBytes(bufOff + done, n - done, 0) && 0 < b.bytes)
              && (b.Moved? ==> done + b.bytes <= w.n && Inv(op, w, k0, ring.kernel, done + b.bytes, total))
  {
    hide Framed, Sound, Fits, Reaches, CallWindow, GoodRegions, Tiles, Stuck, PackBytes, Wf, Linked, RegionsOf;
    total := total0;
    ghost var before := ring.kernel;
    ghost var reaches := Reaches(dev.Regions(), gpuBuf, bufOff, n);
    if reaches {
      FramedUnfolds(op, w, k0, before, done);
      FramedWidens(op, w, k0, before, done);
    }
    var sqeCount, batchBytes, err := FillBatch(op, dev, ring, gpuBuf, bufOff, fOff, n, done, w);
    if err {
      return Blocked, total;
    }
    BatchIsFull(bufOff + done, n - done);
    Launch(op, w, k0, before, ring.sq, done, done + batchBytes, total);
    ghost var batch := ring.sq;
    var submitted := ring.Submit();
    assert before.inflight + batch == batch;
    err, total := ReapBatch(op, ring, submitted, total, w, k0, done + batchBytes);
    FramedUnfolds(op, w, k0, ring.kernel, done + batchBytes);
    FramedWidens(op, w, k0, ring.kernel, done + batchBytes);
    b := if err then IoError else Moved(batchBytes);
  }

  /** The ring path of fgds_read and fgds_write. */
  method RingTransfer(op: Op, dev: Device, ring: Uring, gpuBuf: nat, bufOff: nat, n: nat, fOff: nat)
    returns (rc: int, ghost ioFailed: bool, ghost batches: nat)
    requires dev.Valid() && GoodRegions(dev.Regions(), |ring.kernel.mem|)
    requires ring.Quiet() && 0 < n && bufOff + n < 0x8000_0000_0000_0000
    modifies ring
    ensures ring.kernel.inflight == [] && ring.kernel.cq == []
    ensures old(ring.errors) <= ring.errors && (ioFailed <==> old(ring.errors) < ring.errors)
    ensures !Reaches(dev.Regions(), gpuBuf, bufOff, n) ==> rc == -1 && ring.Quiet() && ring.kernel == old(ring.kernel)
    ensures Reaches(dev.Regions(), gpuBuf, bufOff, n) ==>
      var w := CallWindow(dev.Regions(), gpuBuf, bufOff, fOff, n);
      && Fits(w, |old(ring.kernel).mem|)
      && Framed(op, w, old(ring.kernel), ring.kernel, w.n)
      && |ring.sq| == (if ioFailed then 0 else Residue(bufOff, n, w.r.length))
      && rc == (if ioFailed || bufOff + n > w.r.length then -1 else Reported(op, old(ring.kernel).file, fOff, n))
      && (rc != -1 ==> w.n == n && Finished(op, w, old(ring.kernel), ring.kernel) && batches == Batches(bufOff, n))
  {
    hide Framed, Inv, Fits, Reaches, CallWindow, GoodRegions, Stuck, PackBytes, Finished, Linked, RegionsOf;
    ghost var rs, k0 := dev.Regions(), ring.kernel;
    ghost var reaches := Reaches(rs, gpuBuf, bufOff, n);
    ghost var w := Window(Region(0, 0, []), 0, 0, 0);
    if reaches {
      w := CallWindow(rs, gpuBuf, bufOff, fOff, n);
      CallWindowFits(rs, |k0.mem|, gpuBuf, bufOff, fOff, n);
      HomeRegion(rs, |k0.mem|, gpuBuf, bufOff, fOff, n);
      InvStarts(op, w, k0);
    }
    rc, ioFailed, batches := -1, false, 0;
    var done: nat, total := 0, 0;
    while done < n
      invariant ring.Quiet() && done <= n && |ring.kernel.mem| == |k0.mem| && ring.errors == old(ring.errors)
      invariant !reaches ==> done == 0 && ring.kernel == k0
      invariant reaches ==> done <= w.n && Inv(op, w, k0, ring.kernel, done, total)
      invariant reaches ==> Residue(bufOff, n, w.r.length) == Residue(bufOff + done, n - done, w.r.length)
      invariant Batches(bufOff, n) == batches + Batches(bufOff + done, n - done)
    {
      var b;
      b, total := OneBatch(op, dev, ring, gpuBuf, bufOff, fOff, n, done, total, w, k0);
      match b
      case Blocked =>
        if reaches && bufOff + n <= w.r.length {
          InRangeNeverStuck(bufOff + done, n - done, 0, w.r.length);
        }
        return;
      case IoError =>
        ioFailed := true;
        return;
      case Moved(bytes) =>
        done := done + bytes;
        batches := batches + 1;
    }
    InvUnfolds(op, w, k0, ring.kernel, n, total);
    InvFinishes(op, w, k0, ring.kernel, total);
    rc := total;
  }
}
