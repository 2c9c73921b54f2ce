/** The ring protocol with the memory and the file behind it: what concurrent calls
    on disjoint windows do to the bytes. */
module RingMemory {
  import opened Batch
  import Kernel
  import opened Layout
  import opened Options
  import opened Packing
  import opened RingProtocol
  import opened Sizes
  import opened Transfer

  type Byte = Kernel.Byte

  /** What a call is to move, and memory and file when it began. */
  datatype Job = Job(op: Op, w: Window, mem0: seq<Byte>, file0: seq<Byte>)

  datatype World = World(ring: State, mem: seq<Byte>, file: seq<Byte>, jobs: seq<Job>)

  /** A call begins; the kernel finishes a request in flight; or any other step. */
  datatype Move =
    | Start(t: nat, op: Op, w: Window)
    | Finish(j: nat, o: Kernel.Outcome)
    | Other(a: Step)

  predicate Active(x: World, t: nat) {
    t < |x.ring.threads| && x.ring.threads[t].phase != Idle
  }

  // ----- Disjoint windows -----

  /** No byte of memory is in both windows. */
  ghost predicate MemoryApart(v: Window, w: Window)
    requires Shaped(v) && Shaped(w)
  {
    forall i: nat, j: nat :: i < v.n && j < w.n ==> HostOf(v, i) != HostOf(w, j)
  }

  predicate FileApart(v: Window, w: Window) {
    v.fOff + v.n <= w.fOff || w.fOff + w.n <= v.fOff
  }

  /** A read that reaches past the end of the file notices when a write beside it
      makes the file longer. */
  predicate NoGrowth(v: Window, w: Window, size: nat) {
    v.fOff + v.n <= size || w.fOff + w.n <= size
  }

  /** What one of the two calls changes, the other does not touch. */
  ghost predicate Apart(op: Op, v: Window, op': Op, w: Window, size: nat) {
    && Shaped(v) && Shaped(w)
    && (op.Read? || op'.Read? ==> MemoryApart(v, w))
    && (op.Write? || op'.Write? ==> FileApart(v, w))
    && (op != op' ==> NoGrowth(v, w, size))
  }

  // ----- Moves -----

  /** The bytes a request moves. */
  function Moved(x: World, e: Entry, o: Kernel.Outcome): (bytes: seq<Byte>)
    requires e.tid < |x.jobs| && Placed(x.jobs[e.tid].w, e, |x.mem|) && (o.Failed? ==> |o.debris| <= e.len)
    ensures |bytes| <= e.len
  {
    var job := x.jobs[e.tid];
    match o
    case Failed(debris) => debris
    case Done =>
      if job.op.Read? then Kernel.Pread(x.file, job.w.fOff + e.lo, e.len)
      else x.mem[Host(job.w.r, job.w.bufOff + e.lo)..Host(job.w.r, job.w.bufOff + e.lo) + e.len]
  }

  /** The entry is a piece of the window that lies in one segment. */
  predicate Placed(w: Window, e: Entry, size: nat) {
    && |w.r.vaddrs| == SegCount(w.r.length) && 0 < e.len && e.lo + e.len <= w.n && w.bufOff + w.n <= w.r.length
    && (w.bufOff + e.lo) % SEGMENT + e.len <= SEGMENT
    && Host(w.r, w.bufOff + e.lo) + e.len <= size
  }

  predicate CanFinish(x: World, j: nat, o: Kernel.Outcome) {
    && j < |x.ring.inflight| && x.ring.inflight[j].tid < |x.jobs|
    && Placed(x.jobs[x.ring.inflight[j].tid].w, x.ring.inflight[j], |x.mem|)
    && (o.Failed? ==> |o.debris| <= x.ring.inflight[j].len)
  }

  function RingStep(x: World, m: Move): Step
    requires m.Finish? ==> CanFinish(x, m.j, m.o)
  {
    match m
    case Start(t, _, w) => Call(t, w.bufOff, w.n, w.r.length)
    case Finish(j, o) => Complete(j, if o.Failed? then -5 else |Moved(x, x.ring.inflight[j], o)|)
    case Other(a) => a
  }

  ghost predicate Possible(x: World, m: Move) {
    match m
    case Start(t, op, w) =>
      && Enabled(x.ring, Call(t, w.bufOff, w.n, w.r.length)) && t < |x.jobs| && Fits(w, |x.mem|)
      && forall u: nat :: Active(x, u) && u < |x.jobs| ==> Apart(op, w, x.jobs[u].op, x.jobs[u].w, |x.file|)
    case Finish(j, o) => CanFinish(x, j, o)
    case Other(a) => !a.Call? && !a.Complete? && Enabled(x.ring, a)
  }

  ghost function Next(x: World, m: Move): World
    requires Possible(x, m)
  {
    var ring := Apply(x.ring, RingStep(x, m));
    match m
    case Start(t, op, w) => x.(ring := ring, jobs := x.jobs[t := Job(op, w, x.mem, x.file)])
    case Finish(j, o) =>
      var e := x.ring.inflight[j];
      var job, moved := x.jobs[e.tid], Moved(x, e, o);
      if job.op.Read?
      then x.(ring := ring, mem := Kernel.Splice(x.mem, Host(job.w.r, job.w.bufOff + e.lo), moved))
      else x.(ring := ring, file := Kernel.Pwrite(x.file, job.w.fOff + e.lo, moved))
    case Other(_) => x.(ring := ring)
  }

  // ----- What a call has done so far -----

  /** The requests of the call that the kernel has finished. */
  function Finished(s: State, t: nat): seq<Completion>
    requires t < |s.threads|
  {
    s.threads[t].log + (if s.lock == Some(t) then s.cq else [])
  }

  predicate Has(e: Entry, i: nat) {
    e.lo <= i < e.lo + e.len
  }

  /** Byte `i` of the window is covered by a finished request. */
  ghost predicate Reached(cs: seq<Completion>, i: nat) {
    exists k :: 0 <= k < |cs| && Has(cs[k].entry, i)
  }

  /** Byte `i` has been moved. */
  ghost predicate Moving(job: Job, mem: seq<Byte>, file: seq<Byte>, i: nat)
    requires Fits(job.w, |mem|) && |job.mem0| == |mem| && i < job.w.n
  {
    HostOfBelow(job.w, |mem|, i);
    var a, p := HostOf(job.w, i), job.w.fOff + i;
    match job.op
    case Read => mem[a] == if p < |job.file0| then job.file0[p] else job.mem0[a]
    case Write => p < |file| && file[p] == job.mem0[a]
  }

  /** What byte `i` is taken from is as it was when the call began. */
  ghost predicate SourceKept(job: Job, mem: seq<Byte>, file: seq<Byte>, i: nat)
    requires Fits(job.w, |mem|) && |job.mem0| == |mem| && i < job.w.n
  {
    HostOfBelow(job.w, |mem|, i);
    var a, p := HostOf(job.w, i), job.w.fOff + i;
    match job.op
    case Read => (p < |file| <==> p < |job.file0|) && (p < |file| ==> file[p] == job.file0[p])
    case Write => mem[a] == job.mem0[a]
  }

  /** Byte `i` has not been written to. */
  ghost predicate TargetKept(job: Job, mem: seq<Byte>, i: nat)
    requires Fits(job.w, |mem|) && |job.mem0| == |mem| && i < job.w.n
  {
    HostOfBelow(job.w, |mem|, i);
    job.op.Read? ==> mem[HostOf(job.w, i)] == job.mem0[HostOf(job.w, i)]
  }

  /** A request that did not fail has moved its bytes and reports their number. */
  ghost predicate Honest(job: Job, mem: seq<Byte>, file: seq<Byte>, c: Completion)
    requires Fits(job.w, |mem|) && |job.mem0| == |mem|
  {
    0 <= c.res ==>
      && c.entry.lo + c.entry.len <= job.w.n
      && c.res == Reported(job.op, job.file0, job.w.fOff + c.entry.lo, c.entry.len)
      && forall i: nat :: Has(c.entry, i) ==> Moving(job, mem, file, i)
  }

  ghost predicate JobInv(job: Job, mem: seq<Byte>, file: seq<Byte>, cs: seq<Completion>)
    requires Fits(job.w, |mem|) && |job.mem0| == |mem|
  {
    && (forall i: nat :: i < job.w.n ==> SourceKept(job, mem, file, i))
    && (forall k :: 0 <= k < |cs| ==> Honest(job, mem, file, cs[k]))
    && (forall i: nat :: i < job.w.n && !Reached(cs, i) ==> TargetKept(job, mem, i))
  }

  /** The record of the ring and the job are about the same call. */
  ghost predicate SameJob(th: Thread, job: Job, size: nat) {
    && Fits(job.w, size) && |job.mem0| == size
    && th.off == job.w.bufOff && th.n == job.w.n && th.limit == job.w.r.length
  }

  /** A request lies in one segment of the buffer. */
  predicate OneSegment(off: nat, e: Entry) {
    (off + e.lo) % SEGMENT + e.len <= SEGMENT
  }

  ghost predicate Cutting(s: State) {
    forall e :: e in Content(s) && e.tid < |s.threads| ==> OneSegment(s.threads[e.tid].off, e)
  }

  ghost predicate CallInv(th: Thread, job: Job, mem: seq<Byte>, file: seq<Byte>, cs: seq<Completion>) {
    SameJob(th, job, |mem|) && JobInv(job, mem, file, cs)
  }

  ghost predicate AllApart(x: World) {
    forall t: nat, u: nat :: Active(x, t) && Active(x, u) && t != u && t < |x.jobs| && u < |x.jobs| ==>
      Apart(x.jobs[t].op, x.jobs[t].w, x.jobs[u].op, x.jobs[u].w, |x.file|)
  }

  ghost predicate WorldInv(x: World) {
    && RingProtocol.Inv(x.ring) && |x.jobs| == |x.ring.threads| && Cutting(x.ring) && AllApart(x)
    && forall t: nat :: Active(x, t) ==>
         CallInv(x.ring.threads[t], x.jobs[t], x.mem, x.file, Finished(x.ring, t))
  }

  // ----- The pieces of a call -----

  lemma {:induction false} PieceIn(es: seq<Entry>, lo: nat, hi: nat, k: nat)
    requires Contiguous(es, lo, hi) && k < |es|
    ensures 0 < es[k].len && lo <= es[k].lo && es[k].lo + es[k].len <= hi
    decreases |es|
  {
    EndsLater(es[1..], lo + es[0].len, hi);
    if k > 0 {
      PieceIn(es[1..], lo + es[0].len, hi, k - 1);
    }
  }

  lemma {:induction false} EndsLater(es: seq<Entry>, lo: nat, hi: nat)
    requires Contiguous(es, lo, hi)
    ensures lo <= hi
    decreases |es|
  {
    if es != [] {
      EndsLater(es[1..], lo + es[0].len, hi);
    }
  }

  lemma {:induction false} PiecesInOrder(es: seq<Entry>, lo: nat, hi: nat, j: nat, k: nat)
    requires Contiguous(es, lo, hi) && j < k < |es|
    ensures es[j].lo + es[j].len <= es[k].lo
    decreases |es|
  {
    if j == 0 {
      PieceIn(es[1..], lo + es[0].len, hi, k - 1);
    } else {
      PiecesInOrder(es[1..], lo + es[0].len, hi, j - 1, k - 1);
    }
  }

  lemma {:induction false} PiecesOnce(es: seq<Entry>, lo: nat, hi: nat, e: Entry)
    requires Contiguous(es, lo, hi)
    ensures multiset(es)[e] <= 1
    decreases |es|
  {
    if es != [] {
      assert es == [es[0]] + es[1..];
      PiecesOnce(es[1..], lo + es[0].len, hi, e);
      if e == es[0] && e in es[1..] {
        var k :| 0 <= k < |es[1..]| && es[1..][k] == e;
        PieceIn(es[1..], lo + es[0].len, hi, k);
      }
    }
  }

  /** Two pieces that share a byte are the same piece. */
  lemma SamePiece(es: seq<Entry>, lo: nat, hi: nat, d: Entry, e: Entry, i: nat)
    requires Contiguous(es, lo, hi) && d in es && e in es && Has(d, i) && Has(e, i)
    ensures d == e
  {
    var j, k :| 0 <= j < |es| && 0 <= k < |es| && es[j] == d && es[k] == e;
    if j < k {
      PiecesInOrder(es, lo, hi, j, k);
    } else if k < j {
      PiecesInOrder(es, lo, hi, k, j);
    }
  }

  lemma {:induction false} EntriesHas(cs: seq<Completion>, k: nat)
    requires k < |cs|
    ensures Entries(cs)[k] == cs[k].entry && cs[k].entry in Entries(cs) && multiset(Entries(cs))[cs[k].entry] > 0
  {
    if k > 0 {
      EntriesHas(cs[1..], k - 1);
    }
    assert cs[k].entry in Entries(cs);
  }

  lemma EntriesAdd(cs: seq<Completion>, ds: seq<Completion>)
    ensures Entries(cs + ds) == Entries(cs) + Entries(ds)
  {
    hide Entries;
    forall k: nat | k < |cs + ds| ensures Entries(cs + ds)[k] == (Entries(cs) + Entries(ds))[k] {
      EntriesHas(cs + ds, k);
      if k < |cs| {
        EntriesHas(cs, k);
      } else {
        EntriesHas(ds, k - |cs|);
      }
    }
  }

  /** A request in flight shares no byte with one that has finished. */
  lemma PendingApart(s: State, t: nat, j: nat, k: nat, i: nat)
    requires t < |s.threads| && Books(t, s.threads[t], Content(s)) && j < |s.inflight|
    requires k < |s.threads[t].log + s.cq| && Has(s.inflight[j], i)
    ensures !Has((s.threads[t].log + s.cq)[k].entry, i)
  {
    hide Entries, SumRes;
    var th, e, c := s.threads[t], s.inflight[j], (s.threads[t].log + s.cq)[k];
    EntriesAdd(th.log, s.cq);
    EntriesHas(th.log + s.cq, k);
    assert multiset(s.inflight)[e] > 0;
    if Has(c.entry, i) {
      assert e in multiset(th.planned) && c.entry in multiset(th.planned);
      SamePiece(th.planned, 0, th.done + th.bytes, e, c.entry, i);
      PiecesOnce(th.planned, 0, th.done + th.bytes, e);
      assert false;
    }
  }

  /** Where a request in flight is. */
  lemma PendingPlaced(x: World, j: nat)
    requires WorldInv(x) && j < |x.ring.inflight|
    ensures var e := x.ring.inflight[j];
      && x.ring.lock == Some(e.tid) && Active(x, e.tid) && e.tid < |x.jobs| && Placed(x.jobs[e.tid].w, e, |x.mem|)
      && Books(e.tid, x.ring.threads[e.tid], Content(x.ring))
  {
    var s, e := x.ring, x.ring.inflight[j];
    HolderOwns(s);
    assert e in multiset(s.inflight) && e in Content(s) by { hide Entries; }
    var t := e.tid;
    InvParts(s);
    assert Holds(s.threads[t]);
    Holder(s, t);
    assert CallInv(s.threads[t], x.jobs[t], x.mem, x.file, Finished(x.ring, t));
    hide RingProtocol.Inv, JobInv;
    PlacedPiece(s.threads[t], x.jobs[t], |x.mem|, e, Content(s));
  }

  lemma PlacedPiece(th: Thread, job: Job, size: nat, e: Entry, share: multiset<Entry>)
    requires Books(e.tid, th, share) && OnPlan(th) && SameJob(th, job, size) && e in share
    requires OneSegment(th.off, e)
    ensures Placed(job.w, e, size)
  {
    hide Entries, SumRes, ValidRegion, Below, Residue, Stuck, PackBytes;
    assert e in multiset(th.planned);
    var k :| 0 <= k < |th.planned| && th.planned[k] == e;
    PieceIn(th.planned, 0, th.done + th.bytes, k);
    HostRun(job.w, size, e, e.len - 1);
  }

  /** The bytes of a piece are consecutive in memory. */
  lemma HostRun(w: Window, size: nat, e: Entry, k: nat)
    requires Fits(w, size) && e.lo + e.len <= w.n && k < e.len && (w.bufOff + e.lo) % SEGMENT + e.len <= SEGMENT
    ensures HostOf(w, e.lo + k) == Host(w.r, w.bufOff + e.lo) + k < size
  {
    hide ValidRegion, Below, Host;
    HostConsecutive(w.r, w.bufOff + e.lo, k);
    HostOfBelow(w, size, e.lo + k);
    assert w.bufOff + (e.lo + k) == w.bufOff + e.lo + k;
  }

  // ----- What finishing a request does to its own call -----

  lemma SpliceAt(w: Window, e: Entry, mem: seq<Byte>, moved: seq<Byte>, i: nat)
    requires Fits(w, |mem|) && Placed(w, e, |mem|) && |moved| <= e.len && i < w.n
    ensures var mem' := Kernel.Splice(mem, Host(w.r, w.bufOff + e.lo), moved);
      && HostOf(w, i) < |mem|
      && mem'[HostOf(w, i)] == if Has(e, i) && i - e.lo < |moved| then moved[i - e.lo] else mem[HostOf(w, i)]
  {
    hide ValidRegion, Below;
    HostOfBelow(w, |mem|, i);
    var a, b := Host(w.r, w.bufOff + e.lo), HostOf(w, i);
    if Has(e, i) {
      HostRun(w, |mem|, e, i - e.lo);
    } else if a <= b < a + e.len {
      HostRun(w, |mem|, e, b - a);
      HostOfInjective(w, |mem|, i, e.lo + (b - a));
    }
  }

  /** The pieces of `cs` share no byte with `e`. */
  ghost predicate ApartFrom(cs: seq<Completion>, e: Entry) {
    forall k: nat, i: nat :: k < |cs| && Has(e, i) ==> !Has(cs[k].entry, i)
  }

  lemma ReachedMore(cs: seq<Completion>, c: Completion, i: nat)
    ensures Reached(cs + [c], i) <==> Reached(cs, i) || Has(c.entry, i)
  {
    if Reached(cs, i) {
      var k :| 0 <= k < |cs| && Has(cs[k].entry, i);
      assert (cs + [c])[k] == cs[k];
    }
    if Has(c.entry, i) {
      assert (cs + [c])[|cs|] == c;
    }
  }

  /** As long as the file did not change there, a piece reads as it would have. */
  lemma SameCount(job: Job, mem: seq<Byte>, file: seq<Byte>, lo: nat, len: nat)
    requires Fits(job.w, |mem|) && |job.mem0| == |mem| && job.op.Read? && lo + len <= job.w.n
    requires forall i: nat :: i < job.w.n ==> SourceKept(job, mem, file, i)
    ensures Kernel.Pread(file, job.w.fOff + lo, len) == Kernel.Pread(job.file0, job.w.fOff + lo, len)
  {
    hide ValidRegion, Below;
    var d, d0 := Kernel.Pread(file, job.w.fOff + lo, len), Kernel.Pread(job.file0, job.w.fOff + lo, len);
    var k := Kernel.Min(|d|, |d0|);
    assert k < len ==> SourceKept(job, mem, file, lo + k);
    assert |d| == |d0|;
    forall i: nat | i < |d| ensures d[i] == d0[i] {
      assert SourceKept(job, mem, file, lo + i);
    }
  }

  lemma ReadFinishes(job: Job, mem: seq<Byte>, file: seq<Byte>, cs: seq<Completion>, moved: seq<Byte>, c: Completion)
    requires Fits(job.w, |mem|) && |job.mem0| == |mem| && job.op.Read? && JobInv(job, mem, file, cs)
    requires Placed(job.w, c.entry, |mem|) && |moved| <= c.entry.len && ApartFrom(cs, c.entry)
    requires 0 <= c.res ==> moved == Kernel.Pread(file, job.w.fOff + c.entry.lo, c.entry.len) && c.res == |moved|
    ensures JobInv(job, Kernel.Splice(mem, Host(job.w.r, job.w.bufOff + c.entry.lo), moved), file, cs + [c])
  {
    hide ValidRegion, Below, HostOf, Host;
    var w, e := job.w, c.entry;
    var mem' := Kernel.Splice(mem, Host(w.r, w.bufOff + e.lo), moved);
    forall i: nat | i < w.n ensures SourceKept(job, mem', file, i) {
      assert SourceKept(job, mem, file, i);
    }
    forall k | 0 <= k < |cs + [c]| ensures Honest(job, mem', file, (cs + [c])[k]) {
      if k < |cs| {
        assert Honest(job, mem, file, cs[k]);
        forall i: nat | 0 <= cs[k].res && Has(cs[k].entry, i) ensures Moving(job, mem', file, i) {
          SpliceAt(w, e, mem, moved, i);
          assert Moving(job, mem, file, i);
        }
      } else {
        ReadHonest(job, mem, file, cs, moved, c);
      }
    }
    forall i: nat | i < w.n && !Reached(cs + [c], i) ensures TargetKept(job, mem', i) {
      ReachedMore(cs, c, i);
      SpliceAt(w, e, mem, moved, i);
      assert TargetKept(job, mem, i);
    }
  }

  lemma ReadHonest(job: Job, mem: seq<Byte>, file: seq<Byte>, cs: seq<Completion>, moved: seq<Byte>, c: Completion)
    requires Fits(job.w, |mem|) && |job.mem0| == |mem| && job.op.Read? && JobInv(job, mem, file, cs)
    requires Placed(job.w, c.entry, |mem|) && |moved| <= c.entry.len && ApartFrom(cs, c.entry)
    requires 0 <= c.res ==> moved == Kernel.Pread(file, job.w.fOff + c.entry.lo, c.entry.len) && c.res == |moved|
    ensures Honest(job, Kernel.Splice(mem, Host(job.w.r, job.w.bufOff + c.entry.lo), moved), file, c)
  {
    hide ValidRegion, Below, HostOf, Host, Moving, SourceKept, TargetKept;
    var w, e := job.w, c.entry;
    var mem' := Kernel.Splice(mem, Host(w.r, w.bufOff + e.lo), moved);
    if 0 <= c.res {
      SameCount(job, mem, file, e.lo, e.len);
      forall i: nat | Has(e, i) ensures Moving(job, mem', file, i) {
        assert !Reached(cs, i);
        assert TargetKept(job, mem, i) && SourceKept(job, mem, file, i);
        ReadByte(job, mem, file, moved, e, i);
      }
    }
  }

  /** A byte the kernel has just read. */
  lemma ReadByte(job: Job, mem: seq<Byte>, file: seq<Byte>, moved: seq<Byte>, e: Entry, i: nat)
    requires Fits(job.w, |mem|) && |job.mem0| == |mem| && job.op.Read? && Placed(job.w, e, |mem|) && Has(e, i)
    requires moved == Kernel.Pread(file, job.w.fOff + e.lo, e.len)
    requires TargetKept(job, mem, i) && SourceKept(job, mem, file, i)
    ensures Moving(job, Kernel.Splice(mem, Host(job.w.r, job.w.bufOff + e.lo), moved), file, i)
  {
    hide ValidRegion, Below, HostOf, Host;
    SpliceAt(job.w, e, mem, moved, i);
    hide Kernel.Splice;
    assert job.w.fOff + e.lo + (i - e.lo) == job.w.fOff + i;
  }

  /** A byte the kernel has just written. */
  lemma WrittenByte(job: Job, mem: seq<Byte>, file: seq<Byte>, moved: seq<Byte>, e: Entry, i: nat)
    requires Fits(job.w, |mem|) && |job.mem0| == |mem| && job.op.Write? && Placed(job.w, e, |mem|) && Has(e, i)
    requires var a := Host(job.w.r, job.w.bufOff + e.lo); moved == mem[a..a + e.len]
    requires SourceKept(job, mem, file, i)
    ensures Moving(job, mem, Kernel.Pwrite(file, job.w.fOff + e.lo, moved), i)
  {
    hide ValidRegion, Below, HostOf, Host;
    HostRun(job.w, |mem|, e, i - e.lo);
  }

  /** A byte written before, which this request does not touch. */
  lemma StillWritten(job: Job, mem: seq<Byte>, file: seq<Byte>, moved: seq<Byte>, e: Entry, i: nat)
    requires Fits(job.w, |mem|) && |job.mem0| == |mem| && job.op.Write? && |moved| <= e.len && i < job.w.n
    requires Moving(job, mem, file, i) && !Has(e, i)
    ensures Moving(job, mem, Kernel.Pwrite(file, job.w.fOff + e.lo, moved), i)
  {
    hide ValidRegion, Below, HostOf;
  }

  lemma SourceStays(job: Job, mem: seq<Byte>, file: seq<Byte>, file': seq<Byte>, i: nat)
    requires Fits(job.w, |mem|) && |job.mem0| == |mem| && job.op.Write? && i < job.w.n && SourceKept(job, mem, file, i)
    ensures SourceKept(job, mem, file', i) && TargetKept(job, mem, i)
  {
    hide ValidRegion, Below, HostOf;
  }

  lemma WriteFinishes(job: Job, mem: seq<Byte>, file: seq<Byte>, cs: seq<Completion>, moved: seq<Byte>, c: Completion)
    requires Fits(job.w, |mem|) && |job.mem0| == |mem| && job.op.Write? && JobInv(job, mem, file, cs)
    requires Placed(job.w, c.entry, |mem|) && |moved| <= c.entry.len && ApartFrom(cs, c.entry)
    requires 0 <= c.res ==>
      var a := Host(job.w.r, job.w.bufOff + c.entry.lo); moved == mem[a..a + c.entry.len] && c.res == |moved|
    ensures JobInv(job, mem, Kernel.Pwrite(file, job.w.fOff + c.entry.lo, moved), cs + [c])
  {
    hide ValidRegion, Below, HostOf, Host, Moving, SourceKept, TargetKept;
    var w, e := job.w, c.entry;
    var file' := Kernel.Pwrite(file, w.fOff + e.lo, moved);
    forall i: nat | i < w.n ensures SourceKept(job, mem, file', i) && TargetKept(job, mem, i) {
      SourceStays(job, mem, file, file', i);
    }
    forall k | 0 <= k < |cs + [c]| ensures Honest(job, mem, file', (cs + [c])[k]) {
      if k < |cs| {
        assert Honest(job, mem, file, cs[k]);
        forall i: nat | 0 <= cs[k].res && Has(cs[k].entry, i) ensures Moving(job, mem, file', i) {
          assert Moving(job, mem, file, i);
          StillWritten(job, mem, file, moved, e, i);
        }
      } else if 0 <= c.res {
        forall i: nat | Has(e, i) ensures Moving(job, mem, file', i) {
          WrittenByte(job, mem, file, moved, e, i);
        }
      }
    }
  }

  // ----- And to the others -----

  /** A read of another call leaves this one alone. */
  lemma ReadElsewhere(job: Job, mem: seq<Byte>, file: seq<Byte>, cs: seq<Completion>, v: Window, e: Entry,
          moved: seq<Byte>)
    requires Fits(job.w, |mem|) && |job.mem0| == |mem| && JobInv(job, mem, file, cs)
    requires Fits(v, |mem|) && Placed(v, e, |mem|) && |moved| <= e.len && MemoryApart(v, job.w)
    ensures JobInv(job, Kernel.Splice(mem, Host(v.r, v.bufOff + e.lo), moved), file, cs)
  {
    hide ValidRegion, Below;
    var mem' := Kernel.Splice(mem, Host(v.r, v.bufOff + e.lo), moved);
    forall i: nat | i < job.w.n ensures SameByte(job, mem, mem', file, file, i) {
      HostOfBelow(job.w, |mem|, i);
      var a, b := Host(v.r, v.bufOff + e.lo), HostOf(job.w, i);
      if a <= b < a + e.len {
        HostRun(v, |mem|, e, b - a);
      }
    }
    hide HostOf;
    SameAtWindow(job, mem, mem', file, file, cs);
  }

  /** Byte `i` of the window and of its range of the file are the same, except that
      the file may now reach it. */
  ghost predicate SameByte(job: Job, mem: seq<Byte>, mem': seq<Byte>, file: seq<Byte>, file': seq<Byte>, i: nat)
    requires Shaped(job.w) && i < job.w.n
  {
    var a, p := HostOf(job.w, i), job.w.fOff + i;
    && a < |mem| == |mem'| && mem'[a] == mem[a]
    && (p < |file| ==> p < |file'| && file'[p] == file[p])
    && (job.op.Read? && p < |file'| ==> p < |file|)
  }

  /** Only the bytes of the window, and of its range of the file, matter. */
  lemma SameAtWindow(job: Job, mem: seq<Byte>, mem': seq<Byte>, file: seq<Byte>, file': seq<Byte>, cs: seq<Completion>)
    requires Fits(job.w, |mem|) && |job.mem0| == |mem| == |mem'| && JobInv(job, mem, file, cs)
    requires forall i: nat :: i < job.w.n ==> SameByte(job, mem, mem', file, file', i)
    ensures JobInv(job, mem', file', cs)
  {
    hide ValidRegion, Below, HostOf;
    forall i: nat | i < job.w.n ensures SourceKept(job, mem', file', i) {
      assert SourceKept(job, mem, file, i) && SameByte(job, mem, mem', file, file', i);
    }
    forall k | 0 <= k < |cs| ensures Honest(job, mem', file', cs[k]) {
      assert Honest(job, mem, file, cs[k]);
      forall i: nat | 0 <= cs[k].res && Has(cs[k].entry, i) ensures Moving(job, mem', file', i) {
        assert Moving(job, mem, file, i) && SameByte(job, mem, mem', file, file', i);
      }
    }
    forall i: nat | i < job.w.n && !Reached(cs, i) ensures TargetKept(job, mem', i) {
      assert TargetKept(job, mem, i) && SameByte(job, mem, mem', file, file', i);
    }
  }

  /** So does a write. */
  lemma WriteElsewhere(job: Job, mem: seq<Byte>, file: seq<Byte>, cs: seq<Completion>, v: Window, e: Entry,
          moved: seq<Byte>)
    requires Fits(job.w, |mem|) && |job.mem0| == |mem| && JobInv(job, mem, file, cs)
    requires Placed(v, e, |mem|) && |moved| <= e.len && FileApart(v, job.w)
    requires job.op.Read? ==> NoGrowth(v, job.w, |file|)
    ensures JobInv(job, mem, Kernel.Pwrite(file, v.fOff + e.lo, moved), cs)
  {
    hide ValidRegion, Below, JobInv;
    var file' := Kernel.Pwrite(file, v.fOff + e.lo, moved);
    forall i: nat | i < job.w.n ensures SameByte(job, mem, mem, file, file', i) {
      HostOfBelow(job.w, |mem|, i);
    }
    hide HostOf;
    SameAtWindow(job, mem, mem, file, file', cs);
  }

  // ----- Every move keeps all this -----

  lemma {:induction false} CutChunks(tid: nat, call: nat, off: nat, lo: nat, n: nat)
    ensures forall e :: e in Cut(tid, call, off, lo, n) ==> e.tid == tid && OneSegment(off, e)
    decreases n
  {
    if n != 0 {
      var k := Chunk(off + lo, n);
      CutChunks(tid, call, off, lo + k, n - k);
    }
  }

  lemma BystanderRecord(s: State, a: Step, t: nat)
    requires LockInv(s) && Enabled(s, a) && !a.Call? && !a.Complete? && t < |s.threads| && a.t != t
    ensures |Apply(s, a).threads| == |s.threads| && Apply(s, a).threads[t] == s.threads[t]
    ensures Finished(Apply(s, a), t) == Finished(s, t)
  {
    hide NextEntries, NextSize, FitsLimit, FitsRing, FitsQueue, Stuffed;
    assert Holds(s.threads[a.t]) <==> s.lock == Some(a.t);
  }

  lemma OwnRecord(s: State, a: Step)
    requires LockInv(s) && RingInv(s) && Enabled(s, a) && !a.Call? && !a.Complete?
    ensures |Apply(s, a).threads| == |s.threads|
    ensures var th, th' := s.threads[a.t], Apply(s, a).threads[a.t];
      && th'.off == th.off && th'.n == th.n && th'.limit == th.limit
      && (th'.phase != Idle ==> th.phase != Idle && Finished(Apply(s, a), a.t) == Finished(s, a.t))
  {
    hide NextEntries, NextSize, FitsLimit, FitsRing, FitsQueue, Stuffed;
    assert Holds(s.threads[a.t]) <==> s.lock == Some(a.t);
    if a.Reap? {
      assert s.threads[a.t].log + [s.cq[0]] + s.cq[1..] == s.threads[a.t].log + s.cq;
    }
  }

  /** What a step that neither starts a call nor finishes a request does: the records
      stay about the same calls and the same finished requests. */
  lemma RecordsStay(s: State, a: Step, t: nat)
    requires RingProtocol.Inv(s) && Enabled(s, a) && !a.Call? && !a.Complete? && t < |s.threads|
    ensures |Apply(s, a).threads| == |s.threads|
    ensures var th, th' := s.threads[t], Apply(s, a).threads[t];
      && th'.off == th.off && th'.n == th.n && th'.limit == th.limit
      && (th'.phase != Idle ==> th.phase != Idle && Finished(Apply(s, a), t) == Finished(s, t))
  {
    hide RingProtocol.Inv, Enabled, Apply, LockInv, RingInv, Finished;
    InvParts(s);
    if a.t != t {
      BystanderRecord(s, a, t);
    } else {
      OwnRecord(s, a);
    }
  }

  lemma CuttingStays(s: State, a: Step)
    requires RingProtocol.Inv(s) && Cutting(s) && Enabled(s, a) && !a.Call? && !a.Complete?
    ensures Cutting(Apply(s, a))
  {
    hide RingProtocol.Inv, Apply, Content, NextEntries, NextSize, FitsLimit, FitsRing, FitsQueue, Finished, OneSegment;
    ContentMoves(s, a);
    if a.Prepare? {
      NewChunks(s, a);
    }
    hide Enabled;
    var s' := Apply(s, a);
    forall e | e in Content(s') && e.tid < |s'.threads|
      ensures OneSegment(s'.threads[e.tid].off, e)
    {
      ThreadCount(s, a);
      RecordsStay(s, a, e.tid);
    }
  }

  lemma ThreadCount(s: State, a: Step)
    requires Enabled(s, a) && !a.Call? && !a.Complete?
    ensures |Apply(s, a).threads| == |s.threads|
  {
    hide NextEntries, NextSize, FitsLimit, FitsRing, FitsQueue, Stuffed;
  }

  lemma NewChunks(s: State, a: Step)
    requires Enabled(s, a) && a.Prepare?
    ensures forall e :: e in NextEntries(s, a.t) ==>
      e.tid == a.t && OneSegment(s.threads[a.t].off, e)
  {
    var th := s.threads[a.t];
    CutChunks(a.t, th.call, th.off, th.done + th.bytes, NextSize(th));
  }

  /** Only preparing brings new entries into the ring. */
  lemma ContentMoves(s: State, a: Step)
    requires RingProtocol.Inv(s) && Enabled(s, a) && !a.Call? && !a.Complete?
    ensures forall e :: e in Content(Apply(s, a)) ==> e in Content(s) || (a.Prepare? && e in NextEntries(s, a.t))
  {
    if a.Exhaust? {
      NeverExhausted(s, a.t);
    } else if a.Reap? {
      EntriesHead(s.cq);
    }
    hide RingProtocol.Inv, Entries, NextEntries, NextSize, FitsLimit, FitsRing;
  }

  lemma CallOf(x: World, t: nat)
    requires WorldInv(x) && Active(x, t)
    ensures t < |x.jobs| && CallInv(x.ring.threads[t], x.jobs[t], x.mem, x.file, Finished(x.ring, t))
  {
    hide RingProtocol.Inv, CallInv, Cutting, AllApart;
  }

  lemma OtherCall(x: World, a: Step, t: nat)
    requires WorldInv(x) && Enabled(x.ring, a) && !a.Call? && !a.Complete?
    requires t < |Apply(x.ring, a).threads| && Apply(x.ring, a).threads[t].phase != Idle
    ensures Active(x, t) && t < |x.jobs|
    ensures CallInv(Apply(x.ring, a).threads[t], x.jobs[t], x.mem, x.file, Finished(Apply(x.ring, a), t))
  {
    assert RingProtocol.Inv(x.ring);
    hide WorldInv, RingProtocol.Inv, Enabled, Apply, Finished, JobInv;
    ThreadCount(x.ring, a);
    RecordsStay(x.ring, a, t);
    CallOf(x, t);
  }

  lemma OtherKeeps(x: World, m: Move)
    requires WorldInv(x) && Possible(x, m) && m.Other?
    ensures WorldInv(Next(x, m))
  {
    var s, a, x' := x.ring, m.a, Next(x, m);
    assert RingProtocol.Inv(x'.ring) by { StepKeeps(s, a); }
    CuttingStays(s, a);
    ThreadCount(s, a);
    hide RingProtocol.Inv, Enabled, Apply, Finished, CallInv, Cutting, Apart;
    forall t: nat | Active(x', t)
      ensures Active(x, t) && CallInv(x'.ring.threads[t], x.jobs[t], x.mem, x.file, Finished(x'.ring, t))
    {
      OtherCall(x, a, t);
    }
  }

  // ----- Starting a call -----

  lemma FreshCall(op: Op, w: Window, mem: seq<Byte>, file: seq<Byte>)
    requires Fits(w, |mem|)
    ensures JobInv(Job(op, w, mem, file), mem, file, [])
  {
    hide ValidRegion, Below;
  }

  lemma ApartTurns(op: Op, v: Window, op': Op, w: Window, size: nat)
    requires Apart(op, v, op', w, size)
    ensures Apart(op', w, op, v, size)
  {
    hide HostOf;
  }

  lemma StartCalls(x: World, m: Move, t: nat)
    requires WorldInv(x) && Possible(x, m) && m.Start? && Active(Next(x, m), t)
    ensures var x' := Next(x, m);
      t < |x'.jobs| && CallInv(x'.ring.threads[t], x'.jobs[t], x'.mem, x'.file, Finished(x'.ring, t))
  {
    hide ValidRegion, Below, JobInv, RingProtocol.Inv;
    if t == m.t {
      InvParts(x.ring);
      assert !Holds(x.ring.threads[t]);
      assert Finished(Next(x, m).ring, t) == [];
      FreshCall(m.op, m.w, x.mem, x.file);
    } else {
      assert Active(x, t);
      CallOf(x, t);
    }
  }

  lemma StartKeeps(x: World, m: Move)
    requires WorldInv(x) && Possible(x, m) && m.Start?
    ensures WorldInv(Next(x, m))
  {
    var x' := Next(x, m);
    var a := RingStep(x, m);
    assert RingProtocol.Inv(x'.ring) by {
      InRangeNoResidue(m.w.bufOff, m.w.n, m.w.r.length);
      StepKeeps(x.ring, a);
    }
    forall t: nat | Active(x', t)
      ensures t < |x'.jobs| && CallInv(x'.ring.threads[t], x'.jobs[t], x'.mem, x'.file, Finished(x'.ring, t))
    {
      StartCalls(x, m, t);
    }
    StartApart(x, m);
    StartCutting(x, m);
    hide RingProtocol.Inv, CallInv, Cutting, AllApart;
  }

  lemma StartApart(x: World, m: Move)
    requires WorldInv(x) && Possible(x, m) && m.Start?
    ensures AllApart(Next(x, m))
  {
    hide RingProtocol.Inv, CallInv, Cutting, Apart;
    var x' := Next(x, m);
    forall t: nat, u: nat | Active(x', t) && Active(x', u) && t != u && t < |x'.jobs| && u < |x'.jobs|
      ensures Apart(x'.jobs[t].op, x'.jobs[t].w, x'.jobs[u].op, x'.jobs[u].w, |x'.file|)
    {
      if t == m.t {
        assert Active(x, u);
      } else {
        assert Active(x, t);
        if u == m.t {
          ApartTurns(m.op, m.w, x.jobs[t].op, x.jobs[t].w, |x.file|);
        } else {
          assert Active(x, u);
        }
      }
    }
  }

  /** A thread that starts a call has nothing in the ring. */
  lemma StartCutting(x: World, m: Move)
    requires WorldInv(x) && Possible(x, m) && m.Start?
    ensures Cutting(Next(x, m).ring)
  {
    InvParts(x.ring);
    HolderOwns(x.ring);
    hide RingProtocol.Inv, CallInv, AllApart, OneSegment, Fits;
    var s, s' := x.ring, Next(x, m).ring;
    assert Content(s') == Content(s) by { hide Entries; }
    hide Content;
    forall e | e in Content(s') && e.tid < |s'.threads| ensures OneSegment(s'.threads[e.tid].off, e) {
      assert Holds(s.threads[e.tid]);
    }
  }

  // ----- Finishing a request -----

  /** The completion that a finished request leaves. */
  function Left(x: World, m: Move): Completion
    requires m.Finish? && CanFinish(x, m.j, m.o)
  {
    Completion(x.ring.inflight[m.j], if m.o.Failed? then -5 else |Moved(x, x.ring.inflight[m.j], m.o)|)
  }

  lemma FinishRecords(x: World, m: Move)
    requires Possible(x, m) && m.Finish?
    ensures var x' := Next(x, m);
      && x'.ring.threads == x.ring.threads && x'.ring.lock == x.ring.lock && x'.jobs == x.jobs
      && x'.ring.cq == x.ring.cq + [Left(x, m)] && |x'.mem| == |x.mem| && |x.file| <= |x'.file|
      && (forall t: nat :: t < |x.ring.threads| ==>
            Finished(x'.ring, t) == if x.ring.lock == Some(t) then Finished(x.ring, t) + [Left(x, m)]
              else Finished(x.ring, t))
  {
    hide Moved, Placed;
    var x' := Next(x, m);
    forall t: nat | t < |x.ring.threads| && x.ring.lock == Some(t)
      ensures Finished(x'.ring, t) == Finished(x.ring, t) + [Left(x, m)]
    {
      assert x.ring.threads[t].log + (x.ring.cq + [Left(x, m)]) == x.ring.threads[t].log + x.ring.cq + [Left(x, m)];
    }
  }

  lemma FinishApart(x: World, m: Move)
    requires WorldInv(x) && Possible(x, m) && m.Finish?
    ensures var e := x.ring.inflight[m.j];
      e.tid < |x.ring.threads| && ApartFrom(Finished(x.ring, e.tid), e)
  {
    PendingPlaced(x, m.j);
    hide WorldInv, Books, Content, Placed;
    var e := x.ring.inflight[m.j];
    var cs := Finished(x.ring, e.tid);
    forall k: nat, i: nat | k < |cs| && Has(e, i) ensures !Has(cs[k].entry, i) {
      PendingApart(x.ring, e.tid, m.j, k, i);
    }
  }

  lemma FinishEffect(job: Job, th: Thread, x: World, m: Move, cs: seq<Completion>)
    requires Possible(x, m) && m.Finish? && CallInv(th, job, x.mem, x.file, cs)
    requires job == x.jobs[x.ring.inflight[m.j].tid] && ApartFrom(cs, x.ring.inflight[m.j])
    ensures CallInv(th, job, Next(x, m).mem, Next(x, m).file, cs + [Left(x, m)])
  {
    hide JobInv, ValidRegion, Below, Host, ApartFrom, Kernel.Splice, Kernel.Pwrite;
    var e := x.ring.inflight[m.j];
    var moved, c := Moved(x, e, m.o), Left(x, m);
    if job.op.Read? {
      ReadFinishes(job, x.mem, x.file, cs, moved, c);
    } else {
      WriteFinishes(job, x.mem, x.file, cs, moved, c);
    }
  }

  /** The call that the request belongs to. */
  lemma FinishOwn(x: World, m: Move)
    requires WorldInv(x) && Possible(x, m) && m.Finish?
    ensures var t, x' := x.ring.inflight[m.j].tid, Next(x, m);
      && t < |x'.jobs| && t < |x'.ring.threads|
      && CallInv(x'.ring.threads[t], x'.jobs[t], x'.mem, x'.file, Finished(x'.ring, t))
  {
    hide WorldInv, CallInv, Next, Finished, ApartFrom, Books, Content, Placed;
    PendingPlaced(x, m.j);
    var t := x.ring.inflight[m.j].tid;
    CallOf(x, t);
    FinishApart(x, m);
    FinishRecords(x, m);
    FinishEffect(x.jobs[t], x.ring.threads[t], x, m, Finished(x.ring, t));
  }

  /** Every other call. */
  lemma FinishOther(x: World, m: Move, u: nat)
    requires WorldInv(x) && Possible(x, m) && m.Finish? && Active(x, u) && u != x.ring.inflight[m.j].tid
    ensures var x' := Next(x, m);
      && u < |x'.jobs| && u < |x'.ring.threads|
      && CallInv(x'.ring.threads[u], x'.jobs[u], x'.mem, x'.file, Finished(x'.ring, u))
  {
    PendingPlaced(x, m.j);
    FinishRecords(x, m);
    var e := x.ring.inflight[m.j];
    CallOf(x, u);
    CallOf(x, e.tid);
    assert Apart(x.jobs[e.tid].op, x.jobs[e.tid].w, x.jobs[u].op, x.jobs[u].w, |x.file|) by { hide Apart, CallInv; }
    hide WorldInv, Finished, Books, Content;
    ElsewhereEffect(x.jobs[u], x.ring.threads[u], x, m, Finished(x.ring, u));
  }

  lemma ElsewhereEffect(job: Job, th: Thread, x: World, m: Move, cs: seq<Completion>)
    requires Possible(x, m) && m.Finish? && CallInv(th, job, x.mem, x.file, cs)
    requires var mine := x.jobs[x.ring.inflight[m.j].tid];
      Fits(mine.w, |x.mem|) && Apart(mine.op, mine.w, job.op, job.w, |x.file|)
    ensures CallInv(th, job, Next(x, m).mem, Next(x, m).file, cs)
  {
    hide JobInv, ValidRegion, Below, Host, Kernel.Splice, Kernel.Pwrite, MemoryApart, Moved;
    var e := x.ring.inflight[m.j];
    var mine, moved := x.jobs[e.tid], Moved(x, e, m.o);
    if mine.op.Read? {
      ReadElsewhere(job, x.mem, x.file, cs, mine.w, e, moved);
    } else {
      WriteElsewhere(job, x.mem, x.file, cs, mine.w, e, moved);
    }
  }

  lemma FinishRing(x: World, m: Move)
    requires WorldInv(x) && Possible(x, m) && m.Finish?
    ensures RingProtocol.Inv(Next(x, m).ring) && Cutting(Next(x, m).ring)
  {
    hide RingProtocol.Inv, Content, OneSegment, Moved, Placed, CallInv, AllApart;
    StepKeeps(x.ring, RingStep(x, m));
    CompleteMoves(x.ring, RingStep(x, m));
  }

  lemma FinishCalls(x: World, m: Move, t: nat)
    requires WorldInv(x) && Possible(x, m) && m.Finish? && Active(Next(x, m), t)
    ensures var x' := Next(x, m);
      t < |x'.jobs| && CallInv(x'.ring.threads[t], x'.jobs[t], x'.mem, x'.file, Finished(x'.ring, t))
  {
    hide WorldInv, CallInv, Next, Finished;
    FinishRecords(x, m);
    assert Active(x, t);
    if t == x.ring.inflight[m.j].tid {
      FinishOwn(x, m);
    } else {
      FinishOther(x, m, t);
    }
  }

  lemma FinishKeeps(x: World, m: Move)
    requires WorldInv(x) && Possible(x, m) && m.Finish?
    ensures WorldInv(Next(x, m))
  {
    hide RingProtocol.Inv, CallInv, Cutting, AllApart, Next, Possible, Finished;
    var x' := Next(x, m);
    FinishRecords(x, m);
    FinishRing(x, m);
    GrowthApart(x, x');
    forall t: nat | Active(x', t)
      ensures t < |x'.jobs| && CallInv(x'.ring.threads[t], x'.jobs[t], x'.mem, x'.file, Finished(x'.ring, t))
    {
      FinishCalls(x, m, t);
    }
  }

  lemma GrowthApart(x: World, x': World)
    requires AllApart(x) && x'.jobs == x.jobs && x'.ring.threads == x.ring.threads && |x.file| <= |x'.file|
    ensures AllApart(x')
  {
    hide MemoryApart, HostOf, Shaped;
    forall t: nat, u: nat | Active(x', t) && Active(x', u) && t != u && t < |x'.jobs| && u < |x'.jobs|
      ensures Apart(x'.jobs[t].op, x'.jobs[t].w, x'.jobs[u].op, x'.jobs[u].w, |x'.file|)
    {
      assert Active(x, t) && Active(x, u);
    }
  }

  lemma MoveKeeps(x: World, m: Move)
    requires WorldInv(x) && Possible(x, m)
    ensures WorldInv(Next(x, m))
  {
    hide WorldInv, Possible, Next;
    match m
    case Start(_, _, _) => StartKeeps(x, m);
    case Finish(_, _) => FinishKeeps(x, m);
    case Other(_) => OtherKeeps(x, m);
  }

  // ----- Whole runs -----

  ghost predicate Goes(x: World, run: seq<Move>)
    decreases |run|
  {
    run == [] || (Possible(x, run[0]) && Goes(Next(x, run[0]), run[1..]))
  }

  ghost function Last(x: World, run: seq<Move>): World
    requires Goes(x, run)
    decreases |run|
  {
    if run == [] then x else Last(Next(x, run[0]), run[1..])
  }

  lemma {:induction false} RunKeepsWorld(x: World, run: seq<Move>)
    requires WorldInv(x) && Goes(x, run)
    ensures WorldInv(Last(x, run))
    decreases |run|
  {
    hide WorldInv, Possible, Next;
    if run != [] {
      MoveKeeps(x, run[0]);
      RunKeepsWorld(Next(x, run[0]), run[1..]);
    }
  }

  /** The kernel may finish any request in flight at any time, with any outcome. */
  lemma AnyFinish(x: World, j: nat, o: Kernel.Outcome)
    requires WorldInv(x) && j < |x.ring.inflight| && (o.Failed? ==> |o.debris| <= x.ring.inflight[j].len)
    ensures Possible(x, Finish(j, o))
  {
    hide WorldInv, Placed, Books, Content;
    PendingPlaced(x, j);
  }

  // ----- One call -----

  /** What the requests report, added up. */
  function Counts(job: Job, es: seq<Entry>): nat {
    if es == [] then 0 else Reported(job.op, job.file0, job.w.fOff + es[0].lo, es[0].len) + Counts(job, es[1..])
  }

  lemma {:induction false} CountsAdd(job: Job, es: seq<Entry>, fs: seq<Entry>)
    ensures Counts(job, es + fs) == Counts(job, es) + Counts(job, fs)
  {
    if es == [] {
      assert es + fs == fs;
    } else {
      CountsAdd(job, es[1..], fs);
      assert (es + fs)[1..] == es[1..] + fs;
    }
  }

  lemma CountsWithout(job: Job, fs: seq<Entry>, k: nat)
    requires k < |fs|
    ensures multiset(fs) == multiset{fs[k]} + multiset(fs[..k] + fs[k + 1..])
    ensures Counts(job, fs) == Counts(job, [fs[k]]) + Counts(job, fs[..k] + fs[k + 1..])
  {
    hide Counts;
    assert fs == fs[..k] + ([fs[k]] + fs[k + 1..]);
    CountsAdd(job, fs[..k], [fs[k]] + fs[k + 1..]);
    CountsAdd(job, [fs[k]], fs[k + 1..]);
    CountsAdd(job, fs[..k], fs[k + 1..]);
  }

  /** In whatever order. */
  lemma {:induction false} CountsPermute(job: Job, es: seq<Entry>, fs: seq<Entry>)
    requires multiset(es) == multiset(fs)
    ensures Counts(job, es) == Counts(job, fs)
    decreases |es|
  {
    hide Counts;
    if es == [] {
      assert |fs| == |multiset(fs)| == 0;
    } else {
      assert es[0] in multiset(fs);
      var k :| 0 <= k < |fs| && fs[k] == es[0];
      CountsWithout(job, es, 0);
      CountsWithout(job, fs, k);
      assert multiset(es[..0] + es[1..]) == multiset(fs) - multiset{es[0]} == multiset(fs[..k] + fs[k + 1..]);
      CountsPermute(job, es[..0] + es[1..], fs[..k] + fs[k + 1..]);
    }
  }

  /** Consecutive pieces report together what one big request would. */
  lemma {:induction false} CountsWhole(job: Job, es: seq<Entry>, lo: nat, hi: nat)
    requires Contiguous(es, lo, hi)
    ensures lo <= hi && Counts(job, es) == Reported(job.op, job.file0, job.w.fOff + lo, hi - lo)
    decreases |es|
  {
    if es != [] {
      CountsWhole(job, es[1..], lo + es[0].len, hi);
    }
  }

  lemma {:induction false} SumCounts(job: Job, mem: seq<Byte>, file: seq<Byte>, cs: seq<Completion>)
    requires Fits(job.w, |mem|) && |job.mem0| == |mem| && NoneFailed(cs)
    requires forall k :: 0 <= k < |cs| ==> Honest(job, mem, file, cs[k])
    ensures SumRes(cs) == Counts(job, Entries(cs))
    decreases |cs|
  {
    hide Fits;
    if cs != [] {
      var n := |cs| - 1;
      SumCounts(job, mem, file, cs[..n]);
      assert cs == cs[..n] + [cs[n]];
      EntriesAdd(cs[..n], [cs[n]]);
      CountsAdd(job, Entries(cs[..n]), Entries([cs[n]]));
      assert Entries([cs[n]]) == [cs[n].entry];
    }
  }

  /** The call has done what one pread or pwrite of its window would have done, at
      whatever moment between its beginning and now: its source has not changed in
      between, every byte of it has arrived, and the count is right. */
  ghost predicate OneCall(job: Job, mem: seq<Byte>, file: seq<Byte>, count: int)
    requires Fits(job.w, |mem|) && |job.mem0| == |mem|
  {
    && (forall i: nat :: i < job.w.n ==> SourceKept(job, mem, file, i) && Moving(job, mem, file, i))
    && count == Reported(job.op, job.file0, job.w.fOff, job.w.n)
  }

  lemma CountIsRight(th: Thread, job: Job, mem: seq<Byte>, file: seq<Byte>)
    requires Contiguous(th.planned, 0, th.n) && multiset(th.planned) == multiset(Entries(th.log)) && NoneFailed(th.log)
    requires CallInv(th, job, mem, file, th.log)
    ensures SumRes(th.log) == Reported(job.op, job.file0, job.w.fOff, job.w.n)
  {
    hide Fits, Honest, Contiguous, Entries, SumRes, Counts, NoneFailed, Reported;
    SumCounts(job, mem, file, th.log);
    CountsPermute(job, Entries(th.log), th.planned);
    CountsWhole(job, th.planned, 0, th.n);
  }

  lemma AllPlanned(t: nat, th: Thread)
    requires Books(t, th, multiset{}) && OnPlan(th) && th.phase == Running && th.n <= th.done
    ensures Contiguous(th.planned, 0, th.n) && multiset(th.planned) == multiset(Entries(th.log)) && NoneFailed(th.log)
    ensures th.total == SumRes(th.log)
  {
    hide Residue, Stuck, PackBytes, Contiguous, Entries, SumRes;
  }

  lemma DoneIsOneCall(t: nat, th: Thread, job: Job, mem: seq<Byte>, file: seq<Byte>)
    requires Books(t, th, multiset{}) && OnPlan(th) && th.phase == Running && th.n <= th.done
    requires CallInv(th, job, mem, file, th.log)
    ensures OneCall(job, mem, file, th.total)
  {
    hide Books, OnPlan, Fits, Contiguous, Entries, SumRes, NoneFailed, Reported, Moving, Honest, SourceKept, TargetKept;
    AllPlanned(t, th);
    CountIsRight(th, job, mem, file);
    forall i: nat | i < job.w.n ensures Moving(job, mem, file, i) {
      ByteArrived(th, job, mem, file, i);
    }
  }

  lemma {:induction false} PieceFor(es: seq<Entry>, lo: nat, hi: nat, i: nat) returns (k: nat)
    requires Contiguous(es, lo, hi) && lo <= i < hi
    ensures k < |es| && Has(es[k], i)
    decreases |es|
  {
    if i < lo + es[0].len {
      k := 0;
    } else {
      k := PieceFor(es[1..], lo + es[0].len, hi, i);
      k := k + 1;
    }
  }

  lemma ByteArrived(th: Thread, job: Job, mem: seq<Byte>, file: seq<Byte>, i: nat)
    requires Contiguous(th.planned, 0, th.n) && multiset(th.planned) == multiset(Entries(th.log)) && NoneFailed(th.log)
    requires CallInv(th, job, mem, file, th.log) && i < job.w.n
    ensures Moving(job, mem, file, i)
  {
    hide ValidRegion, Below, HostOf;
    var k := PieceFor(th.planned, 0, th.n, i);
    assert th.planned[k] in multiset(Entries(th.log));
    var j :| 0 <= j < |Entries(th.log)| && Entries(th.log)[j] == th.planned[k];
    EntriesHas(th.log, j);
    assert Honest(job, mem, file, th.log[j]);
  }

  /** Any number of threads, in any interleaving, with any completion order and any
      failing requests, as long as calls that run at the same time have disjoint
      windows: whenever a call is about to return its count, it has acted as one
      pread or pwrite of its whole window. */
  lemma ConcurrentCalls(x: World, run: seq<Move>, t: nat)
    requires Initial(x.ring) && |x.jobs| == |x.ring.threads| && Goes(x, run)
    requires Enabled(Last(x, run).ring, Return(t))
    ensures var f := Last(x, run);
      && t < |f.jobs| && SameJob(f.ring.threads[t], f.jobs[t], |f.mem|)
      && OneCall(f.jobs[t], f.mem, f.file, f.ring.threads[t].total)
  {
    hide WorldInv, Enabled, SameJob, OneCall;
    InitialWorld(x);
    RunKeepsWorld(x, run);
    ReturnIsOneCall(Last(x, run), t);
  }

  lemma ReturnIsOneCall(f: World, t: nat)
    requires WorldInv(f) && Enabled(f.ring, Return(t))
    ensures t < |f.jobs| && SameJob(f.ring.threads[t], f.jobs[t], |f.mem|)
    ensures OneCall(f.jobs[t], f.mem, f.file, f.ring.threads[t].total)
  {
    assert Active(f, t);
    CallOf(f, t);
    assert RingProtocol.Inv(f.ring);
    hide WorldInv, RingProtocol.Inv, JobInv, OneCall, Books, OnPlan;
    Outside(f.ring, t);
    NotHolding(f.ring, t);
    DoneIsOneCall(t, f.ring.threads[t], f.jobs[t], f.mem, f.file);
  }

  lemma NotHolding(s: State, t: nat)
    requires RingProtocol.Inv(s) && t < |s.threads| && s.threads[t].phase == Running
    ensures Finished(s, t) == s.threads[t].log
  {
    InvParts(s);
    hide RingProtocol.Inv, RingInv;
    assert !Holds(s.threads[t]);
  }

  lemma InitialWorld(x: World)
    requires Initial(x.ring) && |x.jobs| == |x.ring.threads|
    ensures WorldInv(x)
  {
    hide Served, CallInv, Apart;
  }

  // ----- What nobody is moving stays -----

  /** A read in progress has byte `a` of memory in its window. */
  ghost predicate ReadInto(x: World, a: nat) {
    exists t: nat :: Active(x, t) && t < |x.jobs| && ReadsInto(x.jobs[t], a)
  }

  ghost predicate ReadsInto(job: Job, a: nat) {
    job.op.Read? && Shaped(job.w) && InWindow(job.w, a)
  }

  /** A write in progress has byte `p` of the file in its window. */
  ghost predicate WrittenTo(x: World, p: nat) {
    exists t: nat :: Active(x, t) && t < |x.jobs| && WritesTo(x.jobs[t], p)
  }

  predicate WritesTo(job: Job, p: nat) {
    job.op.Write? && job.w.fOff <= p < job.w.fOff + job.w.n
  }

  /** Byte `p` of the file; what is not there reads as zero once the file grows. */
  function ByteAt(file: seq<Byte>, p: nat): Byte {
    if p < |file| then file[p] else 0
  }

  /** Memory and file outside the windows in progress are the same. */
  ghost predicate SameElsewhere(x: World, x': World) {
    && |x'.mem| == |x.mem| && |x.file| <= |x'.file|
    && (|x.file| < |x'.file| ==> WrittenTo(x, |x'.file| - 1))
    && (forall a: nat :: a < |x.mem| && !ReadInto(x, a) ==> x'.mem[a] == x.mem[a])
    && (forall p: nat :: !WrittenTo(x, p) ==> ByteAt(x'.file, p) == ByteAt(x.file, p))
  }

  /** A byte that reading a piece changes lies in the window. */
  lemma ReadStaysInside(job: Job, mem: seq<Byte>, e: Entry, moved: seq<Byte>, a: nat)
    requires job.op.Read? && Fits(job.w, |mem|) && Placed(job.w, e, |mem|) && |moved| <= e.len
    requires a < |mem| && !ReadsInto(job, a)
    ensures Kernel.Splice(mem, Host(job.w.r, job.w.bufOff + e.lo), moved)[a] == mem[a]
  {
    hide ValidRegion, Below, HostOf, Host;
    var start := Host(job.w.r, job.w.bufOff + e.lo);
    if start <= a < start + |moved| {
      HostRun(job.w, |mem|, e, a - start);
    }
  }

  lemma MoveFrame(x: World, m: Move)
    requires WorldInv(x) && Possible(x, m)
    ensures SameElsewhere(x, Next(x, m))
  {
    if m.Finish? {
      PendingPlaced(x, m.j);
      CallOf(x, x.ring.inflight[m.j].tid);
      hide WorldInv, Books, Content, JobInv, RingStep;
      FinishFrame(x, m);
    }
  }

  lemma FinishFrame(x: World, m: Move)
    requires Possible(x, m) && m.Finish?
    requires var t := x.ring.inflight[m.j].tid; Active(x, t) && t < |x.jobs| && Fits(x.jobs[t].w, |x.mem|)
    ensures SameElsewhere(x, Next(x, m))
  {
    hide ValidRegion, Below, Host, Moved, RingStep, ReadsInto, WritesTo, Shaped;
    var e, x' := x.ring.inflight[m.j], Next(x, m);
    var job, moved := x.jobs[e.tid], Moved(x, e, m.o);
    if job.op.Read? {
      forall a: nat | a < |x.mem| && !ReadInto(x, a) ensures x'.mem[a] == x.mem[a] {
        assert !ReadsInto(job, a);
        ReadStaysInside(job, x.mem, e, moved, a);
      }
    } else {
      forall p: nat | !WrittenTo(x, p) ensures ByteAt(x'.file, p) == ByteAt(x.file, p) {
        assert !WritesTo(job, p);
        WriteStaysInside(job, x.file, e, moved, p);
      }
      WriteGrows(job, x.file, e, moved);
    }
  }

  lemma WriteStaysInside(job: Job, file: seq<Byte>, e: Entry, moved: seq<Byte>, p: nat)
    requires job.op.Write? && e.lo + e.len <= job.w.n && |moved| <= e.len && !WritesTo(job, p)
    ensures ByteAt(Kernel.Pwrite(file, job.w.fOff + e.lo, moved), p) == ByteAt(file, p)
  {
  }

  lemma WriteGrows(job: Job, file: seq<Byte>, e: Entry, moved: seq<Byte>)
    requires job.op.Write? && e.lo + e.len <= job.w.n && |moved| <= e.len
    ensures var file' := Kernel.Pwrite(file, job.w.fOff + e.lo, moved);
      |file| <= |file'| && (|file| < |file'| ==> WritesTo(job, |file'| - 1))
  {
  }

  /** No read in the run ever has byte `a` in its window. */
  ghost predicate NeverReadInto(x: World, run: seq<Move>, a: nat)
    requires Goes(x, run)
    decreases |run|
  {
    run == [] || (!ReadInto(x, a) && NeverReadInto(Next(x, run[0]), run[1..], a))
  }

  /** No write in the run ever has byte `p` in its window. */
  ghost predicate NeverWrittenTo(x: World, run: seq<Move>, p: nat)
    requires Goes(x, run)
    decreases |run|
  {
    run == [] || (!WrittenTo(x, p) && NeverWrittenTo(Next(x, run[0]), run[1..], p))
  }

  lemma {:induction false} RunFrame(x: World, run: seq<Move>, i: nat)
    requires WorldInv(x) && Goes(x, run)
    ensures |Last(x, run).mem| == |x.mem| && |x.file| <= |Last(x, run).file|
    ensures i < |x.mem| && NeverReadInto(x, run, i) ==> Last(x, run).mem[i] == x.mem[i]
    ensures NeverWrittenTo(x, run, i) ==> ByteAt(Last(x, run).file, i) == ByteAt(x.file, i)
    decreases |run|
  {
    hide WorldInv, Possible, Next, ReadInto, WrittenTo, ByteAt;
    if run != [] {
      MoveKeeps(x, run[0]);
      MoveFrame(x, run[0]);
      RunFrame(Next(x, run[0]), run[1..], i);
    }
  }

  /** In every run, failing requests included, a byte of memory or of the file changes
      only while a call that has it in its window is in progress. */
  lemma ConcurrentFrame(x: World, run: seq<Move>)
    requires Initial(x.ring) && |x.jobs| == |x.ring.threads| && Goes(x, run)
    ensures |Last(x, run).mem| == |x.mem| && |x.file| <= |Last(x, run).file|
    ensures forall a: nat :: a < |x.mem| && NeverReadInto(x, run, a) ==> Last(x, run).mem[a] == x.mem[a]
    ensures forall p: nat :: NeverWrittenTo(x, run, p) ==> ByteAt(Last(x, run).file, p) == ByteAt(x.file, p)
  {
    hide WorldInv, Goes, NeverReadInto, NeverWrittenTo, Last, ByteAt;
    InitialWorld(x);
    RunFrame(x, run, 0);
    forall a: nat | a < |x.mem| && NeverReadInto(x, run, a) ensures Last(x, run).mem[a] == x.mem[a] {
      RunFrame(x, run, a);
    }
    forall p: nat | NeverWrittenTo(x, run, p) ensures ByteAt(Last(x, run).file, p) == ByteAt(x.file, p) {
      RunFrame(x, run, p);
    }
  }
}
