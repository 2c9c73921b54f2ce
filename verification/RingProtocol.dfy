/** Any number of threads sharing one device's ring. Each turn of the outer loop
    of fgds_read or fgds_write holds the ring lock from filling the queue to
    reaping the last completion; between turns other threads may run. The kernel
    completes requests at any time, in any order, with any result. */
module RingProtocol {
  import opened Layout
  import opened Options
  import opened Packing
  import opened Sizes

  /** A ring entry. The tags say which call prepared it and for which bytes; the
      code never looks at them. */
  datatype Entry = Entry(tid: nat, call: nat, lo: nat, len: nat)

  datatype Completion = Completion(entry: Entry, res: int)

  /** Where a thread is: outside the library, between turns, or in a turn
      (filling the queue, reaping, or draining after a failure). */
  datatype Phase = Idle | Running | Filling | Reaping | Draining

  /** The local variables of a call, with two history variables: the entries it
      has prepared and the completions it has reaped. */
  datatype Thread = Thread(
    phase: Phase, call: nat,
    off: nat, n: nat, limit: nat,
    done: nat, bytes: nat, used: nat, submitted: nat, reaped: nat, total: int,
    result: Option<int>,
    planned: seq<Entry>, log: seq<Completion>)

  datatype State = State(
    threads: seq<Thread>, lock: Option<nat>,
    sq: seq<Entry>, inflight: seq<Entry>, cq: seq<Completion>)

  datatype Step =
    | Call(t: nat, off: nat, n: nat, limit: nat)
    | Acquire(t: nat)
    | Prepare(t: nat)
    | Refuse(t: nat)
    | Exhaust(t: nat)
    | Submit(t: nat)
    | Complete(j: nat, res: int)
    | Reap(t: nat)
    | Release(t: nat)
    | Return(t: nat)

  /** The entries of a sub-I/O: bytes [lo, lo + n) of the call, cut at segment
      boundaries of the buffer. */
  function Cut(tid: nat, call: nat, off: nat, lo: nat, n: nat): (es: seq<Entry>)
    ensures forall e :: e in es ==> e.tid == tid && e.call == call
    decreases n
  {
    if n == 0 then [] else
      var k := Chunk(off + lo, n);
      [Entry(tid, call, lo, k)] + Cut(tid, call, off, lo + k, n - k)
  }

  /** The next sub-I/O of a thread that is filling the queue. */
  function NextSize(th: Thread): nat
    requires th.done + th.bytes <= th.n
  {
    SubSize(th.n - th.done - th.bytes)
  }

  predicate MoreToFill(th: Thread) {
    th.used < QUEUE_DEPTH && th.done + th.bytes < th.n
  }

  predicate FitsLimit(th: Thread)
    requires th.done + th.bytes <= th.n
  {
    th.off + th.done + th.bytes + NextSize(th) <= th.limit
  }

  predicate FitsRing(th: Thread)
    requires th.done + th.bytes < th.n
  {
    th.used + Touched(th.off + th.done + th.bytes, NextSize(th)) <= QUEUE_DEPTH
  }

  /** The entries of the next sub-I/O. */
  function NextEntries(s: State, t: nat): seq<Entry>
    requires t < |s.threads| && s.threads[t].done + s.threads[t].bytes < s.threads[t].n
  {
    var th := s.threads[t];
    Cut(t, th.call, th.off, th.done + th.bytes, NextSize(th))
  }

  /** The submission queue has free slots for the next sub-I/O. The code takes
      this for granted, because it expects to find the queue empty. */
  predicate FitsQueue(s: State, t: nat)
    requires t < |s.threads| && s.threads[t].done + s.threads[t].bytes < s.threads[t].n
  {
    |s.sq| + |NextEntries(s, t)| <= QUEUE_DEPTH
  }

  /** The queue after as many of the entries as there are free slots. */
  function Stuffed(sq: seq<Entry>, es: seq<Entry>): seq<Entry> {
    if |sq| + |es| <= QUEUE_DEPTH then sq + es
    else if |sq| <= QUEUE_DEPTH then sq + es[..QUEUE_DEPTH - |sq|]
    else sq
  }

  predicate Enabled(s: State, a: Step) {
    match a
    case Call(t, off, n, limit) => t < |s.threads| && s.threads[t].phase == Idle && 0 < n
    case Acquire(t) => t < |s.threads| && s.threads[t].phase == Running && s.lock == None
      && s.threads[t].done < s.threads[t].n
    case Prepare(t) => t < |s.threads| && s.threads[t].phase == Filling &&
                       MoreToFill(s.threads[t]) && FitsLimit(s.threads[t]) && FitsRing(s.threads[t]) &&
                       FitsQueue(s, t)
    case Exhaust(t) => t < |s.threads| && s.threads[t].phase == Filling &&
                       MoreToFill(s.threads[t]) && FitsLimit(s.threads[t]) && FitsRing(s.threads[t]) &&
                       !FitsQueue(s, t)
    case Refuse(t) => t < |s.threads| && s.threads[t].phase == Filling && MoreToFill(s.threads[t])
      && !FitsLimit(s.threads[t])
    case Submit(t) => t < |s.threads| && s.threads[t].phase == Filling &&
                      (!MoreToFill(s.threads[t]) || (FitsLimit(s.threads[t]) && !FitsRing(s.threads[t])))
    case Complete(j, res) => j < |s.inflight| && res <= s.inflight[j].len
    case Reap(t) => t < |s.threads| && s.threads[t].phase in {Reaping, Draining} &&
                    s.threads[t].reaped < s.threads[t].submitted && s.cq != []
    case Release(t) => t < |s.threads| && s.threads[t].phase in {Reaping, Draining} &&
                       s.threads[t].reaped == s.threads[t].submitted
    case Return(t) => t < |s.threads| && s.threads[t].phase == Running && s.threads[t].done >= s.threads[t].n
  }

  function Update(s: State, t: nat, th: Thread): State
    requires t < |s.threads|
  {
    s.(threads := s.threads[t := th])
  }

  function Apply(s: State, a: Step): State
    requires Enabled(s, a)
  {
    match a
    case Call(t, off, n, limit) =>
      var th := s.threads[t];
      Update(s, t, Thread(Running, th.call + 1, off, n, limit, 0, 0, 0, 0, 0, 0, None, [], []))
    case Acquire(t) =>
      Update(s.(lock := Some(t)), t, s.threads[t].(phase := Filling, used := 0, bytes := 0, submitted := 0,
        reaped := 0))
    case Prepare(t) =>
      var th, es := s.threads[t], NextEntries(s, t);
      Update(s.(sq := s.sq + es), t,
             th.(used := th.used + |es|, bytes := th.bytes + NextSize(th), planned := th.planned + es))
    case Refuse(t) =>
      Update(s.(lock := None), t, s.threads[t].(phase := Idle, result := Some(-1)))
    case Exhaust(t) =>
      Update(s.(lock := None, sq := Stuffed(s.sq, NextEntries(s, t))), t,
             s.threads[t].(phase := Idle, result := Some(-1)))
    case Submit(t) =>
      Update(s.(inflight := s.inflight + s.sq, sq := []), t, s.threads[t].(phase := Reaping, submitted := |s.sq|))
    case Complete(j, res) =>
      s.(inflight := s.inflight[..j] + s.inflight[j + 1..], cq := s.cq + [Completion(s.inflight[j], res)])
    case Reap(t) =>
      var th, c := s.threads[t], s.cq[0];
      var th' := th.(reaped := th.reaped + 1, log := th.log + [c]);
      Update(s.(cq := s.cq[1..]), t,
             if th.phase == Draining then th'
             else if c.res < 0 then th'.(phase := Draining)
             else th'.(total := th.total + c.res))
    case Release(t) =>
      var th := s.threads[t];
      Update(s.(lock := None), t,
             if th.phase == Draining then th.(phase := Idle, result := Some(-1))
             else th.(phase := Running, done := th.done + th.bytes, bytes := 0))
    case Return(t) =>
      Update(s, t, s.threads[t].(phase := Idle, result := Some(s.threads[t].total)))
  }

  // ----- The invariant -----

  predicate Holds(th: Thread) {
    th.phase in {Filling, Reaping, Draining}
  }

  predicate Quiet(s: State) {
    s.sq == [] && s.inflight == [] && s.cq == []
  }

  function Entries(cs: seq<Completion>): (es: seq<Entry>)
    ensures |es| == |cs|
  {
    if cs == [] then [] else [cs[0].entry] + Entries(cs[1..])
  }

  function SumRes(cs: seq<Completion>): int {
    if cs == [] then 0 else SumRes(cs[..|cs| - 1]) + cs[|cs| - 1].res
  }

  predicate NoneFailed(cs: seq<Completion>) {
    forall c :: c in cs ==> 0 <= c.res
  }

  /** The entries cover bytes [lo, hi) of a call, in order, each byte once. */
  predicate Contiguous(es: seq<Entry>, lo: nat, hi: nat)
    decreases |es|
  {
    if es == [] then lo == hi
    else es[0].lo == lo && 0 < es[0].len && Contiguous(es[1..], lo + es[0].len, hi)
  }

  /** Everything the ring holds: prepared, in flight, or completed and unreaped. */
  function Content(s: State): multiset<Entry> {
    multiset(s.sq) + multiset(s.inflight) + multiset(Entries(s.cq))
  }

  /** The part of the ring's content that thread `t` must account for. */
  function Share(s: State, t: nat): multiset<Entry> {
    if s.lock == Some(t) then Content(s) else multiset{}
  }

  predicate LockInv(s: State) {
    && (s.lock.Some? ==> s.lock.value < |s.threads|)
    && forall t :: 0 <= t < |s.threads| ==> (Holds(s.threads[t]) <==> s.lock == Some(t))
  }

  predicate RingInv(s: State) {
    match s.lock
    case None => Quiet(s)
    case Some(t) =>
      t < |s.threads| &&
      match s.threads[t].phase
      case Filling => s.inflight == [] && s.cq == [] && s.threads[t].reaped == 0
        && |s.sq| == s.threads[t].used <= QUEUE_DEPTH
      case _ => s.sq == [] && |s.inflight| + |s.cq| + s.threads[t].reaped == s.threads[t].submitted
  }

  /** The books of a call: the entries it prepared are its own and tile its bytes
      so far; each has been reaped by this very call or is still in the ring; and
      the total is the sum of the results it reaped. */
  ghost predicate Books(t: nat, th: Thread, share: multiset<Entry>) {
    && Contiguous(th.planned, 0, th.done + th.bytes)
    && (forall e :: e in th.planned ==> e.tid == t && e.call == th.call)
    && multiset(th.planned) == multiset(Entries(th.log)) + share
    && (th.phase != Draining ==> th.total == SumRes(th.log) && NoneFailed(th.log))
  }

  /** The call is packing its bytes as planned and will not be refused half way. */
  ghost predicate OnPlan(th: Thread) {
    && th.done + th.bytes <= th.n
    && Residue(th.off + th.done, th.n - th.done, th.limit) == 0
    && match th.phase
       case Running => th.bytes == 0
       case Filling =>
         && th.done < th.n
         && Stuck(th.off + th.done, th.n - th.done, 0, th.limit) ==
            Stuck(th.off + (th.done + th.bytes), th.n - (th.done + th.bytes), th.used, th.limit)
         && PackBytes(th.off + th.done, th.n - th.done, 0) ==
            th.bytes + PackBytes(th.off + (th.done + th.bytes), th.n - (th.done + th.bytes), th.used)
       case _ =>
         && th.done < th.n
         && Stuck(th.off + th.done, th.n - th.done, 0, th.limit).None?
         && th.bytes == PackBytes(th.off + th.done, th.n - th.done, 0)
  }

  /** A call that returned a count moved exactly its own bytes, each once. */
  ghost predicate Served(t: nat, th: Thread) {
    && Contiguous(th.planned, 0, th.n)
    && (forall e :: e in th.planned ==> e.tid == t && e.call == th.call)
    && multiset(Entries(th.log)) == multiset(th.planned)
    && NoneFailed(th.log)
    && th.result == Some(SumRes(th.log))
  }

  ghost predicate ThreadInv(t: nat, th: Thread, share: multiset<Entry>) {
    if th.phase == Idle then th.result == None || th.result == Some(-1) || Served(t, th)
    else Books(t, th, share) && OnPlan(th)
  }

  ghost predicate Inv(s: State) {
    LockInv(s) && RingInv(s) && forall t :: 0 <= t < |s.threads| ==> ThreadInv(t, s.threads[t], Share(s, t))
  }

  predicate Initial(s: State) {
    s.lock == None && Quiet(s) && forall t :: 0 <= t < |s.threads| ==>
      s.threads[t].phase == Idle && s.threads[t].result == None
  }

  /** A call whose window leaves no residue; in particular any window that lies
      inside its registration (InRangeNoResidue). */
  predicate Tame(a: Step) {
    a.Call? ==> Residue(a.off, a.n, a.limit) == 0
  }

  lemma {:induction false} ContiguousAppend(es: seq<Entry>, fs: seq<Entry>, lo: nat, mid: nat, hi: nat)
    requires Contiguous(es, lo, mid) && Contiguous(fs, mid, hi)
    ensures Contiguous(es + fs, lo, hi)
    decreases |es|
  {
    if es == [] {
      assert es + fs == fs;
    } else {
      ContiguousAppend(es[1..], fs, lo + es[0].len, mid, hi);
      assert (es + fs)[1..] == es[1..] + fs;
    }
  }

  lemma {:induction false} CutIsContiguous(tid: nat, call: nat, off: nat, lo: nat, n: nat)
    ensures Contiguous(Cut(tid, call, off, lo, n), lo, lo + n)
    ensures 0 < n ==> |Cut(tid, call, off, lo, n)| == Touched(off + lo, n)
    decreases n
  {
    hide Chunk, Touched;
    if n != 0 {
      var k := Chunk(off + lo, n);
      CutIsContiguous(tid, call, off, lo + k, n - k);
      NextSegment(off + lo, n);
      assert Cut(tid, call, off, lo, n)[1..] == Cut(tid, call, off, lo + k, n - k);
      assert off + lo + k == off + (lo + k);
    }
  }

  lemma {:induction false} EntriesSnoc(cs: seq<Completion>, c: Completion)
    ensures Entries(cs + [c]) == Entries(cs) + [c.entry]
  {
    if cs == [] {
      assert (cs + [c])[1..] == [];
    } else {
      EntriesSnoc(cs[1..], c);
      assert (cs + [c])[1..] == cs[1..] + [c];
    }
  }

  lemma SumSnoc(cs: seq<Completion>, c: Completion)
    ensures SumRes(cs + [c]) == SumRes(cs) + c.res
  {
    assert (cs + [c])[..|cs|] == cs;
  }

  // ----- Every step keeps the invariant -----

  predicate LockOf(s: State, t: nat) {
    s.lock == None || s.lock == Some(t)
  }

  /** Thread `t` moved, only it can hold the lock, and its own part is in order. */
  lemma OneThreadMoved(s: State, s': State, t: nat, th: Thread)
    requires Inv(s) && t < |s.threads| && s'.threads == s.threads[t := th]
    requires LockOf(s, t) && LockOf(s', t)
    requires Holds(th) <==> s'.lock == Some(t)
    requires RingInv(s') && ThreadInv(t, th, Share(s', t))
    ensures Inv(s')
  {
    hide ThreadInv, RingInv, Content;
  }

  /** What the invariant says about a thread that holds the lock. */
  lemma Holder(s: State, t: nat)
    requires Inv(s) && t < |s.threads| && Holds(s.threads[t])
    ensures s.lock == Some(t) && Books(t, s.threads[t], Content(s)) && OnPlan(s.threads[t])
  {
    hide Content, RingInv, Books, OnPlan;
    assert ThreadInv(t, s.threads[t], Share(s, t));
  }

  /** A step of the lock holder that keeps the lock. */
  lemma HolderMoved(s: State, s': State, t: nat, th: Thread)
    requires Inv(s) && t < |s.threads| && s'.threads == s.threads[t := th]
    requires s.lock == Some(t) == s'.lock && Holds(th)
    requires RingInv(s') && Books(t, th, Content(s')) && OnPlan(th)
    ensures Inv(s')
  {
    hide Content, RingInv, Books, OnPlan;
    OneThreadMoved(s, s', t, th);
  }

  lemma RingUnmoved(s: State, s': State, t: nat)
    requires LockInv(s) && RingInv(s) && t < |s.threads| && s.lock != Some(t)
    requires |s'.threads| == |s.threads| && (forall u :: 0 <= u < |s.threads| && u != t ==>
      s'.threads[u] == s.threads[u])
    requires s'.lock == s.lock && s'.sq == s.sq && s'.inflight == s.inflight && s'.cq == s.cq
    ensures RingInv(s')
  {
  }

  /** A step of a thread that neither holds nor takes the lock. */
  lemma BystanderMoved(s: State, s': State, t: nat, th: Thread)
    requires Inv(s) && t < |s.threads| && s' == Update(s, t, th)
    requires !Holds(s.threads[t]) && !Holds(th) && ThreadInv(t, th, multiset{})
    ensures Inv(s')
  {
    assert Content(s') == Content(s) by { hide Entries, Inv, ThreadInv; }
    hide ThreadInv, Content, RingInv;
    assert RingInv(s') by { RingUnmoved(s, s', t); }
    assert s.lock != Some(t);
    assert Share(s', t) == multiset{};
    forall u | 0 <= u < |s.threads| ensures ThreadInv(u, s'.threads[u], Share(s', u)) {
      assert Share(s', u) == Share(s, u);
      assert ThreadInv(u, s.threads[u], Share(s, u));
    }
  }

  lemma KeepsCall(s: State, a: Step)
    requires Inv(s) && Enabled(s, a) && a.Call? && Tame(a)
    ensures Inv(Apply(s, a))
  {
    hide Inv, Residue, Stuck, PackBytes;
    var s' := Apply(s, a);
    var th := s'.threads[a.t];
    assert Books(a.t, th, multiset{}) && OnPlan(th);
    BystanderMoved(s, s', a.t, th);
  }

  /** A thread between turns owes nothing to the ring. */
  lemma Outside(s: State, t: nat)
    requires Inv(s) && t < |s.threads| && s.threads[t].phase == Running
    ensures Books(t, s.threads[t], multiset{}) && OnPlan(s.threads[t])
  {
    hide Books, OnPlan, Content, RingInv;
    assert ThreadInv(t, s.threads[t], Share(s, t));
  }

  lemma ReturnServes(t: nat, th: Thread, th': Thread)
    requires Books(t, th, multiset{}) && OnPlan(th) && th.phase == Running && th.n <= th.done
    requires th' == th.(phase := Idle, result := Some(th.total))
    ensures Served(t, th')
  {
    hide Residue, Stuck, PackBytes, Contiguous, SumRes, Entries;
  }

  lemma KeepsReturn(s: State, a: Step)
    requires Inv(s) && Enabled(s, a) && a.Return?
    ensures Inv(Apply(s, a))
  {
    hide Inv, Served, Books, OnPlan;
    Outside(s, a.t);
    var s' := Apply(s, a);
    ReturnServes(a.t, s.threads[a.t], s'.threads[a.t]);
    BystanderMoved(s, s', a.t, s'.threads[a.t]);
  }

  lemma KeepsAcquire(s: State, a: Step)
    requires Inv(s) && Enabled(s, a) && a.Acquire?
    ensures Inv(Apply(s, a))
  {
    hide Residue, Stuck, PackBytes;
    var s', t := Apply(s, a), a.t;
    assert Content(s') == multiset{};
    OneThreadMoved(s, s', t, s'.threads[t]);
  }

  predicate Prepared(th: Thread, th': Thread, es: seq<Entry>)
    requires th.done + th.bytes <= th.n
  {
    th' == th.(used := th.used + |es|, bytes := th.bytes + NextSize(th), planned := th.planned + es)
  }

  /** Preparing a sub-I/O extends the tiling and puts the new entries in the ring. */
  lemma BooksPrepare(t: nat, th: Thread, th': Thread, es: seq<Entry>, ring: multiset<Entry>)
    requires Books(t, th, ring) && th.done + th.bytes < th.n
    requires es == Cut(t, th.call, th.off, th.done + th.bytes, NextSize(th))
    requires Prepared(th, th', es)
    ensures Books(t, th', ring + multiset(es))
  {
    hide Contiguous, Cut, SumRes, Entries, SubSize;
    var pos, size := th.done + th.bytes, NextSize(th);
    CutIsContiguous(t, th.call, th.off, pos, size);
    ContiguousAppend(th.planned, es, 0, pos, pos + size);
  }

  lemma PlanPrepare(th: Thread, th': Thread, es: seq<Entry>)
    requires OnPlan(th) && th.phase == Filling && MoreToFill(th) && FitsLimit(th) && FitsRing(th)
    requires Prepared(th, th', es) && |es| == Touched(th.off + (th.done + th.bytes), NextSize(th))
    ensures OnPlan(th')
  {
    hide Residue, Stuck, PackBytes, Touched;
    var pos := th.done + th.bytes;
    PackTurn(th.off + pos, th.n - pos, th.used, th.limit);
    assert th.off + pos + NextSize(th) == th.off + (th'.done + th'.bytes);
    assert th.n - pos - NextSize(th) == th.n - (th'.done + th'.bytes);
  }

  lemma RingPrepare(s: State, a: Step, es: seq<Entry>)
    requires Enabled(s, a) && a.Prepare? && RingInv(s) && s.lock == Some(a.t)
    requires es == Cut(a.t, s.threads[a.t].call, s.threads[a.t].off, s.threads[a.t].done + s.threads[a.t].bytes,
      NextSize(s.threads[a.t]))
    ensures RingInv(Apply(s, a)) && Content(Apply(s, a)) == Content(s) + multiset(es)
    ensures |es| == Touched(s.threads[a.t].off + (s.threads[a.t].done + s.threads[a.t].bytes), NextSize(s.threads[a.t]))
  {
    hide Cut, Touched;
    var th := s.threads[a.t];
    CutIsContiguous(a.t, th.call, th.off, th.done + th.bytes, NextSize(th));
    assert th.off + th.done + th.bytes == th.off + (th.done + th.bytes);
  }

  lemma PrepareStep(s: State, a: Step) returns (th: Thread, th': Thread, es: seq<Entry>)
    requires Enabled(s, a) && a.Prepare?
    ensures a.t < |s.threads| && th == s.threads[a.t] && Apply(s, a).threads == s.threads[a.t := th']
    ensures th.phase == Filling && Holds(th) && Holds(th') && Apply(s, a).lock == s.lock
    ensures MoreToFill(th) && th.done + th.bytes < th.n && FitsLimit(th) && FitsRing(th)
    ensures es == Cut(a.t, th.call, th.off, th.done + th.bytes, NextSize(th)) && Prepared(th, th', es)
  {
    hide Touched, SubSize, Cut;
    th, th' := s.threads[a.t], Apply(s, a).threads[a.t];
    es := Cut(a.t, th.call, th.off, th.done + th.bytes, NextSize(th));
  }

  lemma InvParts(s: State)
    requires Inv(s)
    ensures RingInv(s) && LockInv(s)
  {
  }

  lemma KeepsPrepare(s: State, a: Step)
    requires Inv(s) && Enabled(s, a) && a.Prepare?
    ensures Inv(Apply(s, a))
  {
    hide *;
    var th, th', es := PrepareStep(s, a);
    Holder(s, a.t);
    InvParts(s);
    RingPrepare(s, a, es);
    BooksPrepare(a.t, th, th', es, Content(s));
    PlanPrepare(th, th', es);
    HolderMoved(s, Apply(s, a), a.t, th');
  }

  lemma NextCount(s: State, t: nat)
    requires t < |s.threads| && s.threads[t].done + s.threads[t].bytes < s.threads[t].n
    ensures FitsRing(s.threads[t]) <==> s.threads[t].used + |NextEntries(s, t)| <= QUEUE_DEPTH
    ensures |NextEntries(s, t)| ==
            Touched(s.threads[t].off + (s.threads[t].done + s.threads[t].bytes), NextSize(s.threads[t]))
  {
    hide Cut, Touched;
    var th := s.threads[t];
    CutIsContiguous(t, th.call, th.off, th.done + th.bytes, NextSize(th));
    assert th.off + th.done + th.bytes == th.off + (th.done + th.bytes);
  }

  lemma OnlyItsOwn(s: State, t: nat)
    requires LockInv(s) && RingInv(s) && t < |s.threads| && s.threads[t].phase == Filling
    ensures |s.sq| == s.threads[t].used
  {
  }

  /** With the books in order the queue holds only this batch, which was checked
      to fit. */
  lemma NeverExhausted(s: State, t: nat)
    requires Inv(s)
    ensures !Enabled(s, Exhaust(t))
  {
    hide NextEntries, FitsRing, Inv, RingInv, LockInv;
    if Enabled(s, Exhaust(t)) {
      InvParts(s);
      OnlyItsOwn(s, t);
      NextCount(s, t);
      assert false;
    }
  }

  /** A refused sub-I/O of a call that leaves no residue is the first of its turn. */
  lemma RefusedAtOnce(th: Thread)
    requires OnPlan(th) && th.phase == Filling && MoreToFill(th) && !FitsLimit(th)
    ensures th.used == 0
  {
    hide Residue, Stuck, PackBytes, Touched;
    var pos := th.done + th.bytes;
    PackTurn(th.off + pos, th.n - pos, th.used, th.limit);
    ResidueTurn(th.off + th.done, th.n - th.done, th.limit);
  }

  lemma ResidueTurn(off: nat, rem: nat, limit: nat)
    requires 0 < rem
    ensures Stuck(off, rem, 0, limit).Some? ==> Residue(off, rem, limit) == Stuck(off, rem, 0, limit).value
    ensures Stuck(off, rem, 0, limit).None? ==>
      0 < PackBytes(off, rem, 0) &&
      Residue(off, rem, limit) == Residue(off + PackBytes(off, rem, 0), rem - PackBytes(off, rem, 0), limit)
  {
    BatchIsFull(off, rem);
  }

  lemma KeepsRefuse(s: State, a: Step)
    requires Inv(s) && Enabled(s, a) && a.Refuse?
    ensures Inv(Apply(s, a))
  {
    var s', t := Apply(s, a), a.t;
    Holder(s, t);
    assert RingInv(s);
    hide Inv, Books, OnPlan, Touched, SubSize;
    RefusedAtOnce(s.threads[t]);
    OneThreadMoved(s, s', t, s'.threads[t]);
  }

  lemma PlanSubmit(th: Thread, th': Thread)
    requires OnPlan(th) && th.phase == Filling && (!MoreToFill(th) || (FitsLimit(th) && !FitsRing(th)))
    requires th'.phase == Reaping && th'.off == th.off && th'.n == th.n && th'.limit == th.limit && th'.done == th.done
    requires th'.bytes == th.bytes
    ensures OnPlan(th')
  {
    hide Residue, Stuck, PackBytes, Touched;
    var pos := th.done + th.bytes;
    PackTurn(th.off + pos, th.n - pos, th.used, th.limit);
    assert th.off + pos == th.off + th.done + th.bytes;
  }

  lemma RingSubmit(s: State, a: Step)
    requires Enabled(s, a) && a.Submit? && RingInv(s) && s.lock == Some(a.t)
    ensures RingInv(Apply(s, a)) && Content(Apply(s, a)) == Content(s)
  {
    hide Touched, SubSize;
    assert s.inflight + s.sq == s.sq;
  }

  lemma BooksSubmit(t: nat, th: Thread, th': Thread, ring: multiset<Entry>, k: nat)
    requires Books(t, th, ring) && th.phase == Filling && th' == th.(phase := Reaping, submitted := k)
    ensures Books(t, th', ring)
  {
    hide Contiguous, Entries, SumRes;
  }

  lemma SubmitStep(s: State, a: Step) returns (th: Thread, th': Thread)
    requires Enabled(s, a) && a.Submit?
    ensures a.t < |s.threads| && th == s.threads[a.t] && Apply(s, a).threads == s.threads[a.t := th']
    ensures th.phase == Filling && Holds(th) && Holds(th') && Apply(s, a).lock == s.lock
    ensures !MoreToFill(th) || (FitsLimit(th) && !FitsRing(th))
    ensures th' == th.(phase := Reaping, submitted := |s.sq|)
  {
    hide Touched, SubSize;
    th, th' := s.threads[a.t], Apply(s, a).threads[a.t];
  }

  lemma KeepsSubmit(s: State, a: Step)
    requires Inv(s) && Enabled(s, a) && a.Submit?
    ensures Inv(Apply(s, a))
  {
    hide *;
    var th, th' := SubmitStep(s, a);
    Holder(s, a.t);
    InvParts(s);
    RingSubmit(s, a);
    BooksSubmit(a.t, th, th', Content(s), |s.sq|);
    PlanSubmit(th, th');
    HolderMoved(s, Apply(s, a), a.t, th');
  }

  lemma CompleteMoves(s: State, a: Step)
    requires Enabled(s, a) && a.Complete?
    ensures Content(Apply(s, a)) == Content(s)
  {
    hide Entries;
    var rest, e := s.inflight[..a.j] + s.inflight[a.j + 1..], s.inflight[a.j];
    var c := Completion(e, a.res);
    assert Apply(s, a) == s.(inflight := rest, cq := s.cq + [c]);
    hide Apply, Enabled;
    assert s.inflight == s.inflight[..a.j] + [e] + s.inflight[a.j + 1..];
    assert multiset(s.inflight) == multiset(rest) + multiset{e};
    EntriesSnoc(s.cq, c);
  }

  lemma KeepsComplete(s: State, a: Step)
    requires Inv(s) && Enabled(s, a) && a.Complete?
    ensures Inv(Apply(s, a))
  {
    hide ThreadInv, Content;
    var s' := Apply(s, a);
    CompleteMoves(s, a);
    forall u | 0 <= u < |s.threads| ensures ThreadInv(u, s'.threads[u], Share(s', u)) {
      assert Share(s', u) == Share(s, u);
      assert ThreadInv(u, s.threads[u], Share(s, u));
    }
  }

  lemma EntriesHead(cs: seq<Completion>)
    requires cs != []
    ensures multiset(Entries(cs)) == multiset{cs[0].entry} + multiset(Entries(cs[1..]))
  {
  }

  lemma BooksReap(t: nat, th: Thread, th': Thread, c: Completion, ring: multiset<Entry>)
    requires Books(t, th, ring + multiset{c.entry})
    requires th'.planned == th.planned && th'.done == th.done && th'.bytes == th.bytes && th'.call == th.call
    requires th'.log == th.log + [c]
    requires th'.phase != Draining ==> th.phase != Draining && 0 <= c.res && th'.total == th.total + c.res
    ensures Books(t, th', ring)
  {
    hide Contiguous, SumRes, Entries;
    EntriesSnoc(th.log, c);
    SumSnoc(th.log, c);
  }

  lemma RingReap(s: State, a: Step)
    requires Enabled(s, a) && a.Reap? && RingInv(s) && s.lock == Some(a.t)
    ensures RingInv(Apply(s, a)) && Content(s) == Content(Apply(s, a)) + multiset{s.cq[0].entry}
  {
    hide Entries;
    EntriesHead(s.cq);
  }

  lemma ReapStep(s: State, a: Step) returns (th: Thread, th': Thread, c: Completion)
    requires Enabled(s, a) && a.Reap?
    ensures a.t < |s.threads| && th == s.threads[a.t] && Apply(s, a).threads == s.threads[a.t := th']
    ensures Holds(th) && Holds(th') && Apply(s, a).lock == s.lock && s.cq != [] && c == s.cq[0]
    ensures OnPlan(th) ==> OnPlan(th')
    ensures th'.planned == th.planned && th'.done == th.done && th'.bytes == th.bytes && th'.call == th.call
    ensures th'.log == th.log + [c]
    ensures th'.phase != Draining ==> th.phase != Draining && 0 <= c.res && th'.total == th.total + c.res
  {
    hide Residue, Stuck, PackBytes;
    th, th', c := s.threads[a.t], Apply(s, a).threads[a.t], s.cq[0];
  }

  lemma KeepsReap(s: State, a: Step)
    requires Inv(s) && Enabled(s, a) && a.Reap?
    ensures Inv(Apply(s, a))
  {
    hide *;
    var th, th', c := ReapStep(s, a);
    Holder(s, a.t);
    InvParts(s);
    RingReap(s, a);
    BooksReap(a.t, th, th', c, Content(Apply(s, a)));
    HolderMoved(s, Apply(s, a), a.t, th');
  }

  lemma PlanRelease(th: Thread, th': Thread)
    requires OnPlan(th) && th.phase == Reaping
    requires th' == th.(phase := Running, done := th.done + th.bytes, bytes := 0)
    ensures OnPlan(th')
  {
    hide Residue, Stuck, PackBytes;
    ResidueTurn(th.off + th.done, th.n - th.done, th.limit);
    assert th.off + th.done + th.bytes == th.off + th'.done;
  }

  lemma BooksRelease(t: nat, th: Thread, th': Thread)
    requires Books(t, th, multiset{}) && th.phase == Reaping
    requires th' == th.(phase := Running, done := th.done + th.bytes, bytes := 0)
    ensures Books(t, th', multiset{})
  {
    hide Contiguous, Entries, SumRes;
  }

  lemma RingRelease(s: State, a: Step)
    requires Enabled(s, a) && a.Release? && RingInv(s) && s.lock == Some(a.t)
    ensures Content(s) == multiset{} && Quiet(Apply(s, a))
  {
  }

  lemma ReleaseStep(s: State, a: Step) returns (th: Thread, th': Thread)
    requires Enabled(s, a) && a.Release?
    ensures a.t < |s.threads| && th == s.threads[a.t] && Apply(s, a).threads == s.threads[a.t := th']
    ensures Holds(th) && !Holds(th') && Apply(s, a).lock == None
    ensures th.phase == Reaping ==> th' == th.(phase := Running, done := th.done + th.bytes, bytes := 0)
    ensures th.phase != Reaping ==> th'.phase == Idle && th'.result == Some(-1)
  {
    th, th' := s.threads[a.t], Apply(s, a).threads[a.t];
  }

  lemma KeepsRelease(s: State, a: Step)
    requires Inv(s) && Enabled(s, a) && a.Release?
    ensures Inv(Apply(s, a))
  {
    hide *;
    var th, th' := ReleaseStep(s, a);
    Holder(s, a.t);
    InvParts(s);
    RingRelease(s, a);
    if th.phase == Reaping {
      PlanRelease(th, th');
      BooksRelease(a.t, th, th');
    }
    Unlocked(s, Apply(s, a), a.t, th');
  }

  /** The lock holder has let go. */
  lemma Unlocked(s: State, s': State, t: nat, th: Thread)
    requires Inv(s) && t < |s.threads| && s'.threads == s.threads[t := th] && s.lock == Some(t) && s'.lock == None
    requires Quiet(s') && !Holds(th)
    requires
      || (th.phase == Idle && th.result == Some(-1))
      || (th.phase == Running && Books(t, th, multiset{}) && OnPlan(th))
    ensures Inv(s')
  {
    hide Content, Books, OnPlan, Inv, Quiet;
    OneThreadMoved(s, s', t, th);
  }

  lemma StepKeeps(s: State, a: Step)
    requires Inv(s) && Enabled(s, a) && Tame(a)
    ensures Inv(Apply(s, a))
  {
    hide *;
    match a
    case Call(_, _, _, _) => KeepsCall(s, a);
    case Acquire(_) => KeepsAcquire(s, a);
    case Prepare(_) => KeepsPrepare(s, a);
    case Refuse(_) => KeepsRefuse(s, a);
    case Exhaust(t) => NeverExhausted(s, t);
    case Submit(_) => KeepsSubmit(s, a);
    case Complete(_, _) => KeepsComplete(s, a);
    case Reap(_) => KeepsReap(s, a);
    case Release(_) => KeepsRelease(s, a);
    case Return(_) => KeepsReturn(s, a);
  }

  // ----- Whole runs -----

  /** `run` is a run of the system from `s`. */
  predicate Runs(s: State, run: seq<Step>)
    decreases |run|
  {
    run == [] || (Enabled(s, run[0]) && Runs(Apply(s, run[0]), run[1..]))
  }

  function Final(s: State, run: seq<Step>): State
    requires Runs(s, run)
    decreases |run|
  {
    if run == [] then s else Final(Apply(s, run[0]), run[1..])
  }

  lemma {:induction false} RunKeeps(s: State, run: seq<Step>)
    requires Inv(s) && Runs(s, run) && (forall a :: a in run ==> Tame(a))
    ensures Inv(Final(s, run))
    decreases |run|
  {
    hide Inv, Enabled, Apply, Tame;
    if run != [] {
      StepKeeps(s, run[0]);
      RunKeeps(Apply(s, run[0]), run[1..]);
    }
  }

  /** Whatever the ring holds was prepared by the current call of the lock holder. */
  ghost predicate OwnedByHolder(s: State) {
    forall e :: e in Content(s) ==>
      s.lock.Some? && s.lock.value < |s.threads| && e.tid == s.lock.value && e.call == s.threads[s.lock.value].call
  }

  /** The last call of the thread came back with a count. */
  predicate Returned(th: Thread) {
    th.phase == Idle && th.result.Some? && th.result.value != -1
  }

  /** In every state reachable by any number of threads in any interleaving, with
      any completion order and results: at most one thread is in a turn; a free
      lock means an empty ring; no thread finds the queue full; whatever the ring holds was prepared by the
      current call of the lock holder; and every call that returned a count
      returned the sum of the completions of exactly its own entries, which
      tile its bytes. */
  lemma RingSafety(s: State, run: seq<Step>)
    requires Initial(s) && Runs(s, run) && (forall a :: a in run ==> Tame(a))
    ensures var f := Final(s, run);
      && (forall t, u :: 0 <= t < |f.threads| && 0 <= u < |f.threads| && Holds(f.threads[t]) && Holds(f.threads[u]) ==>
        t == u)
      && (f.lock == None ==> Quiet(f))
      && (forall t :: !Enabled(f, Exhaust(t)))
      && OwnedByHolder(f)
      && (forall t :: 0 <= t < |f.threads| && Returned(f.threads[t]) ==> Served(t, f.threads[t]))
  {
    assert Inv(s) by { hide Served; }
    hide Runs, Final, Initial, Tame;
    RunKeeps(s, run);
    var f := Final(s, run);
    hide Served, Content, OnPlan;
    HolderOwns(f);
    forall t ensures !Enabled(f, Exhaust(t)) { NeverExhausted(f, t); }
    hide OwnedByHolder, Enabled;
    assert forall t :: 0 <= t < |f.threads| ==> ThreadInv(t, f.threads[t], Share(f, t));
  }

  lemma HolderOwns(s: State)
    requires Inv(s)
    ensures OwnedByHolder(s)
  {
    InvParts(s);
    hide Inv, Books, OnPlan;
    if s.lock.Some? {
      hide Content, RingInv;
      var t := s.lock.value;
      assert Holds(s.threads[t]);
      Holder(s, t);
      OwnEntries(t, s.threads[t], Content(s));
    }
  }

  lemma OwnEntries(t: nat, th: Thread, share: multiset<Entry>)
    requires Books(t, th, share)
    ensures forall e :: e in share ==> e.tid == t && e.call == th.call
  {
    hide Contiguous, SumRes, Entries;
    forall e | e in share ensures e.tid == t && e.call == th.call {
      assert e in multiset(th.planned);
    }
  }
}
