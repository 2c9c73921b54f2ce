/** What happens to a ring that a refused call left entries in. The library takes
    it for granted that a free lock means an empty ring; RingProtocol shows when
    that is so, and this module what follows when it is not. */
module RingResidue {
  import opened Layout
  import opened Options
  import opened Packing
  import opened RingProtocol
  import opened Sizes

  // ----- The condition on windows is needed -----

  ghost predicate Leads(s: State, s': State) {
    exists run :: Runs(s, run) && Final(s, run) == s'
  }

  lemma {:induction false} RunSnoc(s: State, run: seq<Step>, a: Step)
    requires Runs(s, run) && Enabled(Final(s, run), a)
    ensures Runs(s, run + [a]) && Final(s, run + [a]) == Apply(Final(s, run), a)
    decreases |run|
  {
    hide Enabled, Apply;
    if run == [] {
      assert (run + [a])[1..] == [];
    } else {
      RunSnoc(Apply(s, run[0]), run[1..], a);
      assert (run + [a])[1..] == run[1..] + [a];
    }
  }

  lemma Then(s: State, s': State, a: Step)
    requires Leads(s, s') && Enabled(s', a)
    ensures Leads(s, Apply(s', a))
  {
    hide Enabled, Apply, Runs, Final;
    var run :| Runs(s, run) && Final(s, run) == s';
    RunSnoc(s, run, a);
  }

  function Weight(es: seq<Entry>): nat {
    if es == [] then 0 else es[0].len + Weight(es[1..])
  }

  lemma {:induction false} WeightAdds(es: seq<Entry>, fs: seq<Entry>)
    ensures Weight(es + fs) == Weight(es) + Weight(fs)
  {
    if es == [] {
      assert es + fs == fs;
    } else {
      WeightAdds(es[1..], fs);
      assert (es + fs)[1..] == es[1..] + fs;
    }
  }

  lemma {:induction false} ContiguousWeight(es: seq<Entry>, lo: nat, hi: nat)
    requires Contiguous(es, lo, hi)
    ensures hi == lo + Weight(es)
    decreases |es|
  {
    if es != [] {
      ContiguousWeight(es[1..], lo + es[0].len, hi);
    }
  }

  /** Two records of the same call. */
  predicate SameCall(th: Thread, th': Thread) {
    th'.off == th.off && th'.n == th.n && th'.limit == th.limit && th'.call == th.call
  }

  predicate InFill(s: State, t: nat) {
    && t < |s.threads| && s.lock == Some(t) && s.threads[t].phase == Filling
    && s.threads[t].done + s.threads[t].bytes <= s.threads[t].n
    && s.threads[t].used <= |s.sq| <= QUEUE_DEPTH
  }

  /** Slots of the queue that will be in use when the fill loop stops, if there
      are that many. */
  function Needed(s: State, t: nat): nat
    requires InFill(s, t)
  {
    var th := s.threads[t];
    var pos := th.done + th.bytes;
    |s.sq| - th.used + Peak(th.off + pos, th.n - pos, th.used, th.limit)
  }

  predicate OthersSame(s: State, s': State, t: nat) {
    |s'.threads| == |s.threads| && (forall u :: 0 <= u < |s.threads| && u != t ==> s'.threads[u] == s.threads[u])
  }

  /** `t` is back with an error and has left the queue with `k` entries. */
  predicate GaveUp(s: State, s': State, t: nat, k: nat)
    requires t < |s.threads| && OthersSame(s, s', t)
  {
    && s'.lock == None && |s'.sq| == k && s'.inflight == s.inflight && s'.cq == s.cq
    && s'.threads[t].phase == Idle && s'.threads[t].result == Some(-1)
  }

  /** `t` has submitted what it found in the queue and what it prepared itself. */
  predicate Submitted(s: State, s': State, t: nat)
    requires InFill(s, t) && OthersSame(s, s', t)
  {
    var th, th' := s.threads[t], s'.threads[t];
    var pos := th.done + th.bytes;
    && s'.lock == Some(t) && th'.phase == Reaping && th'.done == th.done && th'.total == th.total
    && th'.bytes == th.bytes + PackBytes(th.off + pos, th.n - pos, th.used)
    && s'.sq == [] && s'.cq == s.cq && th'.reaped == th.reaped
    && |s'.inflight| == |s.inflight| + th'.submitted
    && Weight(s'.inflight) + th.bytes == Weight(s.inflight) + Weight(s.sq) + th'.bytes
  }

  /** From `s`, where `t` is filling, to `s'`: it ran out of slots, or it was
      refused, or it submitted its batch. */
  predicate Filled(s: State, s': State, t: nat)
    requires InFill(s, t)
  {
    && OthersSame(s, s', t) && SameCall(s.threads[t], s'.threads[t])
    && var th := s.threads[t];
       var pos := th.done + th.bytes;
       if Needed(s, t) > QUEUE_DEPTH then GaveUp(s, s', t, QUEUE_DEPTH)
       else if Stuck(th.off + pos, th.n - pos, th.used, th.limit).Some? then GaveUp(s, s', t, Needed(s, t))
       else Submitted(s, s', t)
  }

  /** Nothing the fill loop does changes the number of slots it will need. */
  lemma NeededKept(s: State, s1: State, t: nat)
    requires InFill(s, t) && Enabled(s, Prepare(t)) && s1 == Apply(s, Prepare(t))
    ensures InFill(s1, t) && Needed(s1, t) == Needed(s, t) && OthersSame(s, s1, t)
    ensures SameCall(s.threads[t], s1.threads[t])
    ensures var th, th1 := s.threads[t], s1.threads[t];
      var pos, pos1 := th.done + th.bytes, th1.done + th1.bytes;
      && Stuck(th.off + pos, th.n - pos, th.used, th.limit) ==
         Stuck(th1.off + pos1, th1.n - pos1, th1.used, th1.limit)
      && th.bytes + PackBytes(th.off + pos, th.n - pos, th.used) ==
         th1.bytes + PackBytes(th1.off + pos1, th1.n - pos1, th1.used)
  {
    hide Stuck, PackBytes, Peak, Touched, NextEntries, SubSize;
    var th := s.threads[t];
    var pos := th.done + th.bytes;
    PackTurn(th.off + pos, th.n - pos, th.used, th.limit);
    NextCount(s, t);
    assert th.off + pos + NextSize(th) == th.off + (pos + NextSize(th));
    assert th.n - pos - NextSize(th) == th.n - (pos + NextSize(th));
  }

  lemma WeightKept(s: State, s1: State, t: nat)
    requires InFill(s, t) && Enabled(s, Prepare(t)) && s1 == Apply(s, Prepare(t))
    ensures Weight(s1.sq) + s.threads[t].bytes == Weight(s.sq) + s1.threads[t].bytes
  {
    hide Cut, Touched, SubSize, Weight;
    var th, es := s.threads[t], NextEntries(s, t);
    var pos := th.done + th.bytes;
    CutIsContiguous(t, th.call, th.off, pos, NextSize(th));
    ContiguousWeight(es, pos, pos + NextSize(th));
    WeightAdds(s.sq, es);
  }

  lemma PrepareOnly(s: State, s1: State, t: nat)
    requires InFill(s, t) && Enabled(s, Prepare(t)) && s1 == Apply(s, Prepare(t))
    ensures s1.inflight == s.inflight && s1.cq == s.cq && t < |s1.threads|
    ensures s1.threads[t].done == s.threads[t].done && s1.threads[t].total == s.threads[t].total
    ensures s1.threads[t].reaped == s.threads[t].reaped
  {
    hide NextEntries, Touched, SubSize;
  }

  lemma FilledLater(s: State, s1: State, s': State, t: nat)
    requires InFill(s, t) && Enabled(s, Prepare(t)) && s1 == Apply(s, Prepare(t)) && InFill(s1, t) && Filled(s1, s', t)
    ensures Filled(s, s', t)
  {
    hide Stuck, PackBytes, Peak, Weight, Needed, Enabled, Apply;
    NeededKept(s, s1, t);
    WeightKept(s, s1, t);
    PrepareOnly(s, s1, t);
  }

  /** One step of the fill loop, with the lock held. */
  lemma FillStep(s: State, t: nat) returns (a: Step)
    requires InFill(s, t)
    ensures Enabled(s, a)
    ensures a == Prepare(t) || (a in {Refuse(t), Exhaust(t), Submit(t)} && Filled(s, Apply(s, a), t))
  {
    hide Stuck, PackBytes, Peak, Touched, NextEntries, Weight;
    var th := s.threads[t];
    var pos := th.done + th.bytes;
    PackTurn(th.off + pos, th.n - pos, th.used, th.limit);
    assert th.off + th.done + th.bytes == th.off + pos;
    if !MoreToFill(th) {
      a := Submit(t);
      WeightAdds(s.inflight, s.sq);
    } else if !FitsLimit(th) {
      a := Refuse(t);
    } else if !FitsRing(th) {
      a := Submit(t);
      WeightAdds(s.inflight, s.sq);
    } else if FitsQueue(s, t) {
      a := Prepare(t);
    } else {
      a := Exhaust(t);
      NextCount(s, t);
      MoreNeeded(s, t);
    }
  }

  /** Running out of slots was to be expected. */
  lemma MoreNeeded(s: State, t: nat)
    requires InFill(s, t) && Enabled(s, Exhaust(t))
    ensures Needed(s, t) > QUEUE_DEPTH
  {
    hide Touched, NextEntries, Peak;
    var th := s.threads[t];
    var pos := th.done + th.bytes;
    NextCount(s, t);
    PackTurn(th.off + pos, th.n - pos, th.used, th.limit);
    assert th.off + pos + NextSize(th) == th.off + (pos + NextSize(th));
  }

  /** Left alone with the lock, a filling thread gets through its fill loop. */
  lemma {:induction false} FillOn(s0: State, s: State, t: nat) returns (s': State)
    requires Leads(s0, s) && InFill(s, t)
    ensures Leads(s0, s') && Filled(s, s', t)
    decreases s.threads[t].n - s.threads[t].done - s.threads[t].bytes
  {
    hide Stuck, PackBytes, Peak, Touched, NextEntries, Leads, Filled, Needed;
    var a := FillStep(s, t);
    Then(s0, s, a);
    s' := Apply(s, a);
    if a == Prepare(t) {
      var s1 := s';
      NeededKept(s, s1, t);
      s' := FillOn(s0, s1, t);
      FilledLater(s, s1, s', t);
    }
  }

  predicate InReap(s: State, t: nat) {
    && t < |s.threads| && s.lock == Some(t) && s.threads[t].phase == Reaping && s.sq == []
    && |s.inflight| + |s.cq| + s.threads[t].reaped == s.threads[t].submitted
    && NoneFailed(s.cq)
  }

  /** From `s`, where `t` is reaping, to `s'`: every request succeeded in full and
      `t` is between turns. */
  predicate Reaped(s: State, s': State, t: nat)
    requires t < |s.threads|
  {
    && |s'.threads| == |s.threads| && SameCall(s.threads[t], s'.threads[t])
    && (forall u :: 0 <= u < |s.threads| && u != t ==> s'.threads[u] == s.threads[u])
    && s'.lock == None && Quiet(s') && s'.threads[t].phase == Running && s'.threads[t].bytes == 0
    && s'.threads[t].done == s.threads[t].done + s.threads[t].bytes
    && s'.threads[t].total == s.threads[t].total + SumRes(s.cq) + Weight(s.inflight)
  }

  lemma {:induction false} SumHead(cs: seq<Completion>)
    requires cs != []
    ensures SumRes(cs) == cs[0].res + SumRes(cs[1..])
    decreases |cs|
  {
    if |cs| > 1 {
      SumHead(cs[..|cs| - 1]);
      assert cs[..|cs| - 1][1..] == cs[1..][..|cs| - 2];
    } else {
      assert cs[..0] == [] == cs[1..];
    }
  }

  lemma EmptySum()
    ensures SumRes([]) == 0
  {
  }

  /** The kernel can serve every request in full, and the thread then gets through
      its reap loop. */
  lemma {:induction false} ReapOn(s0: State, s: State, t: nat) returns (s': State)
    requires Leads(s0, s) && InReap(s, t)
    ensures Leads(s0, s') && Reaped(s, s', t)
    decreases 2 * |s.inflight| + |s.cq|
  {
    hide Leads, SumRes;
    EmptySum();
    if s.inflight != [] {
      var a := Complete(0, s.inflight[0].len);
      Then(s0, s, a);
      SumSnoc(s.cq, Completion(s.inflight[0], s.inflight[0].len));
      assert Apply(s, a).inflight == s.inflight[1..];
      s' := ReapOn(s0, Apply(s, a), t);
    } else if s.cq != [] {
      Then(s0, s, Reap(t));
      SumHead(s.cq);
      s' := ReapOn(s0, Apply(s, Reap(t)), t);
    } else {
      Then(s0, s, Release(t));
      s' := Apply(s, Release(t));
    }
  }

  predicate Between(s: State, t: nat) {
    t < |s.threads| && s.lock == None && Quiet(s) && s.threads[t].phase == Running
      && s.threads[t].done <= s.threads[t].n
  }

  /** A call that leaves a residue has a run in which it does. */
  lemma {:induction false} SpoilOn(s0: State, s: State, t: nat) returns (s': State)
    requires Leads(s0, s) && Between(s, t)
    requires Residue(s.threads[t].off + s.threads[t].done, s.threads[t].n - s.threads[t].done, s.threads[t].limit) != 0
    ensures Leads(s0, s') && OthersSame(s, s', t) && s'.inflight == [] && s'.cq == []
    ensures GaveUp(s, s', t, Residue(s.threads[t].off + s.threads[t].done, s.threads[t].n - s.threads[t].done,
      s.threads[t].limit))
    decreases s.threads[t].n - s.threads[t].done
  {
    hide Leads, Stuck, PackBytes, Residue, Peak;
    var th := s.threads[t];
    assert th.done < th.n by { NoneLeft(th.off + th.done, th.limit); }
    ResidueTurn(th.off + th.done, th.n - th.done, th.limit);
    StuckAtPeak(th.off + th.done, th.n - th.done, 0, th.limit);
    Then(s0, s, Acquire(t));
    var s1 := Apply(s, Acquire(t));
    s' := FillOn(s0, s1, t);
    if Stuck(th.off + th.done, th.n - th.done, 0, th.limit).None? {
      var s2 := s';
      s' := ReapOn(s0, s2, t);
      assert th.off + th.done + s2.threads[t].bytes == th.off + s'.threads[t].done;
      s' := SpoilOn(s0, s', t);
    }
  }

  lemma NoneLeft(off: nat, limit: nat)
    ensures Residue(off, 0, limit) == 0
  {
  }

  lemma {:induction false} StuckAtPeak(off: nat, rem: nat, used: nat, limit: nat)
    ensures Stuck(off, rem, used, limit).Some? ==> Stuck(off, rem, used, limit).value == Peak(off, rem, used, limit)
    decreases rem
  {
    if used < QUEUE_DEPTH && rem != 0 {
      var s := SubSize(rem);
      StuckAtPeak(off + s, rem - s, used + Touched(off, s), limit);
    }
  }

  /** The condition of RingSafety is needed: any call whose window leaves a residue
      has a run, from any initial state, after which the lock is free and the queue
      still holds exactly that many of its entries. */
  lemma ResidueSpoils(s: State, t: nat, off: nat, n: nat, limit: nat) returns (s': State)
    requires Initial(s) && t < |s.threads| && Residue(off, n, limit) != 0
    ensures Leads(s, s') && OthersSame(s, s', t) && GaveUp(s, s', t, Residue(off, n, limit)) && !Quiet(s')
  {
    hide Residue;
    NoneLeft(off, limit);
    assert Runs(s, []) && Final(s, []) == s;
    assert Leads(s, s);
    Then(s, s, Call(t, off, n, limit));
    s' := SpoilOn(s, Apply(s, Call(t, off, n, limit)), t);
  }

  // ----- What the leftovers do to the next call -----

  /** A call that is between turns and stays inside its registration can be served
      to the end. */
  lemma {:induction false} ServeOn(s0: State, s: State, t: nat) returns (s': State)
    requires Leads(s0, s) && Between(s, t) && s.threads[t].off + s.threads[t].n <= s.threads[t].limit
    ensures Leads(s0, s') && OthersSame(s, s', t) && s'.threads[t].phase == Idle
    ensures SameCall(s.threads[t], s'.threads[t])
    ensures s'.threads[t].result == Some(s.threads[t].total + (s.threads[t].n - s.threads[t].done))
    decreases s.threads[t].n - s.threads[t].done
  {
    hide Leads, Stuck, PackBytes, Peak;
    var th := s.threads[t];
    if th.done < th.n {
      Then(s0, s, Acquire(t));
      s' := FinishTurn(s0, s, t);
      s' := ServeOn(s0, s', t);
    } else {
      Then(s0, s, Return(t));
      s' := Apply(s, Return(t));
    }
  }

  /** `t` may take its next turn: the rest of its window is in range, and the
      queue has room for the next batch. */
  predicate Ready(s: State, t: nat) {
    && t < |s.threads| && s.lock == None && s.inflight == [] && s.cq == [] && s.threads[t].phase == Running
    && s.threads[t].done < s.threads[t].n && s.threads[t].off + s.threads[t].n <= s.threads[t].limit
    && |s.sq| + BatchEntries(s.threads[t].off + s.threads[t].done, s.threads[t].n - s.threads[t].done) <= QUEUE_DEPTH
  }

  /** The turn runs to its end. The entries found in the queue are served and
      counted too. */
  lemma FinishTurn(s0: State, s: State, t: nat) returns (s': State)
    requires Ready(s, t) && Leads(s0, Apply(s, Acquire(t)))
    ensures Leads(s0, s') && OthersSame(s, s', t) && Between(s', t) && SameCall(s.threads[t], s'.threads[t])
    ensures s.threads[t].done < s'.threads[t].done
    ensures s'.threads[t].total - s'.threads[t].done == s.threads[t].total - s.threads[t].done + Weight(s.sq)
  {
    hide Leads, Stuck, PackBytes, Peak, BatchEntries;
    var th := s.threads[t];
    var s1 := Apply(s, Acquire(t));
    InRangeBatch(th.off + th.done, th.n - th.done, th.limit);
    var s2 := FillOn(s0, s1, t);
    assert Submitted(s1, s2, t);
    s' := ReapOn(s0, s2, t);
    EmptySum();
  }

  lemma InRangeBatch(off: nat, rem: nat, limit: nat)
    requires 0 < rem && off + rem <= limit
    ensures Stuck(off, rem, 0, limit).None? && Peak(off, rem, 0, limit) == BatchEntries(off, rem)
    ensures 0 < PackBytes(off, rem, 0) && PackBytes(off, rem, 0) <= rem
  {
    hide Stuck, PackBytes, Peak, BatchEntries, Take, Reach;
    BatchExact(off, rem, limit);
    TakeBounds(off, rem);
  }

  /** `t` starts a call and is the first to take the lock. */
  function Started(s: State, t: nat, off: nat, n: nat, limit: nat): State
    requires t < |s.threads| && s.threads[t].phase == Idle && s.lock == None && 0 < n
  {
    Apply(Apply(s, Call(t, off, n, limit)), Acquire(t))
  }

  /** If there is room, the call can come back with a count that is too high by
      exactly the bytes of the leftovers. */
  lemma LeftoversInflate(s: State, t: nat, off: nat, n: nat, limit: nat) returns (s': State)
    requires t < |s.threads| && s.threads[t].phase == Idle && s.lock == None && s.inflight == [] && s.cq == []
    requires 0 < n && off + n <= limit && |s.sq| + BatchEntries(off, n) <= QUEUE_DEPTH
    ensures Leads(Started(s, t, off, n, limit), s') && t < |s'.threads|
    ensures s'.threads[t].call == s.threads[t].call + 1
    ensures s'.threads[t].phase == Idle && s'.threads[t].result == Some(n + Weight(s.sq))
  {
    hide BatchEntries, Weight;
    var s1 := Apply(s, Call(t, off, n, limit));
    var s2 := Apply(s1, Acquire(t));
    assert Runs(s2, []) && Final(s2, []) == s2;
    assert Leads(s2, s2);
    hide Leads;
    s' := FinishTurn(s2, s1, t);
    s' := ServeOn(s2, s', t);
  }

  // ----- What every step keeps, whatever the windows -----

  /** The lock is held by the thread in a turn; entries of the kernel belong to a
      turn that will reap them; and the queue has no more entries than slots. */
  predicate Sound(s: State) {
    && LockInv(s) && |s.sq| <= QUEUE_DEPTH
    && (s.lock.Some? && s.threads[s.lock.value].phase in {Reaping, Draining} ==>
         s.sq == [] &&
         |s.inflight| + |s.cq| + s.threads[s.lock.value].reaped == s.threads[s.lock.value].submitted)
    && (s.lock == None || s.threads[s.lock.value].phase == Filling ==> s.inflight == [] && s.cq == [])
    && (s.lock.Some? && s.threads[s.lock.value].phase == Filling ==> s.threads[s.lock.value].reaped == 0)
  }

  lemma SoundStep(s: State, a: Step)
    requires Sound(s) && Enabled(s, a)
    ensures Sound(Apply(s, a))
  {
    hide NextEntries, NextSize, FitsLimit, FitsRing;
    LockKept(s, a);
  }

  lemma {:induction false} SoundRun(s: State, run: seq<Step>)
    requires Sound(s) && Runs(s, run)
    ensures Sound(Final(s, run))
    decreases |run|
  {
    hide Sound, Enabled, Apply;
    if run != [] {
      SoundStep(s, run[0]);
      SoundRun(Apply(s, run[0]), run[1..]);
    }
  }

  ghost predicate Reachable(s: State) {
    exists s0 :: Initial(s0) && Leads(s0, s)
  }

  lemma ReachableSound(s: State)
    requires Reachable(s)
    ensures Sound(s)
  {
    var s0 :| Initial(s0) && Leads(s0, s);
    var run :| Runs(s0, run) && Final(s0, run) == s;
    hide Runs, Final;
    SoundRun(s0, run);
  }

  lemma LockKept(s: State, a: Step)
    requires LockInv(s) && Enabled(s, a)
    ensures LockInv(Apply(s, a))
  {
    hide NextEntries, Stuffed, NextSize, FitsLimit, FitsRing;
  }

  /** A step that thread `t`, which holds the lock, does not take. */
  lemma HolderStays(s: State, a: Step, t: nat)
    requires LockInv(s) && Enabled(s, a) && s.lock == Some(t) && t < |s.threads|
    requires !a.Complete? ==> a.t != t
    ensures Apply(s, a).threads[t] == s.threads[t] && Apply(s, a).lock == s.lock && Apply(s, a).sq == s.sq
  {
  }

  /** The call of thread `t` that is in its fill loop will run out of slots, or has
      already failed, or is over. */
  predicate Doomed(s: State, t: nat, call: nat) {
    && LockInv(s) && t < |s.threads| && call <= s.threads[t].call
    && (s.threads[t].call == call ==>
         || (InFill(s, t) && Needed(s, t) > QUEUE_DEPTH)
         || (s.threads[t].phase == Idle && s.threads[t].result == Some(-1)))
  }

  /** Its own steps: it goes on filling, or gives up. It never submits. */
  lemma DoomedMoves(s: State, a: Step, t: nat)
    requires InFill(s, t) && Needed(s, t) > QUEUE_DEPTH && Enabled(s, a) && !a.Complete? && a.t == t
    ensures var s' := Apply(s, a);
      || (InFill(s', t) && Needed(s', t) > QUEUE_DEPTH && s'.threads[t].call == s.threads[t].call)
      || (s'.threads[t].phase == Idle && s'.threads[t].result == Some(-1))
  {
    hide NextEntries, Touched, Peak;
    var th := s.threads[t];
    if a.Prepare? {
      NeededKept(s, Apply(s, a), t);
    } else if a.Submit? {
      var pos := th.done + th.bytes;
      assert th.off + th.done + th.bytes == th.off + pos;
      PackTurn(th.off + pos, th.n - pos, th.used, th.limit);
      assert false;
    }
  }

  lemma DoomedStep(s: State, a: Step, t: nat, call: nat)
    requires Doomed(s, t, call) && Enabled(s, a)
    ensures Doomed(Apply(s, a), t, call)
  {
    LockKept(s, a);
    if s.threads[t].call == call && s.threads[t].phase != Idle {
      hide NextEntries, Peak, Touched;
      if a.Complete? || a.t != t {
        HolderStays(s, a, t);
      } else {
        DoomedMoves(s, a, t);
      }
    } else {
      IdleOrLater(s, a, t, call);
    }
  }

  lemma IdleOrLater(s: State, a: Step, t: nat, call: nat)
    requires t < |s.threads| && Enabled(s, a) && call <= s.threads[t].call
    requires s.threads[t].call == call ==> s.threads[t].phase == Idle && s.threads[t].result == Some(-1)
    ensures var th' := Apply(s, a).threads[t];
      call <= th'.call && (th'.call == call ==> th'.phase == Idle && th'.result == Some(-1))
  {
    hide NextEntries, Stuffed, NextSize, FitsLimit, FitsRing, FitsQueue;
  }

  lemma {:induction false} DoomedRun(s: State, run: seq<Step>, t: nat, call: nat)
    requires Doomed(s, t, call) && Runs(s, run)
    ensures Doomed(Final(s, run), t, call)
    decreases |run|
  {
    hide Doomed, Enabled, Apply;
    if run != [] {
      DoomedStep(s, run[0], t, call);
      DoomedRun(Apply(s, run[0]), run[1..], t, call);
    }
  }

  /** `s'` comes after `s`, and `t` has not started another call. */
  ghost predicate Later(s: State, s': State, t: nat)
    requires t < |s.threads|
  {
    Leads(s, s') && t < |s'.threads| && s'.threads[t].call == s.threads[t].call
  }

  /** The call that thread `t` has started can come back with a count. */
  ghost predicate CanCount(s: State, t: nat)
    requires t < |s.threads|
  {
    exists s' :: Later(s, s', t) && Returned(s'.threads[t])
  }

  /** Exactly when a call that finds leftovers and takes the lock can come back
      with a count: when the queue has room for its first batch as well. The count
      can then be too high by the bytes of the leftovers. Otherwise, whatever else
      happens, it comes back with -1 if it comes back at all. */
  lemma LeftoversExact(s: State, t: nat, off: nat, n: nat, limit: nat)
    requires Reachable(s) && t < |s.threads| && s.threads[t].phase == Idle && s.lock == None
    requires 0 < n && off + n <= limit
    ensures CanCount(Started(s, t, off, n, limit), t) <==> |s.sq| + BatchEntries(off, n) <= QUEUE_DEPTH
    ensures |s.sq| + BatchEntries(off, n) > QUEUE_DEPTH ==>
      forall s' :: Later(Started(s, t, off, n, limit), s', t) && s'.threads[t].phase == Idle ==>
        s'.threads[t].result == Some(-1)
  {
    hide BatchEntries, Weight, Peak, Stuck, PackBytes, Reachable;
    ReachableSound(s);
    var s1 := Apply(s, Call(t, off, n, limit));
    var s2 := Started(s, t, off, n, limit);
    if |s.sq| + BatchEntries(off, n) <= QUEUE_DEPTH {
      var s' := LeftoversInflate(s, t, off, n, limit);
      assert Later(s2, s', t);
    } else {
      InRangeBatch(off, n, limit);
      LockKept(s, Call(t, off, n, limit));
      LockKept(s1, Acquire(t));
      assert Doomed(s2, t, s2.threads[t].call);
      hide Started, Doomed;
      forall s' | Later(s2, s', t)
        ensures !Returned(s'.threads[t]) && (s'.threads[t].phase == Idle ==> s'.threads[t].result == Some(-1))
      {
        var run :| Runs(s2, run) && Final(s2, run) == s';
        hide Runs, Final;
        DoomedRun(s2, run, t, s2.threads[t].call);
        NoCount(s', t, s2.threads[t].call);
      }
    }
  }

  lemma NoCount(s: State, t: nat, call: nat)
    requires Doomed(s, t, call) && s.threads[t].call == call
    ensures !Returned(s.threads[t]) && (s.threads[t].phase == Idle ==> s.threads[t].result == Some(-1))
  {
  }

  // ----- A full queue is never emptied again -----

  /** Thread `t` has not finished its loop in state `s0`, or is in a later call. */
  predicate Caught(th0: Thread, th: Thread) {
    th0.call < th.call || (th0.phase == Running && th0.done < th0.n)
  }

  /** A thread that cannot get an entry into the queue. */
  predicate Barred(th0: Thread, th: Thread) {
    && th0.call <= th.call && th.phase != Reaping && th.phase != Draining
    && (th.phase == Filling ==> th.used == 0 && th.bytes == 0 && th.done < th.n)
    && (Caught(th0, th) ==>
         && (th.phase == Running ==> th.done < th.n)
         && (th.phase == Idle ==> th.result == Some(-1)))
    && (!Caught(th0, th) ==> th.phase != Filling && (th.phase == Running ==> th.n <= th.done))
  }

  predicate Jammed(s0: State, s: State) {
    && LockInv(s) && |s.threads| == |s0.threads| && s.sq == s0.sq && |s.sq| == QUEUE_DEPTH
    && forall t :: 0 <= t < |s.threads| ==> Barred(s0.threads[t], s.threads[t])
  }

  /** Nothing fits, so a thread in its fill loop can only give up. */
  lemma NothingFits(s: State, a: Step)
    requires Enabled(s, a) && |s.sq| == QUEUE_DEPTH && !a.Complete? && s.threads[a.t].phase == Filling
    requires s.threads[a.t].used == 0 && s.threads[a.t].bytes == 0 && s.threads[a.t].done < s.threads[a.t].n
    ensures a.Refuse? || a.Exhaust?
    ensures Apply(s, a).sq == s.sq
    ensures Apply(s, a).threads == s.threads[a.t := s.threads[a.t].(phase := Idle, result := Some(-1))]
  {
    hide NextEntries, Touched;
    NextCount(s, a.t);
    SmallWindowTouchesTwo(s.threads[a.t].off + s.threads[a.t].done, NextSize(s.threads[a.t]));
  }

  lemma JammedStep(s0: State, s: State, a: Step)
    requires Jammed(s0, s) && Enabled(s, a)
    ensures Jammed(s0, Apply(s, a))
  {
    LockKept(s, a);
    hide LockInv;
    if !a.Complete? {
      var t := a.t;
      assert Barred(s0.threads[t], s.threads[t]);
      if s.threads[t].phase == Filling {
        NothingFits(s, a);
        hide Enabled, Apply;
      } else {
        hide NextEntries, Stuffed, NextSize, FitsLimit, FitsRing, FitsQueue;
      }
    }
  }

  lemma {:induction false} JammedRun(s0: State, s: State, run: seq<Step>)
    requires Jammed(s0, s) && Runs(s, run)
    ensures Jammed(s0, Final(s, run))
    decreases |run|
  {
    hide Jammed, Enabled, Apply;
    if run != [] {
      JammedStep(s0, s, run[0]);
      JammedRun(s0, Apply(s, run[0]), run[1..]);
    }
  }

  /** Once the queue is full and the lock free, the queue stays as it is for good:
      in every run, every call that starts later, and every call that still has a
      turn to take, comes back with -1 if it comes back at all. */
  lemma FullQueueJams(s: State, run: seq<Step>)
    requires Reachable(s) && s.lock == None && |s.sq| == QUEUE_DEPTH && Runs(s, run)
    ensures var f := Final(s, run);
      && f.sq == s.sq && |f.threads| == |s.threads|
      && forall t :: 0 <= t < |s.threads| && Caught(s.threads[t], f.threads[t]) && f.threads[t].phase == Idle ==>
           f.threads[t].result == Some(-1)
  {
    hide Reachable;
    ReachableSound(s);
    forall t | 0 <= t < |s.threads| ensures Barred(s.threads[t], s.threads[t]) {
      assert !Holds(s.threads[t]);
    }
    assert Jammed(s, s);
    JammedRun(s, s, run);
  }

  /** Running out of slots is how the queue gets full. */
  lemma ExhaustJams(s: State, t: nat)
    requires Reachable(s) && Enabled(s, Exhaust(t))
    ensures var s' := Apply(s, Exhaust(t)); Reachable(s') && s'.lock == None && |s'.sq| == QUEUE_DEPTH
  {
    hide NextEntries;
    ReachableSound(s);
    var s0 :| Initial(s0) && Leads(s0, s);
    Then(s0, s, Exhaust(t));
  }

  /** And it does happen: a call that runs past its registration by one sub-I/O,
      then one of 255 sub-I/Os inside it. */
  lemma JamReachable(s: State, t: nat) returns (s': State)
    requires Initial(s) && t < |s.threads|
    ensures Leads(s, s') && s'.lock == None && |s'.sq| == QUEUE_DEPTH
  {
    OverrunLeavesResidue();
    hide Residue, Stuck, PackBytes, Peak, Leads;
    var s1 := ResidueSpoils(s, t, 0, 3 * SUB_IO, 2 * SUB_IO);
    InRangeBatch(0, FULL_BATCH, FULL_BATCH);
    assert BatchEntries(0, FULL_BATCH) == 255;
    Then(s, s1, Call(t, 0, FULL_BATCH, FULL_BATCH));
    var s2 := Apply(s1, Call(t, 0, FULL_BATCH, FULL_BATCH));
    Then(s, s2, Acquire(t));
    s' := FillOn(s, Apply(s2, Acquire(t)), t);
  }
}
