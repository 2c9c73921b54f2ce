/** The invariant of a batch of requests in flight: what holds between a
    submission and the last completion, whatever order the kernel chooses. */
module Batch {
  import opened Layout
  import opened Kernel
  import opened Transfer

  datatype Op = Read | Write

  function Sum(xs: seq<int>): int {
    if xs == [] then 0 else xs[0] + Sum(xs[1..])
  }

  predicate AllOk(cq: seq<int>) {
    forall r :: r in cq ==> 0 <= r
  }

  predicate Kind(op: Op, e: Sqe) {
    match op
    case Read => e.ReadSqe?
    case Write => e.WriteSqe?
  }

  /** How many bytes a transfer of `len` bytes at `off` reports when it succeeds. */
  function Reported(op: Op, file: seq<Byte>, off: nat, len: nat): nat {
    match op
    case Read => |Pread(file, off, len)|
    case Write => len
  }

  function SumReported(op: Op, file: seq<Byte>, es: seq<Sqe>): nat {
    if es == [] then 0 else Reported(op, file, es[0].off, es[0].len) + SumReported(op, file, es[1..])
  }

  lemma {:induction false} SumAppend(xs: seq<int>, x: int)
    ensures Sum(xs + [x]) == Sum(xs) + x
  {
    if xs == [] {
      assert [x][1..] == [];
    } else {
      SumAppend(xs[1..], x);
      assert (xs + [x])[1..] == xs[1..] + [x];
    }
  }

  lemma RemoveLater(es: seq<Sqe>, j: nat)
    requires 0 < j < |es|
    ensures RemoveAt(es, j) != [] && RemoveAt(es, j)[0] == es[0] && RemoveAt(es, j)[1..] == RemoveAt(es[1..], j - 1)
  {
  }

  lemma {:induction false} SumRemove(op: Op, file: seq<Byte>, es: seq<Sqe>, j: nat)
    requires j < |es|
    ensures SumReported(op, file, es) ==
            Reported(op, file, es[j].off, es[j].len) + SumReported(op, file, RemoveAt(es, j))
  {
    hide Reported;
    if j == 0 {
      assert RemoveAt(es, 0) == es[1..];
    } else {
      SumRemove(op, file, es[1..], j - 1);
      RemoveLater(es, j);
    }
  }

  /** Nothing outside the window's own memory (or file range) has changed, and
      all requests in flight are disjoint pieces of its first `upto` bytes. */
  ghost predicate Framed(op: Op, w: Window, k0: State, k: State, upto: nat)
    requires Fits(w, |k0.mem|)
  {
    && |k.mem| == |k0.mem| && upto <= w.n
    && Wf(k) && Pieces(w, k.inflight, upto)
    && (forall e :: e in k.inflight ==> Kind(op, e))
    && match op
       case Read => k.file == k0.file && SameOutside(w, k0.mem, k.mem)
       case Write => k.mem == k0.mem && FileSameOutside(w, k0.file, k.file)
  }

  /** No request has failed so far: every byte below `upto` that is not in flight
      has been moved, and the reported counts add up. */
  ghost predicate Sound(op: Op, w: Window, k0: State, k: State, upto: nat, total: int)
    requires Fits(w, |k0.mem|) && |k.mem| == |k0.mem| && upto <= w.n
  {
    && total + Sum(k.cq) + SumReported(op, k0.file, k.inflight) == Reported(op, k0.file, w.fOff, upto)
    && match op
       case Read => Values(w, k0.file, k0.mem, k.mem, k.inflight, upto)
       case Write => Written(w, Gather(w, k0.mem), k0.file, k.file, k.inflight, upto)
  }

  ghost predicate Inv(op: Op, w: Window, k0: State, k: State, upto: nat, total: int)
    requires Fits(w, |k0.mem|)
  {
    Framed(op, w, k0, k, upto) && (AllOk(k.cq) ==> Sound(op, w, k0, k, upto, total))
  }

  lemma FramedCompletes(op: Op, w: Window, k0: State, k: State, upto: nat, j: nat, o: Outcome)
    requires Fits(w, |k0.mem|) && Framed(op, w, k0, k, upto) && Enabled(k, j, o)
    ensures Framed(op, w, k0, Complete(k, j, o), upto)
  {
    hide ValidRegion, Below, Shaped, HostOf, Pieces, ForWindow, SameOutside, FileSameOutside;
    var e, k' := k.inflight[j], Complete(k, j, o);
    PiecesRemove(w, k.inflight, upto, j);
    PieceInWindow(w, k.inflight, upto, j);
    assert Kind(op, e);
    match op
    case Read =>
      var data := match o case Failed(debris) => debris case Done => Pread(k.file, e.off, e.len);
      SpliceStaysInside(w, k0.mem, k.mem, e, data);
    case Write =>
      var data := match o case Failed(debris) => debris case Done => k.mem[e.addr..e.addr + e.len];
      PwriteStaysInside(w, k0.file, k.file, e, data);
  }

  lemma PieceInWindow(w: Window, es: seq<Sqe>, upto: nat, j: nat)
    requires Shaped(w) && Pieces(w, es, upto) && j < |es|
    ensures ForWindow(w, es[j]) && w.fOff <= es[j].off && es[j].off + es[j].len <= w.fOff + w.n
  {
  }

  lemma SoundCompletes(op: Op, w: Window, k0: State, k: State, upto: nat, total: int, j: nat)
    requires Fits(w, |k0.mem|) && Framed(op, w, k0, k, upto) && Sound(op, w, k0, k, upto, total)
    requires j < |k.inflight|
    ensures Framed(op, w, k0, Complete(k, j, Done), upto)
    ensures Sound(op, w, k0, Complete(k, j, Done), upto, total)
  {
    hide Fits, Pieces, SameOutside, FileSameOutside, Values, Written, Sum, SumReported, Complete, Reported;
    FramedCompletes(op, w, k0, k, upto, j, Done);
    var e, k' := k.inflight[j], Complete(k, j, Done);
    assert Kind(op, e);
    CompleteReports(op, k, j);
    assert op.Read? ==> k.file == k0.file;
    SameReport(op, k0.file, k.file, e.off, e.len);
    SumRemove(op, k0.file, k.inflight, j);
    SumAppend(k.cq, Reported(op, k0.file, e.off, e.len));
    match op
    case Read =>
      ReadCompletes(w, k0.file, k0.mem, k.mem, k.inflight, upto, j);
    case Write =>
      WriteCompletes(w, k0.mem, k0.file, k.file, k.inflight, upto, j);
  }

  /** What a request that is done has moved and reports. */
  lemma CompleteReports(op: Op, k: State, j: nat)
    requires Wf(k) && j < |k.inflight| && Kind(op, k.inflight[j])
    ensures
      var e, k' := k.inflight[j], Complete(k, j, Done);
      && k'.inflight == RemoveAt(k.inflight, j) && k'.cq == k.cq + [Reported(op, k.file, e.off, e.len)]
      && e.addr + e.len <= |k.mem|
      && (op.Read? ==> k'.mem == Splice(k.mem, e.addr, Pread(k.file, e.off, e.len)) && k'.file == k.file)
      && (op.Write? ==> k'.file == Pwrite(k.file, e.off, k.mem[e.addr..e.addr + e.len]) && k'.mem == k.mem)
  {
  }

  lemma SameReport(op: Op, file0: seq<Byte>, file: seq<Byte>, off: nat, len: nat)
    requires op.Read? ==> file == file0
    ensures Reported(op, file, off, len) == Reported(op, file0, off, len)
  {
  }

  lemma InvCompletes(op: Op, w: Window, k0: State, k: State, upto: nat, total: int, j: nat, o: Outcome)
    requires Fits(w, |k0.mem|) && Inv(op, w, k0, k, upto, total) && Enabled(k, j, o)
    ensures Inv(op, w, k0, Complete(k, j, o), upto, total)
  {
    hide Framed, Sound, Fits;
    FramedCompletes(op, w, k0, k, upto, j, o) by { FramedUnfolds(op, w, k0, k, upto); }
    var k' := Complete(k, j, o) by { FramedUnfolds(op, w, k0, k, upto); }
    if AllOk(k'.cq) {
      assert k'.cq[|k.cq|] in k'.cq;
      assert o.Done?;
      assert forall r :: r in k.cq ==> r in k'.cq;
      SoundCompletes(op, w, k0, k, upto, total, j);
    }
  }

  lemma FramedUnfolds(op: Op, w: Window, k0: State, k: State, upto: nat)
    requires Fits(w, |k0.mem|) && Framed(op, w, k0, k, upto)
    ensures Wf(k) && |k.mem| == |k0.mem| && upto <= w.n
  {
  }

  /** Any number of completions, in any order, keep the invariant. */
  lemma {:induction false} InvProgresses(op: Op, w: Window, k0: State, k: State, k': State, upto: nat, total: int,
          steps: seq<(nat, Outcome)>)
    requires Fits(w, |k0.mem|) && Inv(op, w, k0, k, upto, total) && Progress(k, k', steps)
    ensures Inv(op, w, k0, k', upto, total)
    decreases |steps|
  {
    hide Inv, Complete, Enabled, Fits;
    if steps != [] {
      InvCompletes(op, w, k0, k, upto, total, steps[0].0, steps[0].1);
      InvProgresses(op, w, k0, Complete(k, steps[0].0, steps[0].1), k', upto, total, steps[1..]);
    }
  }

  lemma {:induction false} FramedProgresses(op: Op, w: Window, k0: State, k: State, k': State, upto: nat,
          steps: seq<(nat, Outcome)>)
    requires Fits(w, |k0.mem|) && Framed(op, w, k0, k, upto) && Progress(k, k', steps)
    ensures Framed(op, w, k0, k', upto)
    decreases |steps|
  {
    hide Framed, Complete, Enabled, Fits;
    if steps != [] {
      FramedCompletes(op, w, k0, k, upto, steps[0].0, steps[0].1);
      FramedProgresses(op, w, k0, Complete(k, steps[0].0, steps[0].1), k', upto, steps[1..]);
    }
  }

  /** Reaping a successful completion moves its count into the total. */
  lemma InvReaps(op: Op, w: Window, k0: State, k: State, upto: nat, total: int)
    requires Fits(w, |k0.mem|) && Inv(op, w, k0, k, upto, total)
    requires k.cq != [] && 0 <= k.cq[0]
    ensures Inv(op, w, k0, k.(cq := k.cq[1..]), upto, total + k.cq[0])
  {
    hide Fits, Values, Written, SameOutside, FileSameOutside, Pieces;
    if AllOk(k.cq[1..]) {
      forall r | r in k.cq ensures 0 <= r {
        assert r == k.cq[0] || r in k.cq[1..];
      }
    }
  }
}
