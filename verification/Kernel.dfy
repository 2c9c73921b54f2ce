/** What the operating system promises about file transfers: pread and pwrite
    on byte sequences, and io_uring requests that complete one at a time, in any
    order, each of which may fail. */
module Kernel {
  import opened Layout
  import opened Sizes

  type Byte = bv8

  function Min(a: nat, b: nat): nat { if a <= b then a else b }
  function Max(a: nat, b: nat): nat { if a <= b then b else a }

  /** The bytes pread returns: short only at end of file. */
  function Pread(file: seq<Byte>, off: nat, n: nat): (data: seq<Byte>)
    ensures |data| == if off < |file| then Min(n, |file| - off) else 0
    ensures forall i :: 0 <= i < |data| ==> data[i] == file[off + i]
  {
    if off < |file| then file[off..Min(off + n, |file|)] else []
  }

  /** Overwrite part of memory. */
  function Splice(mem: seq<Byte>, a: nat, data: seq<Byte>): (mem': seq<Byte>)
    requires a + |data| <= |mem|
    ensures |mem'| == |mem|
    ensures forall i :: 0 <= i < |mem| ==> mem'[i] == if a <= i < a + |data| then data[i - a] else mem[i]
  {
    mem[..a] + data + mem[a + |data|..]
  }

  /** The file after pwrite: it grows as needed, and a hole reads as zeros. */
  function Pwrite(file: seq<Byte>, off: nat, data: seq<Byte>): (file': seq<Byte>)
    ensures |file'| == if data == [] then |file| else Max(|file|, off + |data|)
    ensures forall i :: 0 <= i < |file'| ==>
              file'[i] == if off <= i < off + |data| then data[i - off] else if i < |file| then file[i] else 0
  {
    if data == [] then file else
      seq(Max(|file|, off + |data|), i requires 0 <= i =>
        if off <= i < off + |data| then data[i - off] else if i < |file| then file[i] else 0)
  }

  /** A submission queue entry: transfer `len` bytes between host address `addr`
      and file offset `off`. */
  datatype Sqe = ReadSqe(addr: nat, len: nat, off: nat) | WriteSqe(addr: nat, len: nat, off: nat)

  /** How the kernel finishes a request: fully (up to end of file), or with an
      error after having moved some arbitrary bytes. */
  datatype Outcome = Done | Failed(debris: seq<Byte>)

  /** Memory, the file, the requests in flight and the completions not yet seen. */
  datatype State = State(mem: seq<Byte>, file: seq<Byte>, inflight: seq<Sqe>, cq: seq<int>)

  ghost predicate Wf(k: State) {
    forall e :: e in k.inflight ==> e.addr + e.len <= |k.mem|
  }

  function RemoveAt<T>(s: seq<T>, j: nat): (s': seq<T>)
    requires j < |s|
    ensures |s'| == |s| - 1
    ensures forall i :: 0 <= i < |s'| ==> s'[i] == if i < j then s[i] else s[i + 1]
    ensures forall x :: x in s' ==> x in s
  {
    s[..j] + s[j + 1..]
  }

  ghost predicate Enabled(k: State, j: nat, o: Outcome) {
    j < |k.inflight| && (o.Failed? ==> |o.debris| <= k.inflight[j].len)
  }

  /** Request `j` completes with outcome `o`. */
  function Complete(k: State, j: nat, o: Outcome): (k': State)
    requires Wf(k) && Enabled(k, j, o)
    ensures Wf(k')
    ensures |k'.mem| == |k.mem| && k'.inflight == RemoveAt(k.inflight, j) && |k'.cq| == |k.cq| + 1
  {
    var e := k.inflight[j];
    var moved := match o
      case Failed(debris) => debris
      case Done => if e.ReadSqe? then Pread(k.file, e.off, e.len) else k.mem[e.addr..e.addr + e.len];
    var res := if o.Failed? then -5 else |moved|;
    State(
      if e.ReadSqe? then Splice(k.mem, e.addr, moved) else k.mem,
      if e.ReadSqe? then k.file else Pwrite(k.file, e.off, moved),
      RemoveAt(k.inflight, j),
      k.cq + [res])
  }

  /** The kernel made some progress: a sequence of completions, in any order. */
  ghost predicate Progress(k: State, k': State, steps: seq<(nat, Outcome)>)
    decreases |steps|
  {
    if steps == [] then k == k' else
      Wf(k) && Enabled(k, steps[0].0, steps[0].1) &&
      Progress(Complete(k, steps[0].0, steps[0].1), k', steps[1..])
  }

  lemma {:induction false} ProgressSnoc(k: State, k': State, steps: seq<(nat, Outcome)>, j: nat, o: Outcome)
    requires Progress(k, k', steps) && Wf(k') && Enabled(k', j, o)
    ensures Progress(k, Complete(k', j, o), steps + [(j, o)])
    decreases |steps|
  {
    hide Complete, Enabled, Wf;
    if steps == [] {
      assert (steps + [(j, o)])[1..] == [];
    } else {
      ProgressSnoc(Complete(k, steps[0].0, steps[0].1), k', steps[1..], j, o);
      assert (steps + [(j, o)])[1..] == steps[1..] + [(j, o)];
    }
  }

  /** How many of the results are errors. */
  function Negatives(cq: seq<int>): nat {
    if cq == [] then 0 else Negatives(cq[..|cq| - 1]) + if cq[|cq| - 1] < 0 then 1 else 0
  }

  lemma NegativesSnoc(cq: seq<int>, r: int)
    ensures Negatives(cq + [r]) == Negatives(cq) + if r < 0 then 1 else 0
  {
    assert (cq + [r])[..|cq|] == cq;
  }

  lemma {:induction false} NegativesHead(cq: seq<int>)
    requires cq != []
    ensures Negatives(cq) == Negatives(cq[1..]) + if cq[0] < 0 then 1 else 0
  {
    if |cq| > 1 {
      var n := |cq| - 1;
      assert cq[..n][1..] == cq[1..][..n - 1];
      NegativesHead(cq[..n]);
    } else {
      assert cq[..0] == [] == cq[1..];
    }
  }

  /** A completion posts an error exactly if the request failed. */
  lemma CompletePosts(k: State, j: nat, o: Outcome)
    requires Wf(k) && Enabled(k, j, o)
    ensures Negatives(Complete(k, j, o).cq) == Negatives(k.cq) + if o.Failed? then 1 else 0
  {
    hide Pread, Splice, Pwrite;
    var res := Complete(k, j, o).cq[|k.cq|];
    assert Complete(k, j, o).cq == k.cq + [res];
    NegativesSnoc(k.cq, res);
  }

  /** The user side of an io_uring: entries prepared but not submitted, and the
      kernel behind it. The submission queue has 256 slots. */
  class Uring {
    var sq: seq<Sqe>
    var kernel: State
    ghost var errors: nat // requests that have failed so far

    constructor (mem: seq<Byte>, file: seq<Byte>)
      ensures sq == [] && kernel == State(mem, file, [], []) && errors == 0
    {
      sq, kernel, errors := [], State(mem, file, [], []), 0;
    }

    /** Nothing prepared, in flight or unreaped. */
    predicate Quiet()
      reads this
    {
      sq == [] && kernel.inflight == [] && kernel.cq == []
    }

    /** io_uring_get_sqe and io_uring_prep_*: fails when the queue is full. */
    method Prepare(e: Sqe) returns (ok: bool)
      modifies this`sq
      ensures ok <==> |old(sq)| < QUEUE_DEPTH
      ensures sq == if ok then old(sq) + [e] else old(sq)
    {
      ok := |sq| < QUEUE_DEPTH;
      if ok {
        sq := sq + [e];
      }
    }

    /** io_uring_submit: the kernel takes the whole queue. */
    method Submit() returns (submitted: nat)
      modifies this`sq, this`kernel
      ensures submitted == |old(sq)| && sq == []
      ensures kernel == old(kernel).(inflight := old(kernel).inflight + old(sq))
    {
      submitted := |sq|;
      kernel := kernel.(inflight := kernel.inflight + sq);
      sq := [];
    }

    /** Any number of requests complete, in any order and with any outcome; at
        least one does when `wait` is set and no completion is there yet. */
    method Run(wait: bool) returns (ghost steps: seq<(nat, Outcome)>)
      requires Wf(kernel)
      requires wait ==> kernel.inflight != [] || kernel.cq != []
      modifies this`kernel, this`errors
      ensures Wf(kernel) && Progress(old(kernel), kernel, steps)
      ensures old(errors) <= errors && errors + Negatives(old(kernel).cq) == old(errors) + Negatives(kernel.cq)
      ensures wait ==> kernel.cq != []
      ensures |kernel.inflight| + |kernel.cq| == |old(kernel).inflight| + |old(kernel).cq|
    {
      steps := [];
      while true
        invariant Wf(kernel) && Progress(old(kernel), kernel, steps)
        invariant old(errors) <= errors && errors + Negatives(old(kernel).cq) == old(errors) + Negatives(kernel.cq)
        invariant |kernel.inflight| + |kernel.cq| == |old(kernel).inflight| + |old(kernel).cq|
        decreases |kernel.inflight|
      {
        var more: bool := *;
        if kernel.inflight == [] || (!more && (!wait || kernel.cq != [])) {
          break;
        }
        var j: nat :| j < |kernel.inflight|;
        var o := Done;
        if * {
          var debris: seq<Byte> :| |debris| <= kernel.inflight[j].len;
          o := Failed(debris);
        }
        ProgressSnoc(old(kernel), kernel, steps, j, o);
        steps := steps + [(j, o)];
        CompletePosts(kernel, j, o);
        errors := if o.Failed? then errors + 1 else errors;
        kernel := Complete(kernel, j, o);
      }
    }

    /** io_uring_wait_cqe */
    method WaitCqe() returns (res: int, ghost steps: seq<(nat, Outcome)>)
      requires Wf(kernel) && (kernel.inflight != [] || kernel.cq != [])
      modifies this`kernel, this`errors
      ensures Wf(kernel) && Progress(old(kernel), kernel, steps)
      ensures old(errors) <= errors && errors + Negatives(old(kernel).cq) == old(errors) + Negatives(kernel.cq)
      ensures kernel.cq != [] && res == kernel.cq[0]
      ensures |kernel.inflight| + |kernel.cq| == |old(kernel).inflight| + |old(kernel).cq|
    {
      steps := Run(true);
      res := kernel.cq[0];
    }

    /** io_uring_peek_cqe: whether a completion is there, without waiting. */
    method PeekCqe() returns (there: bool, ghost steps: seq<(nat, Outcome)>)
      requires Wf(kernel)
      modifies this`kernel, this`errors
      ensures Wf(kernel) && Progress(old(kernel), kernel, steps)
      ensures old(errors) <= errors && errors + Negatives(old(kernel).cq) == old(errors) + Negatives(kernel.cq)
      ensures there <==> kernel.cq != []
      ensures |kernel.inflight| + |kernel.cq| == |old(kernel).inflight| + |old(kernel).cq|
    {
      steps := Run(false);
      there := kernel.cq != [];
    }

    /** io_uring_cqe_seen */
    method Seen()
      requires kernel.cq != []
      modifies this`kernel
      ensures kernel == old(kernel).(cq := old(kernel).cq[1..])
    {
      kernel := kernel.(cq := kernel.cq[1..]);
    }
  }
}
