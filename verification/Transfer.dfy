/** One transfer between a window of a registered buffer and a file, and what is
    true while its pieces complete in whatever order. */
module Transfer {
  import opened Layout
  import opened Kernel

  /** `n` bytes of region `r` from offset `bufOff`, against the file from `fOff`. */
  datatype Window = Window(r: Region, bufOff: nat, fOff: nat, n: nat)

  ghost predicate Shaped(w: Window) {
    |w.r.vaddrs| == SegCount(w.r.length) && w.bufOff + w.n <= w.r.length
  }

  ghost predicate Fits(w: Window, size: nat) {
    Shaped(w) && ValidRegion(w.r) && Below(w.r, size)
  }

  /** The host address of byte `i` of the window. */
  ghost function HostOf(w: Window, i: nat): nat
    requires Shaped(w) && i < w.n
  {
    Host(w.r, w.bufOff + i)
  }

  lemma HostOfBelow(w: Window, size: nat, i: nat)
    requires Fits(w, size) && i < w.n
    ensures HostOf(w, i) < size
  {
    hide SegLength, RangesDisjoint;
    HostInSegment(w.r, w.bufOff + i);
  }

  lemma HostOfInjective(w: Window, size: nat, i: nat, j: nat)
    requires Fits(w, size) && i < w.n && j < w.n && HostOf(w, i) == HostOf(w, j)
    ensures i == j
  {
    if i != j {
      HostInjective(w.r, w.bufOff + i, w.bufOff + j);
    }
  }

  /** Host address `a` backs some byte of the window. */
  ghost predicate InWindow(w: Window, a: nat)
    requires Shaped(w)
  {
    exists i :: 0 <= i < w.n && HostOf(w, i) == a
  }

  // ----- What one big call would do -----

  /** `mem` is `mem0` after one pread of the window. */
  ghost predicate ReadAll(w: Window, file: seq<Byte>, mem0: seq<Byte>, mem: seq<Byte>)
    requires Fits(w, |mem0|)
  {
    && |mem| == |mem0|
    && SameOutside(w, mem0, mem)
    && forall i :: 0 <= i < w.n ==> Landed(w, file, mem0, mem, i)
  }

  /** Byte `i` holds the file's byte, or its old value past end of file. */
  ghost predicate Landed(w: Window, file: seq<Byte>, mem0: seq<Byte>, mem: seq<Byte>, i: nat)
    requires Fits(w, |mem0|) && |mem| == |mem0| && i < w.n
  {
    HostOfBelow(w, |mem0|, i);
    mem[HostOf(w, i)] == if w.fOff + i < |file| then file[w.fOff + i] else mem0[HostOf(w, i)]
  }

  ghost predicate Untouched(w: Window, mem0: seq<Byte>, mem: seq<Byte>, i: nat)
    requires Fits(w, |mem0|) && |mem| == |mem0| && i < w.n
  {
    HostOfBelow(w, |mem0|, i);
    mem[HostOf(w, i)] == mem0[HostOf(w, i)]
  }

  ghost predicate SameOutside(w: Window, mem0: seq<Byte>, mem: seq<Byte>)
    requires Fits(w, |mem0|) && |mem| == |mem0|
  {
    forall a :: 0 <= a < |mem0| && !InWindow(w, a) ==> mem[a] == mem0[a]
  }

  // ----- Requests that belong to a window -----

  /** Request `e` moves bytes [Lo, Lo + len) of the window, and only those. */
  ghost predicate ForWindow(w: Window, e: Sqe)
    requires Shaped(w)
  {
    && w.fOff <= e.off && 0 < e.len && e.off + e.len <= w.fOff + w.n
    && forall i :: Lo(w, e) <= i < Lo(w, e) + e.len ==> HostOf(w, i) == e.addr + (i - Lo(w, e))
  }

  function Lo(w: Window, e: Sqe): int {
    e.off - w.fOff
  }

  predicate Has(w: Window, e: Sqe, i: int) {
    Lo(w, e) <= i < Lo(w, e) + e.len
  }

  ghost predicate Pending(w: Window, es: seq<Sqe>, i: int) {
    exists e :: e in es && Has(w, e, i)
  }

  /** The requests are disjoint pieces of the first `upto` bytes of the window. */
  ghost predicate Pieces(w: Window, es: seq<Sqe>, upto: nat)
    requires Shaped(w)
  {
    && (forall j :: 0 <= j < |es| ==> ForWindow(w, es[j]) && Lo(w, es[j]) + es[j].len <= upto)
    && forall j, k :: 0 <= j < k < |es| ==>
         es[j].off + es[j].len <= es[k].off || es[k].off + es[k].len <= es[j].off
  }

  lemma PiecesRemove(w: Window, es: seq<Sqe>, upto: nat, j: nat)
    requires Shaped(w) && Pieces(w, es, upto) && j < |es|
    ensures Pieces(w, RemoveAt(es, j), upto)
  {
    hide ForWindow, HostOf, Shaped;
  }

  /** Taking one request away un-pends exactly its own bytes. */
  lemma PendingRemove(w: Window, es: seq<Sqe>, upto: nat, j: nat, i: nat)
    requires Shaped(w) && Pieces(w, es, upto) && j < |es|
    ensures Pending(w, RemoveAt(es, j), i) <==> Pending(w, es, i) && !Has(w, es[j], i)
    ensures Has(w, es[j], i) ==> Pending(w, es, i)
  {
    hide ForWindow, HostOf, Shaped;
    var rest := RemoveAt(es, j);
    if Pending(w, es, i) && !Has(w, es[j], i) {
      var k :| 0 <= k < |es| && Has(w, es[k], i);
      assert es[k] == rest[if k < j then k else k - 1];
    }
    if Pending(w, rest, i) {
      var k :| 0 <= k < |rest| && Has(w, rest[k], i);
      assert rest[k] == es[if k < j then k else k + 1];
    }
  }

  /** A request's host range meets exactly its own bytes of the window. */
  lemma RequestAddresses(w: Window, size: nat, e: Sqe, i: nat)
    requires Fits(w, size) && ForWindow(w, e) && i < w.n
    ensures Has(w, e, i) <==> e.addr <= HostOf(w, i) < e.addr + e.len
    ensures Has(w, e, i) ==> HostOf(w, i) == e.addr + (i - Lo(w, e))
    ensures e.addr + e.len <= size
  {
    hide ValidRegion, Below, Shaped, HostOf;
    var last := Lo(w, e) + e.len - 1;
    HostOfBelow(w, size, last);
    assert HostOf(w, last) == e.addr + e.len - 1;
    if e.addr <= HostOf(w, i) < e.addr + e.len {
      var j := Lo(w, e) + (HostOf(w, i) - e.addr);
      assert HostOf(w, j) == HostOf(w, i);
      HostOfInjective(w, size, i, j);
    }
  }

  // ----- Reads -----

  /** With `es` still in flight, the other bytes below `upto` have landed and
      everything else is untouched. */
  ghost predicate Values(w: Window, file: seq<Byte>, mem0: seq<Byte>, mem: seq<Byte>, es: seq<Sqe>, upto: nat)
    requires Fits(w, |mem0|) && |mem| == |mem0|
  {
    forall i :: 0 <= i < w.n ==>
      if i < upto && !Pending(w, es, i) then Landed(w, file, mem0, mem, i) else Untouched(w, mem0, mem, i)
  }

  /** Whatever a request of the window writes, it stays inside the window. */
  lemma SpliceStaysInside(w: Window, mem0: seq<Byte>, mem: seq<Byte>, e: Sqe, data: seq<Byte>)
    requires Fits(w, |mem0|) && |mem| == |mem0| && SameOutside(w, mem0, mem)
    requires ForWindow(w, e) && |data| <= e.len && e.addr + e.len <= |mem|
    ensures SameOutside(w, mem0, Splice(mem, e.addr, data))
  {
    hide ValidRegion, Below, Shaped, HostOf;
    forall a | 0 <= a < |mem0| && !InWindow(w, a) ensures Splice(mem, e.addr, data)[a] == mem0[a] {
      if e.addr <= a < e.addr + e.len {
        assert HostOf(w, Lo(w, e) + (a - e.addr)) == a;
      }
    }
  }

  /** One read request of the batch completes: its bytes land, and the picture
      stays the same for all the others, whichever request it was. */
  lemma ReadCompletes(w: Window, file: seq<Byte>, mem0: seq<Byte>, mem: seq<Byte>, es: seq<Sqe>, upto: nat, j: nat)
    requires Fits(w, |mem0|) && |mem| == |mem0|
    requires Pieces(w, es, upto) && Values(w, file, mem0, mem, es, upto) && j < |es|
    requires es[j].addr + es[j].len <= |mem|
    ensures Values(w, file, mem0, Splice(mem, es[j].addr, Pread(file, es[j].off, es[j].len)), RemoveAt(es, j), upto)
  {
    hide ValidRegion, Below, Shaped, HostOf, Pieces, Pending, ForWindow;
    var e, rest := es[j], RemoveAt(es, j);
    var data := Pread(file, e.off, e.len);
    var mem' := Splice(mem, e.addr, data);
    PieceOfWindow(w, es, upto, j);
    forall i | 0 <= i < w.n
      ensures if i < upto && !Pending(w, rest, i) then Landed(w, file, mem0, mem', i) else Untouched(w, mem0, mem', i)
    {
      HostOfBelow(w, |mem0|, i);
      RequestAddresses(w, |mem0|, e, i);
      PendingRemove(w, es, upto, j, i);
    }
  }

  lemma PieceOfWindow(w: Window, es: seq<Sqe>, upto: nat, j: nat)
    requires Shaped(w)
    requires Pieces(w, es, upto) && j < |es|
    ensures ForWindow(w, es[j]) && Lo(w, es[j]) + es[j].len <= upto && 0 <= Lo(w, es[j])
  {
  }

  // ----- Writes -----

  /** The window's bytes as they lie in memory, in window order. */
  ghost function Gather(w: Window, mem: seq<Byte>): (data: seq<Byte>)
    requires Fits(w, |mem|)
    ensures |data| == w.n
    ensures forall i :: 0 <= i < w.n ==> (HostOfBelow(w, |mem|, i); data[i] == mem[HostOf(w, i)])
  {
    seq(w.n, i requires 0 <= i < w.n => (HostOfBelow(w, |mem|, i); mem[HostOf(w, i)]))
  }

  /** With `es` in flight, the other bytes below `upto` are in the file, holes
      read as zeros and the rest of the file is as it was. */
  ghost predicate Written(w: Window, data: seq<Byte>, file0: seq<Byte>, file: seq<Byte>, es: seq<Sqe>, upto: nat)
    requires |data| == w.n && upto <= w.n
  {
    && |file0| <= |file| <= Max(|file0|, w.fOff + upto)
    && (forall i :: 0 <= i < upto && !Pending(w, es, i) ==> w.fOff + i < |file|)
    && forall p :: 0 <= p < |file| ==> file[p] == ByteAt(w, data, file0, es, upto, p)
  }

  /** The byte that is then at position `p` of the file. */
  ghost function ByteAt(w: Window, data: seq<Byte>, file0: seq<Byte>, es: seq<Sqe>, upto: nat, p: nat): Byte
    requires |data| == w.n && upto <= w.n
  {
    if w.fOff <= p < w.fOff + upto && !Pending(w, es, p - w.fOff) then data[p - w.fOff]
    else if p < |file0| then file0[p] else 0
  }

  lemma WriteCompletes(w: Window, mem: seq<Byte>, file0: seq<Byte>, file: seq<Byte>, es: seq<Sqe>, upto: nat, j: nat)
    requires Fits(w, |mem|) && upto <= w.n
    requires Pieces(w, es, upto) && Written(w, Gather(w, mem), file0, file, es, upto) && j < |es|
    requires es[j].addr + es[j].len <= |mem|
    ensures Written(w, Gather(w, mem), file0, Pwrite(file, es[j].off, mem[es[j].addr..es[j].addr + es[j].len]),
      RemoveAt(es, j), upto)
  {
    hide ValidRegion, Below, Shaped, HostOf, Pieces, Pending, ForWindow, RemoveAt, Pwrite, Gather;
    var e, rest, all := es[j], RemoveAt(es, j), Gather(w, mem);
    var data := mem[e.addr..e.addr + e.len];
    var file' := Pwrite(file, e.off, data);
    PieceOfWindow(w, es, upto, j);
    forall i | 0 <= i < upto && !Pending(w, rest, i) ensures w.fOff + i < |file'| {
      WriteMoves(w, mem, es, upto, j, i);
    }
    forall p | 0 <= p < |file'| ensures file'[p] == ByteAt(w, all, file0, rest, upto, p) {
      if w.fOff <= p < w.fOff + upto {
        WriteMoves(w, mem, es, upto, j, p - w.fOff);
      }
      if p < |file| {
        assert file[p] == ByteAt(w, all, file0, es, upto, p);
      }
    }
  }

  /** What the completion of request `j` changes for byte `i` of the window. */
  lemma WriteMoves(w: Window, mem: seq<Byte>, es: seq<Sqe>, upto: nat, j: nat, i: nat)
    requires Fits(w, |mem|) && upto <= w.n && Pieces(w, es, upto) && j < |es| && i < w.n
    requires es[j].addr + es[j].len <= |mem|
    ensures Pending(w, RemoveAt(es, j), i) <==> Pending(w, es, i) && !Has(w, es[j], i)
    ensures Has(w, es[j], i) ==>
      Pending(w, es, i) && mem[es[j].addr..es[j].addr + es[j].len][i - Lo(w, es[j])] == Gather(w, mem)[i]
  {
    HostOfBelow(w, |mem|, i);
    RequestAddresses(w, |mem|, es[j], i);
    PendingRemove(w, es, upto, j, i);
  }

  /** The file has changed inside the window's range only. */
  ghost predicate FileSameOutside(w: Window, file0: seq<Byte>, file: seq<Byte>) {
    && |file0| <= |file| <= Max(|file0|, w.fOff + w.n)
    && forall p :: 0 <= p < |file| && !(w.fOff <= p < w.fOff + w.n) ==>
         file[p] == if p < |file0| then file0[p] else 0
  }

  lemma PwriteStaysInside(w: Window, file0: seq<Byte>, file: seq<Byte>, e: Sqe, data: seq<Byte>)
    requires FileSameOutside(w, file0, file)
    requires w.fOff <= e.off && e.off + e.len <= w.fOff + w.n && |data| <= e.len
    ensures FileSameOutside(w, file0, Pwrite(file, e.off, data))
  {
  }
}
