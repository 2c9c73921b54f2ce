/** Cutting a window into requests: the entries of consecutive transfer tables
    tile it, so a freshly submitted batch starts with the invariant. */
module Tiling {
  import opened Layout
  import opened Kernel
  import opened Transfer
  import opened Batch

  /** The requests cover bytes [lo, hi) of the window, in order, without gaps. */
  ghost predicate Tiles(w: Window, es: seq<Sqe>, lo: nat, hi: nat)
    requires Shaped(w)
    decreases |es|
  {
    if es == [] then lo == hi
    else ForWindow(w, es[0]) && es[0].off == w.fOff + lo && Tiles(w, es[1..], lo + es[0].len, hi)
  }

  lemma {:induction false} TilesAppend(w: Window, es: seq<Sqe>, fs: seq<Sqe>, lo: nat, mid: nat, hi: nat)
    requires Shaped(w) && Tiles(w, es, lo, mid) && Tiles(w, fs, mid, hi)
    ensures Tiles(w, es + fs, lo, hi)
    decreases |es|
  {
    hide ForWindow, Shaped;
    if es == [] {
      assert es + fs == fs;
    } else {
      TilesAppend(w, es[1..], fs, lo + es[0].len, mid, hi);
      assert (es + fs)[1..] == es[1..] + fs;
    }
  }

  lemma {:induction false} TilesBounds(w: Window, es: seq<Sqe>, lo: nat, hi: nat)
    requires Shaped(w) && Tiles(w, es, lo, hi)
    ensures lo <= hi && (es != [] ==> lo < hi <= w.n)
    ensures forall j :: 0 <= j < |es| ==>
              ForWindow(w, es[j]) && 0 < es[j].len && w.fOff + lo <= es[j].off && es[j].off + es[j].len <= w.fOff + hi
    decreases |es|
  {
    hide HostOf, Shaped;
    if es != [] {
      TilesBounds(w, es[1..], lo + es[0].len, hi);
      forall j | 0 <= j < |es|
        ensures ForWindow(w, es[j]) && 0 < es[j].len && w.fOff + lo <= es[j].off && es[j].off + es[j].len <= w.fOff + hi
      {
        if j > 0 {
          assert es[j] == es[1..][j - 1];
        }
      }
    }
  }

  lemma {:induction false} TilesDisjoint(w: Window, es: seq<Sqe>, lo: nat, hi: nat)
    requires Shaped(w) && Tiles(w, es, lo, hi)
    ensures Pieces(w, es, hi)
    decreases |es|
  {
    hide ForWindow, Shaped;
    TilesBounds(w, es, lo, hi);
    if es != [] {
      TilesDisjoint(w, es[1..], lo + es[0].len, hi);
      TilesBounds(w, es[1..], lo + es[0].len, hi);
      forall j, k | 0 <= j < k < |es|
        ensures es[j].off + es[j].len <= es[k].off || es[k].off + es[k].len <= es[j].off
      {
        assert es[k] == es[1..][k - 1];
        if j > 0 {
          assert es[j] == es[1..][j - 1];
        }
      }
    }
  }

  lemma {:induction false} TilesPend(w: Window, es: seq<Sqe>, lo: nat, hi: nat, i: nat)
    requires Shaped(w) && Tiles(w, es, lo, hi)
    ensures Pending(w, es, i) <==> lo <= i < hi
    decreases |es|
  {
    hide ForWindow, Shaped;
    TilesBounds(w, es, lo, hi);
    if es != [] {
      TilesPend(w, es[1..], lo + es[0].len, hi, i);
      TilesBounds(w, es[1..], lo + es[0].len, hi);
      assert es == [es[0]] + es[1..];
      assert Pending(w, es, i) <==> Has(w, es[0], i) || Pending(w, es[1..], i);
    }
  }

  /** Transfers of adjacent ranges report, together, what one transfer of the
      whole range would: for reads also across end of file. */
  lemma ReportedAdds(op: Op, file: seq<Byte>, off: nat, a: nat, b: nat)
    ensures Reported(op, file, off, a + b) == Reported(op, file, off, a) + Reported(op, file, off + a, b)
  {
  }

  lemma {:induction false} TilesReport(op: Op, w: Window, file: seq<Byte>, es: seq<Sqe>, lo: nat, hi: nat)
    requires Shaped(w) && Tiles(w, es, lo, hi)
    ensures Reported(op, file, w.fOff, lo) + SumReported(op, file, es) == Reported(op, file, w.fOff, hi)
    decreases |es|
  {
    hide ForWindow, Shaped, Reported;
    if es != [] {
      TilesReport(op, w, file, es[1..], lo + es[0].len, hi);
      ReportedAdds(op, file, w.fOff, lo, es[0].len);
    }
  }

  /** Requests for the entries of a table, file offsets following on. */
  function Requests(op: Op, t: seq<Xfer>, off: nat): (es: seq<Sqe>)
    ensures |es| == |t|
    ensures forall e :: e in es ==> Kind(op, e)
  {
    if t == [] then [] else
      [match op
       case Read => ReadSqe(t[0].target, t[0].nbyte, off)
       case Write => WriteSqe(t[0].target, t[0].nbyte, off)]
      + Requests(op, t[1..], off + t[0].nbyte)
  }

  /** The first request of a table is a piece of the window. */
  lemma FirstTile(w: Window, lo: nat, size: nat, e: Sqe)
    requires Shaped(w) && ValidRegion(w.r) && lo + size <= w.n && 0 < size
    requires e.addr == Host(w.r, w.bufOff + lo) && e.len == Chunk(w.bufOff + lo, size) && e.off == w.fOff + lo
    ensures ForWindow(w, e)
  {
    hide SegCount, SegLength, Host, Chunk;
    forall i | lo <= i < lo + e.len ensures HostOf(w, i) == e.addr + (i - lo) {
      HostConsecutive(w.r, w.bufOff + lo, i - lo);
      assert w.bufOff + lo + (i - lo) == w.bufOff + i;
    }
    assert Lo(w, e) == lo;
  }

  /** The table of bytes [lo, lo + size) of the window tiles them. */
  lemma {:induction false} TableTiles(op: Op, w: Window, lo: nat, size: nat)
    requires Shaped(w) && ValidRegion(w.r) && lo + size <= w.n
    ensures Tiles(w, Requests(op, Table(w.r, w.bufOff + lo, size), w.fOff + lo), lo, lo + size)
    decreases size
  {
    hide SegCount, SegLength, Host, Chunk, ForWindow, ValidRegion;
    if size != 0 {
      var t := Table(w.r, w.bufOff + lo, size);
      var k := Chunk(w.bufOff + lo, size);
      var es := Requests(op, t, w.fOff + lo);
      assert t[0] == Xfer(Host(w.r, w.bufOff + lo), k);
      assert w.bufOff + lo + k == w.bufOff + (lo + k);
      assert t[1..] == Table(w.r, w.bufOff + (lo + k), size - k);
      assert es[1..] == Requests(op, t[1..], w.fOff + (lo + k));
      TableTiles(op, w, lo + k, size - k);
      FirstTile(w, lo, size, es[0]);
    }
  }

  /** Submitting requests that tile the next `hi - lo` bytes starts the batch
      with the invariant. */
  lemma Launch(op: Op, w: Window, k0: State, k: State, es: seq<Sqe>, lo: nat, hi: nat, total: int)
    requires Fits(w, |k0.mem|) && Inv(op, w, k0, k, lo, total) && k.inflight == [] && k.cq == []
    requires Tiles(w, es, lo, hi) && hi <= w.n && forall e :: e in es ==> Kind(op, e)
    ensures Inv(op, w, k0, k.(inflight := es), hi, total)
  {
    hide Shaped, ValidRegion, Below, HostOf, Pieces, Pending, ForWindow, SameOutside, FileSameOutside, Tiles, Landed,
      Untouched, Reported;
    TilesBounds(w, es, lo, hi);
    TilesDisjoint(w, es, lo, hi);
    TilesReport(op, w, k0.file, es, lo, hi);
    forall e | e in es ensures e.addr + e.len <= |k.mem| {
      RequestAddresses(w, |k0.mem|, e, Lo(w, e));
    }
    forall i | 0 <= i < w.n
      ensures Pending(w, es, i) <==> lo <= i < hi
      ensures !Pending(w, [], i)
    {
      TilesPend(w, es, lo, hi, i);
      NonePending(w, i);
    }
  }

  lemma NonePending(w: Window, i: int)
    ensures !Pending(w, [], i)
  {
  }
}
