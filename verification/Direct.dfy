/** The synchronous executors of the transfer table: fgds_read_direct,
    fgds_write_direct and the CUDA stream callback. */
module Direct {
  import opened Layout
  import opened Registry
  import opened XferTable
  import opened Kernel
  import opened Transfer
  import opened Batch
  import opened Tiling
  import opened Pipeline

  /** The kernel state after the request `e` alone has run with outcome `o`. */
  ghost function After(k: State, e: Sqe, o: Outcome): State
    requires e.addr + e.len <= |k.mem| && (o.Failed? ==> |o.debris| <= e.len)
  {
    Complete(k.(inflight := [e], cq := []), 0, o)
  }

  function Request(op: Op, addr: nat, len: nat, off: nat): Sqe {
    match op
    case Read => ReadSqe(addr, len, off)
    case Write => WriteSqe(addr, len, off)
  }

  /** pread or pwrite: one request, run to completion. */
  method Sync(op: Op, ring: Uring, addr: nat, len: nat, off: nat) returns (ret: int, ghost o: Outcome)
    requires ring.Quiet() && addr + len <= |ring.kernel.mem|
    modifies ring`kernel, ring`errors
    ensures o.Failed? ==> |o.debris| <= len
    ensures ring.Quiet() && ring.kernel == After(old(ring.kernel), Request(op, addr, len, off), o).(cq := [])
    ensures ret == if o.Failed? then -1 else After(old(ring.kernel), Request(op, addr, len, off), o).cq[0]
    ensures ret < 0 <==> o.Failed?
    ensures ring.errors == old(ring.errors) + if o.Failed? then 1 else 0
  {
    var outcome := Done;
    if * {
      var debris: seq<Byte> :| |debris| <= len;
      outcome := Failed(debris);
    }
    o := outcome;
    var k := Complete(ring.kernel.(inflight := [Request(op, addr, len, off)], cq := []), 0, outcome);
    ret := if outcome.Failed? then -1 else k.cq[0];
    ring.kernel := k.(cq := []);
    ring.errors := if o.Failed? then ring.errors + 1 else ring.errors;
  }

  /** Past end of file the exact offset no longer matters, so counting the bytes
      actually read, as the source does, asks for the same bytes. */
  lemma OffsetAfterShortRead(op: Op, k: State, addr: nat, len: nat, fOff: nat, pos: nat, total: nat, o: Outcome)
    requires addr + len <= |k.mem| && (o.Failed? ==> |o.debris| <= len)
    requires total == Reported(op, k.file, fOff, pos)
    ensures After(k, Request(op, addr, len, fOff + total), o) == After(k, Request(op, addr, len, fOff + pos), o)
  {
    if op == Read && total < pos {
      assert Pread(k.file, fOff + total, len) == [] == Pread(k.file, fOff + pos, len);
    }
  }

  /** A lone request that tiles the next bytes of the window keeps the frame,
      whatever its outcome... */
  lemma SyncKeepsFrame(op: Op, w: Window, k0: State, k: State, addr: nat, len: nat, pos: nat, o: Outcome)
    requires Fits(w, |k0.mem|) && Framed(op, w, k0, k, pos) && addr + len <= |k.mem|
      && (o.Failed? ==> |o.debris| <= len)
    requires pos + len <= w.n && Tiles(w, [Request(op, addr, len, w.fOff + pos)], pos, pos + len)
    ensures Framed(op, w, k0, After(k, Request(op, addr, len, w.fOff + pos), o).(cq := []), pos + len)
  {
    hide Fits, Tiles, Complete, SameOutside, FileSameOutside, Pieces;
    var e := Request(op, addr, len, w.fOff + pos);
    LaunchFramed(op, w, k0, k, [e], pos, pos + len);
    FramedCompletes(op, w, k0, k.(inflight := [e], cq := []), pos + len, 0, o);
  }

  /** ...and the whole invariant when it succeeds. */
  lemma SyncKeepsInv(op: Op, w: Window, k0: State, k: State, addr: nat, len: nat, pos: nat, total: int)
    requires Fits(w, |k0.mem|) && Inv(op, w, k0, k, pos, total) && k.inflight == [] && k.cq == []
      && addr + len <= |k.mem|
    requires pos + len <= w.n && Tiles(w, [Request(op, addr, len, w.fOff + pos)], pos, pos + len)
    ensures var k' := After(k, Request(op, addr, len, w.fOff + pos), Done);
            Inv(op, w, k0, k'.(cq := []), pos + len, total + k'.cq[0])
  {
    hide Fits, Tiles, Inv;
    var e := Request(op, addr, len, w.fOff + pos);
    var mid, k' := k.(inflight := [e], cq := []), After(k, e, Done);
    Launch(op, w, k0, k, [e], pos, pos + len, total);
    assert mid == k.(inflight := [e]);
    InvCompletes(op, w, k0, mid, pos + len, total, 0, Done);
    InvReaps(op, w, k0, k', pos + len, total);
    assert k'.cq[1..] == [];
  }

  lemma LaunchFramed(op: Op, w: Window, k0: State, k: State, es: seq<Sqe>, lo: nat, hi: nat)
    requires Fits(w, |k0.mem|) && Framed(op, w, k0, k, lo)
    requires Tiles(w, es, lo, hi) && hi <= w.n && forall e :: e in es ==> Kind(op, e)
    ensures Framed(op, w, k0, k.(inflight := es, cq := []), hi)
  {
    hide Shaped, ValidRegion, Below, HostOf, Pieces, ForWindow, SameOutside, FileSameOutside, Tiles;
    TilesBounds(w, es, lo, hi);
    TilesDisjoint(w, es, lo, hi);
    forall e | e in es ensures e.addr + e.len <= |k.mem| {
      RequestAddresses(w, |k0.mem|, e, Lo(w, e));
    }
  }

  /** What is left of a table still tiles the rest of the window. */
  ghost predicate RestTiles(op: Op, w: Window, t: seq<Xfer>, i: nat, pos: nat)
    requires i <= |t| && Shaped(w)
  {
    pos <= w.n && Tiles(w, Requests(op, t[i..], w.fOff + pos), pos, w.n)
  }

  lemma RestStep(op: Op, w: Window, size: nat, t: seq<Xfer>, i: nat, pos: nat)
    requires Fits(w, size) && i < |t| && RestTiles(op, w, t, i, pos)
    ensures pos + t[i].nbyte <= w.n && t[i].target + t[i].nbyte <= size
    ensures Tiles(w, [Request(op, t[i].target, t[i].nbyte, w.fOff + pos)], pos, pos + t[i].nbyte)
    ensures RestTiles(op, w, t, i + 1, pos + t[i].nbyte)
  {
    hide Below, ValidRegion, HostOf, ForWindow, Shaped;
    var es := Requests(op, t[i..], w.fOff + pos);
    assert t[i..][1..] == t[i + 1..];
    assert es[0] == Request(op, t[i].target, t[i].nbyte, w.fOff + pos);
    assert es[1..] == Requests(op, t[i + 1..], w.fOff + pos + t[i].nbyte);
    TilesBounds(w, es, pos, w.n);
    TilesBounds(w, es[1..], pos + t[i].nbyte, w.n);
    RequestAddresses(w, size, es[0], pos);
  }

  lemma TableRest(op: Op, w: Window)
    requires Shaped(w) && ValidRegion(w.r)
    ensures RestTiles(op, w, Table(w.r, w.bufOff, w.n), 0, 0)
  {
    hide Tiles, ForWindow, Table;
    TableTiles(op, w, 0, w.n);
    var t := Table(w.r, w.bufOff, w.n);
    assert t[0..] == t;
  }

  /** The loop of fgds_read_direct and fgds_write_direct: stop at the first error. */
  method RunTable(op: Op, ring: Uring, t: seq<Xfer>, fOff: nat, ghost w: Window) returns (rc: int, ghost ioFailed: bool)
    requires ring.Quiet() && Fits(w, |ring.kernel.mem|) && w.fOff == fOff
    requires RestTiles(op, w, t, 0, 0)
    modifies ring`kernel, ring`errors
    ensures ring.Quiet() && Framed(op, w, old(ring.kernel), ring.kernel, w.n)
    ensures old(ring.errors) <= ring.errors && (ioFailed <==> old(ring.errors) < ring.errors)
    ensures ioFailed ==> rc == -1
    ensures !ioFailed ==> rc == Reported(op, old(ring.kernel).file, fOff, w.n)
    ensures !ioFailed ==> Inv(op, w, old(ring.kernel), ring.kernel, w.n, rc)
  {
    hide Framed, Inv, ValidRegion, Below, Shaped, RestTiles, After, Reported, Tiles;
    ioFailed := false;
    var total: nat := 0;
    ghost var pos: nat, k0 := 0, ring.kernel;
    InvStarts(op, w, k0);
    InvUnfolds(op, w, k0, k0, 0, 0);
    NothingReported(op, k0.file, fOff);
    for i := 0 to |t|
      invariant ring.Quiet() && pos <= w.n && RestTiles(op, w, t, i, pos)
      invariant |ring.kernel.mem| == |k0.mem| && (op == Read ==> ring.kernel.file == k0.file)
      invariant total == Reported(op, k0.file, fOff, pos) && ring.errors == old(ring.errors)
      invariant Inv(op, w, k0, ring.kernel, pos, total)
    {
      ghost var k := ring.kernel;
      RestStep(op, w, |k0.mem|, t, i, pos);
      var ret, o := Sync(op, ring, t[i].target, t[i].nbyte, fOff + total);
      SyncOffset(op, k0, k, t[i].target, t[i].nbyte, fOff, pos, total, o);
      InvUnfolds(op, w, k0, k, pos, total);
      SyncKeepsFrame(op, w, k0, k, t[i].target, t[i].nbyte, pos, o);
      SyncSizes(op, k, Request(op, t[i].target, t[i].nbyte, fOff + pos), o);
      if ret < 0 {
        FramedWidens(op, w, k0, ring.kernel, pos + t[i].nbyte);
        return -1, true;
      }
      SyncKeepsInv(op, w, k0, k, t[i].target, t[i].nbyte, pos, total);
      total := total + ret;
      pos := pos + t[i].nbyte;
      InvCounts(op, w, k0, ring.kernel, pos, total);
    }
    RestEnds(op, w, t, pos);
    InvUnfolds(op, w, k0, ring.kernel, pos, total);
    rc := total;
  }

  lemma NothingReported(op: Op, file: seq<Byte>, off: nat)
    ensures Reported(op, file, off, 0) == 0
  {
  }

  lemma RestEnds(op: Op, w: Window, t: seq<Xfer>, pos: nat)
    requires Shaped(w) && RestTiles(op, w, t, |t|, pos)
    ensures pos == w.n
  {
  }

  lemma SyncOffset(op: Op, k0: State, k: State, addr: nat, len: nat, fOff: nat, pos: nat, total: nat, o: Outcome)
    requires addr + len <= |k.mem| && (o.Failed? ==> |o.debris| <= len)
    requires (op == Read ==> k.file == k0.file) && total == Reported(op, k0.file, fOff, pos)
    ensures After(k, Request(op, addr, len, fOff + total), o) == After(k, Request(op, addr, len, fOff + pos), o)
  {
    hide After;
    OffsetAfterShortRead(op, k, addr, len, fOff, pos, total, o);
  }

  lemma SyncSizes(op: Op, k: State, e: Sqe, o: Outcome)
    requires e.addr + e.len <= |k.mem| && (o.Failed? ==> |o.debris| <= e.len) && Kind(op, e)
    ensures |After(k, e, o).mem| == |k.mem| && |After(k, e, o).cq| == 1
    ensures op == Read ==> After(k, e, o).file == k.file
    ensures o.Done? ==> 0 <= After(k, e, o).cq[0]
  {
  }

  lemma InvCounts(op: Op, w: Window, k0: State, k: State, upto: nat, total: int)
    requires Fits(w, |k0.mem|) && Inv(op, w, k0, k, upto, total) && k.inflight == [] && k.cq == []
    ensures total == Reported(op, k0.file, w.fOff, upto)
    ensures |k.mem| == |k0.mem| && (op == Read ==> k.file == k0.file)
  {
    hide Fits, Pieces, SameOutside, FileSameOutside, Values, Written, Reported;
  }

  /** The loop of fgds_callback: errors are added to the count like any other
      return value and the loop goes on. So `bytesDone` is the count of one big
      call exactly when no piece failed. */
  method Callback(op: Op, ring: Uring, t: seq<Xfer>, fOff: nat, ghost w: Window)
    returns (bytesDone: int, ghost failures: nat)
    requires ring.Quiet() && Fits(w, |ring.kernel.mem|) && w.fOff == fOff
    requires RestTiles(op, w, t, 0, 0)
    modifies ring`kernel, ring`errors
    ensures ring.Quiet() && Framed(op, w, old(ring.kernel), ring.kernel, w.n)
    ensures ring.errors == old(ring.errors) + failures
    ensures bytesDone == Reported(op, old(ring.kernel).file, fOff, w.n) <==> failures == 0
    ensures failures == 0 ==> Inv(op, w, old(ring.kernel), ring.kernel, w.n, bytesDone)
  {
    hide Framed, Inv, ValidRegion, Below, Shaped, RestTiles, After, Reported, Tiles;
    bytesDone, failures := 0, 0;
    var fileOffset: nat := fOff;
    ghost var pos: nat, k0 := 0, ring.kernel;
    InvStarts(op, w, k0);
    InvUnfolds(op, w, k0, k0, 0, 0);
    NothingReported(op, k0.file, fOff);
    for i := 0 to |t|
      invariant ring.Quiet() && pos <= w.n && RestTiles(op, w, t, i, pos) && fileOffset == fOff + pos
      invariant |ring.kernel.mem| == |k0.mem| && (op == Read ==> ring.kernel.file == k0.file)
      invariant Framed(op, w, k0, ring.kernel, pos) && ring.errors == old(ring.errors) + failures
      invariant failures == 0 ==> Inv(op, w, k0, ring.kernel, pos, bytesDone)
      invariant if failures == 0 then bytesDone == Reported(op, k0.file, fOff, pos)
                else bytesDone < Reported(op, k0.file, fOff, pos)
    {
      ghost var k, e := ring.kernel, Request(op, t[i].target, t[i].nbyte, fileOffset);
      RestStep(op, w, |k0.mem|, t, i, pos);
      ReportedAdds(op, k0.file, fOff, pos, t[i].nbyte);
      var ret, o := Sync(op, ring, t[i].target, t[i].nbyte, fileOffset);
      SyncKeepsFrame(op, w, k0, k, t[i].target, t[i].nbyte, pos, o);
      SyncSizes(op, k, e, o);
      SyncReports(op, k0, k, e, o);
      if o.Failed? {
        failures := failures + 1;
      } else if failures == 0 {
        SyncKeepsInv(op, w, k0, k, t[i].target, t[i].nbyte, pos, bytesDone);
      }
      bytesDone := bytesDone + ret;
      fileOffset := fileOffset + t[i].nbyte;
      pos := pos + t[i].nbyte;
    }
    RestEnds(op, w, t, pos);
  }

  lemma SyncReports(op: Op, k0: State, k: State, e: Sqe, o: Outcome)
    requires e.addr + e.len <= |k.mem| && (o.Failed? ==> |o.debris| <= e.len) && Kind(op, e)
    requires op == Read ==> k.file == k0.file
    ensures |After(k, e, o).cq| == 1
    ensures o.Done? ==> After(k, e, o).cq[0] == Reported(op, k0.file, e.off, e.len)
  {
  }
}
