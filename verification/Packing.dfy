/** How a large transfer is packed into ring batches: 256 KiB (0x4_0000 byte)
    sub-I/Os, each cut at segment boundaries, at most 256 entries per batch. */
module Packing {
  import opened Layout
  import opened Options
  import opened Sizes

  function SubSize(rem: nat): (s: nat)
    ensures s <= rem && s <= SUB_IO && (0 < rem ==> 0 < s)
  {
    if SUB_IO <= rem then SUB_IO else rem
  }

  /** Bytes packed into the current batch from offset `off` on, when `rem` bytes
      remain and `used` entries are taken. */
  function PackBytes(off: nat, rem: nat, used: nat): (p: nat)
    ensures p <= rem
    decreases rem
  {
    if QUEUE_DEPTH <= used || rem == 0 then 0 else
      var s := SubSize(rem);
      var c := Touched(off, s);
      if used + c > QUEUE_DEPTH then 0 else s + PackBytes(off + s, rem - s, used + c)
  }

  /** Entries prepared when a sub-I/O that runs past `limit` stops the batch, or
      None if the batch completes. */
  function Stuck(off: nat, rem: nat, used: nat, limit: nat): Option<nat>
    decreases rem
  {
    if QUEUE_DEPTH <= used || rem == 0 then None else
      var s := SubSize(rem);
      if off + s > limit then Some(used) else
        var c := Touched(off, s);
        if used + c > QUEUE_DEPTH then None else Stuck(off + s, rem - s, used + c, limit)
  }

  /** Entries of the batch when the fill loop stops, for whatever reason. */
  function Peak(off: nat, rem: nat, used: nat, limit: nat): (k: nat)
    ensures used <= QUEUE_DEPTH ==> used <= k <= QUEUE_DEPTH
    decreases rem
  {
    if QUEUE_DEPTH <= used || rem == 0 then used else
      var s := SubSize(rem);
      if off + s > limit then used else
        var c := Touched(off, s);
        if used + c > QUEUE_DEPTH then used else Peak(off + s, rem - s, used + c, limit)
  }

  /** One turn of the fill loop. */
  lemma PackTurn(off: nat, rem: nat, used: nat, limit: nat)
    ensures QUEUE_DEPTH <= used || rem == 0 ==>
      PackBytes(off, rem, used) == 0 && Stuck(off, rem, used, limit).None? && Peak(off, rem, used, limit) == used
    ensures used < QUEUE_DEPTH && 0 < rem ==>
      var s := SubSize(rem);
      var c := Touched(off, s);
      if off + s > limit then Stuck(off, rem, used, limit) == Some(used) && Peak(off, rem, used, limit) == used
      else if used + c > QUEUE_DEPTH
      then PackBytes(off, rem, used) == 0 && Stuck(off, rem, used, limit).None? && Peak(off, rem, used, limit) == used
      else && PackBytes(off, rem, used) == s + PackBytes(off + s, rem - s, used + c)
           && Stuck(off, rem, used, limit) == Stuck(off + s, rem - s, used + c, limit)
           && Peak(off, rem, used, limit) == Peak(off + s, rem - s, used + c, limit)
  {
  }

  /** Entry counting: `j` sub-I/Os from `off0` use at most one entry more than
      `j`, because 64 MiB meet at most one segment boundary. */
  lemma {:induction false} PackAtLeast(off0: nat, j: nat, off: nat, rem: nat, used: nat)
    requires off == off0 + j * SUB_IO && j <= 255
    requires used <= j + off / SEGMENT - off0 / SEGMENT
    ensures PackBytes(off, rem, used) >= if rem <= (255 - j) * SUB_IO then rem else (255 - j) * SUB_IO
    decreases rem
  {
    if j < 255 && 0 < rem {
      var s := SubSize(rem);
      var c := Touched(off, s);
      assert (off + s - 1) / SEGMENT <= off0 / SEGMENT + 1;
      assert used + c <= QUEUE_DEPTH && used < QUEUE_DEPTH;
      if s == SUB_IO {
        PackAtLeast(off0, j + 1, off + s, rem - s, used + c);
      }
    }
  }

  /** Every batch takes at least 255 full sub-I/Os, or all that is left. */
  lemma BatchIsFull(off: nat, rem: nat)
    ensures PackBytes(off, rem, 0) >= if rem <= FULL_BATCH then rem else FULL_BATCH
    ensures 0 < rem ==> 0 < PackBytes(off, rem, 0)
  {
    PackAtLeast(off, 0, off, rem, 0);
  }

  /** Number of batches a transfer of `rem` bytes from `off` takes. */
  function Batches(off: nat, rem: nat): nat
    decreases rem
  {
    if rem == 0 then 0 else
      BatchIsFull(off, rem);
      var p := PackBytes(off, rem, 0);
      1 + Batches(off + p, rem - p)
  }

  /** So a transfer takes at most one batch per 255 sub-I/Os, rounded up. */
  lemma {:induction false} BatchesBound(off: nat, rem: nat)
    ensures Batches(off, rem) <= (rem + FULL_BATCH - 1) / FULL_BATCH
    decreases rem
  {
    if rem != 0 {
      BatchIsFull(off, rem);
      var p := PackBytes(off, rem, 0);
      BatchesBound(off + p, rem - p);
    }
  }

  /** Entries a whole call leaves prepared but unsubmitted: none unless some
      sub-I/O runs past the end of the registration. */
  function Residue(off: nat, rem: nat, limit: nat): nat
    decreases rem
  {
    if rem == 0 then 0 else
      match Stuck(off, rem, 0, limit)
      case Some(used) => used
      case None =>
        BatchIsFull(off, rem);
        var p := PackBytes(off, rem, 0);
        Residue(off + p, rem - p, limit)
  }

  lemma {:induction false} InRangeNeverStuck(off: nat, rem: nat, used: nat, limit: nat)
    requires off + rem <= limit
    ensures Stuck(off, rem, used, limit).None?
    decreases rem
  {
    if used < QUEUE_DEPTH && rem != 0 {
      var s := SubSize(rem);
      InRangeNeverStuck(off + s, rem - s, used + Touched(off, s), limit);
    }
  }

  /** A window inside its registration leaves nothing behind. */
  lemma {:induction false} InRangeNoResidue(off: nat, rem: nat, limit: nat)
    requires off + rem <= limit
    ensures Residue(off, rem, limit) == 0
    decreases rem
  {
    if rem != 0 {
      InRangeNeverStuck(off, rem, 0, limit);
      BatchIsFull(off, rem);
      var p := PackBytes(off, rem, 0);
      InRangeNoResidue(off + p, rem - p, limit);
    }
  }

  // ----- What a caller can compute beforehand -----

  function Min(a: nat, b: nat): nat {
    if a <= b then a else b
  }

  /** A segment boundary among the first `m` bytes falls inside a sub-I/O, so that
      the sub-I/O takes two entries. Boundaries are multiples of the sub-I/O size,
      so an aligned window never has one. */
  predicate Crosses(off: nat, m: nat) {
    0 < m && off % SUB_IO != 0 && off / SEGMENT != (off + m - 1) / SEGMENT
  }

  function Extra(off: nat, m: nat): nat {
    if Crosses(off, m) then 1 else 0
  }

  /** Bytes the next batch takes. */
  function Take(off: nat, rem: nat): nat {
    if Crosses(off, Min(rem, LONG_BATCH)) then Min(rem, FULL_BATCH) else Min(rem, LONG_BATCH)
  }

  /** Bytes the next batch looks up. This can be one sub-I/O more than it takes:
      the lookup comes before the test for a full queue. */
  function Reach(off: nat, rem: nat): nat {
    if Crosses(off, Min(rem, FULL_BATCH)) then Min(rem, FULL_BATCH) else Min(rem, LONG_BATCH)
  }

  /** Entries of the next batch. */
  function BatchEntries(off: nat, rem: nat): nat {
    (Take(off, rem) + SUB_IO - 1) / SUB_IO + Extra(off, Take(off, rem))
  }

  /** Entries of the whole sub-I/Os that lie below `limit`. */
  function EntriesBelow(off: nat, limit: nat): nat {
    if limit < off then 0 else
      (limit - off) / SUB_IO + Extra(off, (limit - off) / SUB_IO * SUB_IO)
  }

  /** A sub-I/O takes a second entry exactly when it is the one that crosses. */
  lemma EntriesOfSub(off: nat, j: nat, s: nat)
    requires 0 < s <= SUB_IO && j < QUEUE_DEPTH
    ensures Touched(off + j * SUB_IO, s) == 1 + Extra(off, j * SUB_IO + s) - Extra(off, j * SUB_IO)
  {
    var m := j * SUB_IO;
    assert (off + m) % SUB_IO == off % SUB_IO;
    if off % SUB_IO != 0 {
      assert (off + m) % SEGMENT != 0;
      assert (off + m - 1) / SEGMENT == (off + m) / SEGMENT;
    }
  }

  /** Entries in use after `j` whole sub-I/Os of a batch that began at `off`. */
  function Used(off: nat, j: nat): nat {
    j + Extra(off, j * SUB_IO)
  }

  /** What one turn does to them. */
  lemma UsedTurn(off: nat, rem: nat, j: nat)
    requires j * SUB_IO < rem && j * SUB_IO <= Take(off, rem)
    ensures Used(off, j) <= QUEUE_DEPTH
    ensures Used(off, j) < QUEUE_DEPTH ==>
      var m := j * SUB_IO;
      var s := SubSize(rem - m);
      var c := Touched(off + m, s);
      if Used(off, j) + c > QUEUE_DEPTH then Take(off, rem) == m && Reach(off, rem) == m + s
      else if s == SUB_IO then Used(off, j + 1) == Used(off, j) + c && m + s == (j + 1) * SUB_IO <= Take(off, rem)
      else Take(off, rem) == rem == Reach(off, rem) && BatchEntries(off, rem) == Used(off, j) + c
    ensures Used(off, j) == QUEUE_DEPTH ==> Take(off, rem) == j * SUB_IO == Reach(off, rem)
  {
    if Used(off, j) < QUEUE_DEPTH {
      EntriesOfSub(off, j, SubSize(rem - j * SUB_IO));
    }
  }

  lemma {:induction false} PackFrom(off: nat, rem: nat, j: nat)
    requires j * SUB_IO <= Take(off, rem)
    ensures PackBytes(off + j * SUB_IO, rem - j * SUB_IO, Used(off, j)) == Take(off, rem) - j * SUB_IO
    decreases rem - j * SUB_IO
  {
    hide Touched, Take, Reach, BatchEntries, Used;
    var m := j * SUB_IO;
    assert Take(off, rem) <= rem by { TakeBounds(off, rem); }
    if m < rem {
      UsedTurn(off, rem, j);
      if Used(off, j) < QUEUE_DEPTH {
        var s := SubSize(rem - m);
        if Used(off, j) + Touched(off + m, s) <= QUEUE_DEPTH && s == SUB_IO {
          PackFrom(off, rem, j + 1);
        }
      }
    }
  }

  lemma TakeBounds(off: nat, rem: nat)
    ensures Take(off, rem) <= Reach(off, rem) <= rem
    ensures 0 < rem ==> 0 < Take(off, rem) && Min(rem, FULL_BATCH) <= Take(off, rem)
  {
  }

  /** The whole sub-I/Os below `limit` are those before the one that runs past it. */
  lemma BelowLimit(off: nat, rem: nat, j: nat, limit: nat)
    requires j * SUB_IO < rem && off + j * SUB_IO <= limit < off + j * SUB_IO + SubSize(rem - j * SUB_IO)
    ensures EntriesBelow(off, limit) == Used(off, j)
  {
    assert (limit - off) / SUB_IO == j;
  }

  /** Where the fill loop stops, seen from after `j` whole sub-I/Os. */
  lemma {:induction false} StopFrom(off: nat, rem: nat, j: nat, limit: nat)
    requires j * SUB_IO <= Take(off, rem) && off + j * SUB_IO <= limit && 0 < rem
    ensures var m := j * SUB_IO;
      if off + Reach(off, rem) <= limit
      then Stuck(off + m, rem - m, Used(off, j), limit).None?
           && Peak(off + m, rem - m, Used(off, j), limit) == BatchEntries(off, rem)
      else Stuck(off + m, rem - m, Used(off, j), limit) == Some(EntriesBelow(off, limit))
           && Peak(off + m, rem - m, Used(off, j), limit) == EntriesBelow(off, limit)
    decreases rem - j * SUB_IO
  {
    hide Touched, Take, Reach, BatchEntries, Used, EntriesBelow;
    var m := j * SUB_IO;
    TakeBounds(off, rem);
    if m < rem {
      UsedTurn(off, rem, j);
      if Used(off, j) < QUEUE_DEPTH {
        var s := SubSize(rem - m);
        ReachesSub(off, rem, j);
        if off + m + s > limit {
          BelowLimit(off, rem, j, limit);
        } else if Used(off, j) + Touched(off + m, s) > QUEUE_DEPTH {
          EntriesWhole(off, rem, j);
        } else if s == SUB_IO {
          StopFrom(off, rem, j + 1, limit);
        }
      } else {
        EntriesWhole(off, rem, j);
      }
    } else {
      EntriesWhole(off, rem, j);
    }
  }

  lemma ReachesSub(off: nat, rem: nat, j: nat)
    requires j * SUB_IO < rem && j * SUB_IO <= Take(off, rem) && Used(off, j) < QUEUE_DEPTH
    ensures j * SUB_IO + SubSize(rem - j * SUB_IO) <= Reach(off, rem)
  {
  }

  lemma EntriesWhole(off: nat, rem: nat, j: nat)
    requires Take(off, rem) == j * SUB_IO
    ensures BatchEntries(off, rem) == Used(off, j)
  {
  }

  /** A batch in closed form: the bytes it takes, the limit it needs, and where it
      stops otherwise. */
  lemma BatchExact(off: nat, rem: nat, limit: nat)
    requires 0 < rem
    ensures PackBytes(off, rem, 0) == Take(off, rem)
    ensures Stuck(off, rem, 0, limit) ==
            if off + Reach(off, rem) <= limit then None else Some(EntriesBelow(off, limit))
    ensures off + Reach(off, rem) <= limit ==> Peak(off, rem, 0, limit) == BatchEntries(off, rem)
  {
    assert Used(off, 0) == 0;
    hide Used;
    PackFrom(off, rem, 0);
    if off <= limit {
      StopFrom(off, rem, 0, limit);
    }
  }

  /** Where the batch starts that runs past the end of the registration. */
  function OverrunStart(off: nat, rem: nat, limit: nat): (b: nat)
    requires 0 < rem && limit < off + rem
    ensures off <= b < off + rem
    decreases rem
  {
    TakeBounds(off, rem);
    if limit < off + Reach(off, rem) then off
    else OverrunStart(off + Take(off, rem), rem - Take(off, rem), limit)
  }

  /** Exactly when a call leaves entries behind, and how many: when the batch that
      runs past the end of the registration has room for at least one sub-I/O
      before that end. */
  lemma {:induction false} ResidueExact(off: nat, rem: nat, limit: nat)
    ensures rem == 0 || off + rem <= limit ==> Residue(off, rem, limit) == 0
    ensures 0 < rem && limit < off + rem ==>
      var b := OverrunStart(off, rem, limit);
      && Residue(off, rem, limit) == EntriesBelow(b, limit)
      && (Residue(off, rem, limit) == 0 <==> limit < b + SubSize(off + rem - b))
    decreases rem
  {
    hide Stuck, PackBytes, Take, Reach, EntriesBelow;
    if off + rem <= limit {
      InRangeNoResidue(off, rem, limit);
    } else if rem != 0 {
      BatchExact(off, rem, limit);
      TakeBounds(off, rem);
      if off + Reach(off, rem) <= limit {
        ResidueExact(off + Take(off, rem), rem - Take(off, rem), limit);
      } else {
        BelowIsNone(off, rem, limit);
      }
    }
  }

  lemma BelowIsNone(off: nat, rem: nat, limit: nat)
    requires limit < off + Reach(off, rem) && 0 < rem
    ensures EntriesBelow(off, limit) == 0 <==> limit < off + SubSize(rem)
  {
  }

  /** For a window of at most 255 sub-I/Os there is only one batch to look at. */
  lemma OneBatchResidue(off: nat, n: nat, limit: nat)
    requires 0 < n <= FULL_BATCH
    ensures Residue(off, n, limit) == if off + n <= limit then 0 else EntriesBelow(off, limit)
    ensures Residue(off, n, limit) == 0 <==> off + n <= limit || limit < off + SubSize(n)
  {
    hide Residue;
    ResidueExact(off, n, limit);
  }

  /** For an aligned window the batches are 256 sub-I/Os each, so the batch in
      question starts at the last multiple of that before the end. */
  lemma {:induction false} AlignedStart(off: nat, n: nat, limit: nat)
    requires off % SUB_IO == 0 && off <= limit < off + n
    ensures OverrunStart(off, n, limit) == limit - (limit - off) % LONG_BATCH
    decreases n
  {
    if off + Reach(off, n) <= limit {
      assert Take(off, n) == LONG_BATCH;
      AlignedStart(off + LONG_BATCH, n - LONG_BATCH, limit);
      assert (limit - off) % LONG_BATCH == (limit - (off + LONG_BATCH)) % LONG_BATCH;
    }
  }

  lemma AlignedResidue(off: nat, n: nat, limit: nat)
    requires off % SUB_IO == 0
    ensures Residue(off, n, limit) == 0 <==>
      || off + n <= limit || limit < off
      || (limit - off) % LONG_BATCH < SubSize(off + n - limit + (limit - off) % LONG_BATCH)
  {
    hide Residue, OverrunStart, EntriesBelow;
    ResidueExact(off, n, limit);
    if off <= limit < off + n {
      AlignedStart(off, n, limit);
    }
  }

  /** For example, 768 KiB against a 512 KiB registration prepare two entries
      before the third sub-I/O is refused. */
  lemma OverrunLeavesResidue()
    ensures Residue(0, 3 * SUB_IO, 2 * SUB_IO) == 2
  {
    hide Residue;
    OneBatchResidue(0, 3 * SUB_IO, 2 * SUB_IO);
  }
}
