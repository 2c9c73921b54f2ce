/** How a registered GPU buffer is laid out in host address space, and the
    transfer table that cuts a byte window of it into host pieces.

    A registration of `length` bytes is mapped in segments of at most one
    gigabyte, each at its own host address; consecutive segments are not
    adjacent in host memory.
 */
module Layout {
  import opened Sizes

  /** A registration seen as a value: where the GPU buffer starts, how long it
      is, and the host address of each of its segments. */
  datatype Region = Region(gpuAddr: nat, length: nat, vaddrs: seq<nat>)

  /** One host piece of a transfer: `x_addrs[i]` of the source. */
  datatype Xfer = Xfer(target: nat, nbyte: nat)

  function SegCount(length: nat): nat {
    length / SEGMENT + (if length % SEGMENT != 0 then 1 else 0)
  }

  function SegLength(length: nat, i: nat): nat {
    if i == SegCount(length) - 1 && length % SEGMENT != 0
    then length % SEGMENT
    else SEGMENT
  }

  ghost predicate RangesDisjoint(a: nat, m: nat, b: nat, n: nat) {
    a + m <= b || b + n <= a
  }

  ghost predicate ValidRegion(r: Region) {
    && 0 < r.length
    && r.length % GPU_PAGE == 0
    && |r.vaddrs| == SegCount(r.length)
    && forall i, j :: 0 <= i < j < |r.vaddrs| ==>
         RangesDisjoint(r.vaddrs[i], SegLength(r.length, i), r.vaddrs[j], SegLength(r.length, j))
  }

  /** Every segment of the region lies below address `limit`. */
  ghost predicate Below(r: Region, limit: nat) {
    forall i :: 0 <= i < |r.vaddrs| ==> r.vaddrs[i] + SegLength(r.length, i) <= limit
  }

  /** The host address of byte `o` of the registration. */
  function Host(r: Region, o: nat): nat
    requires |r.vaddrs| == SegCount(r.length) && o < r.length
  {
    r.vaddrs[o / SEGMENT] + o % SEGMENT
  }

  /** The segments tile the buffer: byte `o` falls inside segment `o / SEGMENT`. */
  lemma HostInSegment(r: Region, o: nat)
    requires ValidRegion(r) && o < r.length
    ensures o / SEGMENT < |r.vaddrs|
    ensures o % SEGMENT < SegLength(r.length, o / SEGMENT)
  {
  }

  /** Two different bytes of the registration never share a host address. */
  lemma HostInjective(r: Region, o: nat, p: nat)
    requires ValidRegion(r) && o < r.length && p < r.length && o != p
    ensures Host(r, o) != Host(r, p)
  {
    var i, j := o / SEGMENT, p / SEGMENT;
    HostInSegment(r, o);
    HostInSegment(r, p);
    if i < j {
      assert RangesDisjoint(r.vaddrs[i], SegLength(r.length, i), r.vaddrs[j], SegLength(r.length, j));
    } else if j < i {
      assert RangesDisjoint(r.vaddrs[j], SegLength(r.length, j), r.vaddrs[i], SegLength(r.length, i));
    }
  }

  /** Within one segment host addresses are consecutive. */
  lemma HostConsecutive(r: Region, o: nat, k: nat)
    requires ValidRegion(r) && o + k < r.length && o % SEGMENT + k < SEGMENT
    ensures Host(r, o + k) == Host(r, o) + k
  {
  }

  // ----- The transfer table, stated the simple way -----

  /** How many bytes can be taken from offset `off` without leaving its segment. */
  function Chunk(off: nat, n: nat): (k: nat)
    ensures k <= n && (0 < n ==> 0 < k)
    ensures off % SEGMENT + k <= SEGMENT
  {
    var room := SEGMENT - off % SEGMENT;
    if n <= room then n else room
  }

  /** Cut the window [off, off + n) greedily at segment boundaries. */
  function Table(r: Region, off: nat, n: nat): (t: seq<Xfer>)
    requires |r.vaddrs| == SegCount(r.length) && off + n <= r.length
    decreases n
  {
    if n == 0 then [] else
      var k := Chunk(off, n);
      [Xfer(Host(r, off), k)] + Table(r, off + k, n - k)
  }

  /** Number of segments the non-empty window [off, off + n) touches. */
  function Touched(off: nat, n: nat): nat
    requires 0 < n
  {
    (off + n - 1) / SEGMENT - off / SEGMENT + 1
  }

  function Total(t: seq<Xfer>): nat {
    if t == [] then 0 else t[0].nbyte + Total(t[1..])
  }

  /** The host address of byte `i` of the window that starts at offset `off`. */
  function WindowHost(r: Region, off: nat, i: nat): nat
    requires |r.vaddrs| == SegCount(r.length) && off + i < r.length
  {
    Host(r, off + i)
  }

  /** The host addresses a table visits, byte by byte and in order. */
  ghost function Addresses(t: seq<Xfer>): seq<nat> {
    if t == [] then [] else Run(t[0]) + Addresses(t[1..])
  }

  ghost function Run(e: Xfer): (s: seq<nat>)
    ensures |s| == e.nbyte && forall i :: 0 <= i < e.nbyte ==> s[i] == e.target + i
  {
    seq(e.nbyte, i requires 0 <= i => e.target + i)
  }

  /** The table visits exactly the host addresses of the window's bytes, in
      order: nothing is skipped, repeated or reordered. */
  lemma {:induction false} TablePartitions(r: Region, off: nat, n: nat)
    requires ValidRegion(r) && off + n <= r.length
    ensures |Addresses(Table(r, off, n))| == n
    ensures forall i :: 0 <= i < n ==> Addresses(Table(r, off, n))[i] == WindowHost(r, off, i)
    decreases n
  {
    hide SegLength, SegCount, Chunk, Host;
    if n != 0 {
      var k := Chunk(off, n);
      var t := Table(r, off, n);
      var rest := Table(r, off + k, n - k);
      assert t[0] == Xfer(Host(r, off), k) && t[1..] == rest;
      TablePartitions(r, off + k, n - k);
      var all := Addresses(t);
      assert all == Run(t[0]) + Addresses(rest);
      forall i | 0 <= i < n ensures all[i] == WindowHost(r, off, i) {
        if i < k {
          HostConsecutive(r, off, i);
        } else {
          assert all[i] == Addresses(rest)[i - k] == WindowHost(r, off + k, i - k);
        }
      }
    }
  }

  /** Each entry is non-empty and stays inside one segment; the entries add up
      to the window and there is one per segment touched. */
  lemma {:induction false} TableShape(r: Region, off: nat, n: nat)
    requires ValidRegion(r) && off + n <= r.length && 0 < n
    ensures |Table(r, off, n)| == Touched(off, n)
    ensures Total(Table(r, off, n)) == n
    ensures forall e :: e in Table(r, off, n) ==> 0 < e.nbyte && InOneSegment(r, e)
    decreases n
  {
    hide SegLength, SegCount, Chunk, Host, InOneSegment, Touched;
    var k := Chunk(off, n);
    var t := Table(r, off, n);
    var rest := Table(r, off + k, n - k);
    assert t == [t[0]] + rest && t[1..] == rest;
    FirstEntryInSegment(r, off, n);
    NextSegment(off, n);
    if k < n {
      TableShape(r, off + k, n - k);
    } else {
      assert rest == [];
    }
  }

  lemma FirstEntryInSegment(r: Region, off: nat, n: nat)
    requires ValidRegion(r) && off + n <= r.length && 0 < n
    ensures InOneSegment(r, Xfer(Host(r, off), Chunk(off, n)))
  {
    var k := Chunk(off, n);
    HostInSegment(r, off);
    HostInSegment(r, off + (k - 1));
    assert (off + (k - 1)) / SEGMENT == off / SEGMENT;
    assert InSegment(r, off / SEGMENT, Xfer(Host(r, off), k));
  }

  lemma NextSegment(off: nat, n: nat)
    requires 0 < n
    ensures Chunk(off, n) == n ==> Touched(off, n) == 1
    ensures Chunk(off, n) < n ==>
      Touched(off, n) == 1 + Touched(off + Chunk(off, n), n - Chunk(off, n))
  {
  }

  ghost predicate InSegment(r: Region, i: nat, e: Xfer) {
    i < |r.vaddrs| && r.vaddrs[i] <= e.target && e.target + e.nbyte <= r.vaddrs[i] + SegLength(r.length, i)
  }

  ghost predicate InOneSegment(r: Region, e: Xfer) {
    exists i :: InSegment(r, i, e)
  }

  /** A window no longer than a segment touches at most two of them. */
  lemma SmallWindowTouchesTwo(off: nat, n: nat)
    requires 0 < n <= SEGMENT
    ensures 1 <= Touched(off, n) <= 2
  {
  }
}
