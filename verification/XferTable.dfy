/** fgds_do_xfer_addr: translating a byte window of a registered buffer into a
    table of host pieces. The 32- and 64-bit unsigned arithmetic of the source
    is written out. */
module XferTable {
  import opened Options
  import opened Layout
  import opened Registry
  import opened Sizes

  function U32(x: int): nat { x % 0x1_0000_0000 }

  /** GPU addresses and lengths fit the machine: no buffer reaches past 2^61. */
  ghost predicate Addressable(rs: seq<Region>) {
    forall k :: 0 <= k < |rs| ==> rs[k].gpuAddr + rs[k].length <= 0x2000_0000_0000_0000
  }

  ghost predicate AllValid(rs: seq<Region>) {
    forall k :: 0 <= k < |rs| ==> ValidRegion(rs[k])
  }

  /** The translation succeeds for this window: some region covers `nbyte` bytes
      from `gpuBuf`, and the window ends inside that region. */
  ghost predicate Accepted(rs: seq<Region>, gpuBuf: nat, bufOff: nat, nbyte: nat) {
    var k := Find(rs, gpuBuf, nbyte);
    k.Some? && bufOff + nbyte <= rs[k.value].length
  }

  ghost function Chosen(rs: seq<Region>, gpuBuf: nat, nbyte: nat): Region
    requires Find(rs, gpuBuf, nbyte).Some?
  {
    rs[Find(rs, gpuBuf, nbyte).value]
  }

  /** Where segment `i` meets the window that starts at `bufOff`. */
  function PieceStart(bufOff: nat, i: nat): nat {
    if i == bufOff / SEGMENT then bufOff else i * SEGMENT
  }

  /** The piece the source assigns to segment `i` is the greedy one, and the pieces follow one another. */
  lemma PieceIsGreedy(bufOff: nat, nbyte: nat, i: nat)
    requires 0 < nbyte && bufOff / SEGMENT <= i <= (bufOff + nbyte - 1) / SEGMENT
    ensures PieceStart(bufOff, i) < bufOff + nbyte && PieceStart(bufOff, i) / SEGMENT == i
    ensures var off, left := PieceStart(bufOff, i), bufOff + nbyte - PieceStart(bufOff, i);
            var k := PieceSize(bufOff, nbyte, i);
            && k == Chunk(off, left)
            && (i * SEGMENT != off ==> i == bufOff / SEGMENT)
            && (k < left ==> i < (bufOff + nbyte - 1) / SEGMENT && off + k == PieceStart(bufOff, i + 1))
            && (k == left ==> i == (bufOff + nbyte - 1) / SEGMENT)
  {
  }

  /** One more table entry: the piece of the window in segment `i`. */
  lemma TableStep(r: Region, bufOff: nat, nbyte: nat, i: nat)
    requires ValidRegion(r) && 0 < nbyte && bufOff + nbyte <= r.length
    requires bufOff / SEGMENT <= i <= (bufOff + nbyte - 1) / SEGMENT
    ensures PieceStart(bufOff, i) < bufOff + nbyte && i < |r.vaddrs|
    ensures var off, left := PieceStart(bufOff, i), bufOff + nbyte - PieceStart(bufOff, i);
            var k := PieceSize(bufOff, nbyte, i);
            && 0 < k <= left
            && Table(r, off, left) == [Xfer(r.vaddrs[i] + off % SEGMENT, k)] + Table(r, off + k, left - k)
            && (i * SEGMENT != off ==> i == bufOff / SEGMENT)
            && (k < left ==> i < (bufOff + nbyte - 1) / SEGMENT && off + k == PieceStart(bufOff, i + 1))
            && (k == left ==> i == (bufOff + nbyte - 1) / SEGMENT)
  {
    hide SegLength, SegCount, Chunk, PieceStart, PieceSize, RangesDisjoint;
    PieceIsGreedy(bufOff, nbyte, i);
    HostInSegment(r, PieceStart(bufOff, i));
  }

  /** How many bytes the source assigns to segment `i` of the window. */
  function PieceSize(bufOff: nat, nbyte: nat, i: nat): nat
    requires 0 < nbyte
  {
    var start, end := bufOff / SEGMENT, (bufOff + nbyte - 1) / SEGMENT;
    if i == start then (if start < end then SEGMENT - bufOff % SEGMENT else nbyte)
    else if i == end then (bufOff + nbyte - 1) % SEGMENT + 1
    else SEGMENT
  }

  /** The loop of the source, filling the table in place. */
  method FillTable(r: Region, bufOff: nat, nbyte: nat, start: nat, end: nat, xs: array<Xfer>) returns (left: int)
    requires ValidRegion(r) && 0 < nbyte && bufOff + nbyte <= r.length
    requires start == bufOff / SEGMENT && end == (bufOff + nbyte - 1) / SEGMENT
    requires xs.Length == end - start + 1
    modifies xs
    ensures left == 0
    ensures xs[..] == Table(r, bufOff, nbyte)
  {
    hide SegLength, SegCount, Host, Table;
    left := nbyte;
    var count := end - start + 1;
    var nr := 0;
    var i := start;
    while i <= end
      invariant start <= i <= end + 1 && nr == i - start
      invariant left == if i <= end then bufOff + nbyte - PieceStart(bufOff, i) else 0
      invariant i <= end ==> PieceStart(bufOff, i) <= bufOff + nbyte
      invariant i <= end ==> xs[..nr] + Table(r, PieceStart(bufOff, i), left) == Table(r, bufOff, nbyte)
      invariant i == end + 1 ==> xs[..nr] == Table(r, bufOff, nbyte)
    {
      TableStep(r, bufOff, nbyte, i);
      ghost var before, off := xs[..nr], PieceStart(bufOff, i);
      var size;
      if i == start {
        var offsetInSegment := bufOff % SEGMENT;
        size := if count > 1 then SEGMENT - offsetInSegment else left;
        xs[nr] := Xfer(r.vaddrs[i] + offsetInSegment, size);
      } else if i == end {
        xs[nr] := Xfer(r.vaddrs[i], (bufOff + nbyte - 1) % SEGMENT + 1);
        size := xs[nr].nbyte;
      } else {
        xs[nr] := Xfer(r.vaddrs[i], SEGMENT);
        size := xs[nr].nbyte;
      }
      assert size == PieceSize(bufOff, nbyte, i);
      nr := nr + 1;
      assert xs[..nr] == before + [Xfer(r.vaddrs[i] + off % SEGMENT, size)];
      TableEnds(r, off + size);
      left := left - size;
      i := i + 1;
    }
    assert xs[..nr] == xs[..];
  }

  lemma TableEnds(r: Region, off: nat)
    requires |r.vaddrs| == SegCount(r.length) && off <= r.length
    ensures Table(r, off, 0) == []
  {
  }

  /** At offset 0 an empty window wraps around and is rejected. */
  lemma EmptyAtStart(r: Region)
    requires r.length <= 0x2000_0000_0000_0000
    ensures U32(U64(0 + 0 - 1) / SEGMENT) > SegCount(r.length)
  {
  }

  lemma NoWrap(x: nat)
    requires x < TWO_64
    ensures U64(x) == x
  {
  }

  /** With no wrap-around, the source's index arithmetic and range checks are
      what they look like. */
  lemma IndicesFit(r: Region, bufOff: nat, nbyte: nat)
    requires ValidRegion(r) && r.length <= 0x2000_0000_0000_0000
    requires 0 < nbyte && bufOff + nbyte <= r.length
    ensures var start, end := U32(bufOff / SEGMENT), U32(U64(bufOff + nbyte - 1) / SEGMENT);
            && start == bufOff / SEGMENT && end == (bufOff + nbyte - 1) / SEGMENT
            && U32(end - start + 1) == end - start + 1 && U32(start + (end - start + 1)) == end + 1
            && end < |r.vaddrs|
  {
    hide SegLength, RangesDisjoint;
  }

  /** For a non-empty window the call returns the greedy table of the covering
      region if the window ends inside it, and null otherwise (or when memory
      runs out): the two later rejections never fire. The table counts offsets
      from the region's start, wherever in the region `gpuBuf` points. */
  method DoXferAddr(dev: Device, gpuBuf: nat, bufOff: nat, nbyte: nat, oom: bool) returns (t: Option<seq<Xfer>>)
    requires dev.Valid() && AllValid(dev.Regions()) && Addressable(dev.Regions())
    requires bufOff < 0x8000_0000_0000_0000 && nbyte < 0x8000_0000_0000_0000
    ensures 0 < nbyte ==> (t.Some? <==> !oom && Accepted(dev.Regions(), gpuBuf, bufOff, nbyte))
    ensures 0 < nbyte && t.Some? ==> t.value == Table(Chosen(dev.Regions(), gpuBuf, nbyte), bufOff, nbyte)
    ensures nbyte == 0 && bufOff == 0 ==> t.None?
    ensures nbyte == 0 && t.Some? ==>
              && |t.value| <= 1 && Find(dev.Regions(), gpuBuf, 0).Some?
              && forall e :: e in t.value ==> e.nbyte == 0 && InOneSegment(Chosen(dev.Regions(), gpuBuf, 0), e)
  {
    hide Table, Host, SegLength, Linked, RegionsOf, Find, U32, U64, ValidRegion, InOneSegment;
    NoWrap(nbyte + bufOff);
    var node := dev.FindNode(gpuBuf, nbyte);
    if node == null || !node.isMapped {
      return None;
    }
    if U64(nbyte + bufOff) > node.length {
      return None;
    }
    var r := node.AsRegion();
    var start := U32(bufOff / SEGMENT);
    var end := U32(U64(bufOff + nbyte - 1) / SEGMENT);
    var count := U32(end - start + 1);
    if oom {
      return None;
    }
    if 0 < nbyte {
      IndicesFit(r, bufOff, nbyte);
    } else {
      EmptyAtStart(r);
    }
    if U32(start + count) > node.mmapCount || end > node.mmapCount || count > node.mmapCount {
      return None;
    }
    var xs := new Xfer[count];
    if nbyte == 0 {
      if count == 0 {
        return Some([]);
      }
      EmptyEntry(r, bufOff);
      return Some([Xfer(r.vaddrs[start] + bufOff % SEGMENT, 0)]);
    }
    var left := FillTable(r, bufOff, nbyte, start, end, xs);
    if left != 0 {
      return None;
    }
    return Some(xs[..]);
  }

  /** The entry of an empty window still points into (or just past) a segment. */
  lemma EmptyEntry(r: Region, bufOff: nat)
    requires ValidRegion(r) && r.length <= 0x2000_0000_0000_0000 && bufOff <= r.length
    requires var start, end := U32(bufOff / SEGMENT), U32(U64(bufOff - 1) / SEGMENT);
             U32(end - start + 1) != 0 && end <= SegCount(r.length)
    ensures U32(bufOff / SEGMENT) == bufOff / SEGMENT < |r.vaddrs|
    ensures InOneSegment(r, Xfer(r.vaddrs[bufOff / SEGMENT] + bufOff % SEGMENT, 0))
  {
    EmptyIndices(r.length, bufOff);
    hide RangesDisjoint, SegLength, U32, U64;
    HostInSegment(r, bufOff - 1);
    assert InSegment(r, bufOff / SEGMENT, Xfer(r.vaddrs[bufOff / SEGMENT] + bufOff % SEGMENT, 0));
  }

  lemma EmptyIndices(len: nat, bufOff: nat)
    requires len <= 0x2000_0000_0000_0000 && bufOff <= len
    requires var start, end := U32(bufOff / SEGMENT), U32(U64(bufOff - 1) / SEGMENT);
             U32(end - start + 1) != 0 && end <= SegCount(len)
    ensures 0 < bufOff && U32(bufOff / SEGMENT) == bufOff / SEGMENT
    ensures (bufOff - 1) / SEGMENT == bufOff / SEGMENT
    ensures bufOff % SEGMENT == (bufOff - 1) % SEGMENT + 1
  {
    if bufOff == 0 {
      EmptyAtStart(Region(0, len, []));
      assert false;
    }
    NoWrap(bufOff - 1);
    assert (bufOff - 1) / SEGMENT <= bufOff / SEGMENT <= (bufOff - 1) / SEGMENT + 1;
  }
}
