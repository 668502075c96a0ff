/**
 * The program-header table of an ELF image as the address-space model sees it:
 * file-offset <-> virtual-address translation by first-match scans over
 * inclusive ranges, the W/X flag filters, and the lowest non-zero load address.
 */
module Segments {
  import opened Wrappers
  import opened Scan

  /** Program-header flag bits `PF_X` and `PF_W`. */
  const PF_X: bv32 := 1
  const PF_W: bv32 := 2

  /** A decoded program header: `p_offset`, `p_filesz`, `p_vaddr`, `p_memsz`, `p_flags`. */
  datatype Segment = Segment(offset: nat, filesz: nat, vaddr: int, memsz: nat, flags: bv32)

  /** `p_offset <= offset <= p_offset + p_filesz`: both ends included, as the source compares. */
  predicate InFileRange(s: Segment, offset: int) {
    s.offset <= offset <= s.offset + s.filesz
  }

  /** `p_vaddr <= address <= p_vaddr + p_memsz`: both ends included. */
  predicate InMemoryRange(s: Segment, address: int) {
    s.vaddr <= address <= s.vaddr + s.memsz
  }

  /** The segment whose file range `offset_to_vaddr` uses for `offset`. */
  function FileSegment(segs: seq<Segment>, offset: int): (r: Option<nat>)
    ensures r.Some? ==> r.value < |segs| && InFileRange(segs[r.value], offset)
    ensures r.Some? ==> forall j :: 0 <= j < r.value ==> !InFileRange(segs[j], offset)
    ensures r.None? ==> forall j :: 0 <= j < |segs| ==> !InFileRange(segs[j], offset)
  {
    FirstWhere(segs, s => InFileRange(s, offset))
  }

  /** The segment whose memory range `vaddr_to_offset` uses for `address`. */
  function MemorySegment(segs: seq<Segment>, address: int): (r: Option<nat>)
    ensures r.Some? ==> r.value < |segs| && InMemoryRange(segs[r.value], address)
    ensures r.Some? ==> forall j :: 0 <= j < r.value ==> !InMemoryRange(segs[j], address)
    ensures r.None? ==> forall j :: 0 <= j < |segs| ==> !InMemoryRange(segs[j], address)
  {
    FirstWhere(segs, s => InMemoryRange(s, address))
  }

  /** `offset_to_vaddr`: the virtual address of a file offset, or `None` when no segment holds it. */
  function OffsetToVaddr(segs: seq<Segment>, offset: int): (r: Option<int>)
    ensures r.None? <==> forall j :: 0 <= j < |segs| ==> !InFileRange(segs[j], offset)
    ensures r.Some? ==> exists i :: 0 <= i < |segs| && InFileRange(segs[i], offset)
                                   && (forall j :: 0 <= j < i ==> !InFileRange(segs[j], offset))
                                   && r.value == segs[i].vaddr + (offset - segs[i].offset)
  {
    match FileSegment(segs, offset)
    case None => None
    case Some(i) => Some(segs[i].vaddr + (offset - segs[i].offset))
  }

  /** `vaddr_to_offset`: the file offset of a virtual address, or `None` when no segment maps it. */
  function VaddrToOffset(segs: seq<Segment>, address: int): (r: Option<nat>)
    ensures r.None? <==> forall j :: 0 <= j < |segs| ==> !InMemoryRange(segs[j], address)
    ensures r.Some? ==> exists i :: 0 <= i < |segs| && InMemoryRange(segs[i], address)
                                   && (forall j :: 0 <= j < i ==> !InMemoryRange(segs[j], address))
                                   && r.value == segs[i].offset + (address - segs[i].vaddr)
  {
    match MemorySegment(segs, address)
    case None => None
    case Some(i) => Some(segs[i].offset + (address - segs[i].vaddr))
  }

  predicate HasFlag(s: Segment, bit: bv32) {
    s.flags & bit != 0
  }

  /** The segments carrying flag `bit`, in table order. */
  function SegmentsWith(segs: seq<Segment>, bit: bv32): (r: seq<Segment>)
    ensures |r| <= |segs|
  {
    if |segs| == 0 then []
    else if HasFlag(segs[0], bit) then [segs[0]] + SegmentsWith(segs[1..], bit)
    else SegmentsWith(segs[1..], bit)
  }

  /** The filter keeps exactly the segments carrying the flag. */
  lemma {:induction false} SegmentsWithMembers(segs: seq<Segment>, bit: bv32)
    ensures forall s :: s in SegmentsWith(segs, bit) <==> s in segs && HasFlag(s, bit)
  {
    if |segs| > 0 {
      SegmentsWithMembers(segs[1..], bit);
      assert segs == [segs[0]] + segs[1..];
    }
  }

  /** Filtering distributes over concatenation, so the filter keeps table order. */
  lemma {:induction false} SegmentsWithConcat(a: seq<Segment>, b: seq<Segment>, bit: bv32)
    ensures SegmentsWith(a + b, bit) == SegmentsWith(a, bit) + SegmentsWith(b, bit)
  {
    if |a| > 0 {
      assert (a + b)[0] == a[0];
      assert (a + b)[1..] == a[1..] + b;
      SegmentsWithConcat(a[1..], b, bit);
    } else {
      assert a + b == b;
    }
  }

  /** `executable_segments`: the segments whose `p_flags` has `PF_X`. */
  function ExecutableSegments(segs: seq<Segment>): (r: seq<Segment>)
    ensures forall s :: s in r <==> s in segs && s.flags & PF_X != 0
  {
    SegmentsWithMembers(segs, PF_X);
    SegmentsWith(segs, PF_X)
  }

  /** `writable_segments`: the segments whose `p_flags` has `PF_W`. */
  function WritableSegments(segs: seq<Segment>): (r: seq<Segment>)
    ensures forall s :: s in r <==> s in segs && s.flags & PF_W != 0
  {
    SegmentsWithMembers(segs, PF_W);
    SegmentsWith(segs, PF_W)
  }

  /** `min(filter(bool, vaddrs))`: the least non-zero `p_vaddr`; `None` where `min` would raise. */
  function LowestNonZeroVaddr(segs: seq<Segment>): (r: Option<int>)
    ensures r.None? <==> forall j :: 0 <= j < |segs| ==> segs[j].vaddr == 0
    ensures r.Some? ==> r.value != 0 && exists i :: 0 <= i < |segs| && segs[i].vaddr == r.value
    ensures r.Some? ==> forall j :: 0 <= j < |segs| && segs[j].vaddr != 0 ==> r.value <= segs[j].vaddr
  {
    if |segs| == 0 then None
    else
      var rest := LowestNonZeroVaddr(segs[1..]);
      var v := segs[0].vaddr;
      if v == 0 then rest
      else
        (match rest case None => Some(v) case Some(m) => Some(if v <= m then v else m))
  }

  /** Every segment moved by `delta` in memory; file offsets, sizes and flags stay. */
  function Shift(segs: seq<Segment>, delta: int): seq<Segment> {
    seq(|segs|, i requires 0 <= i < |segs| => segs[i].(vaddr := segs[i].vaddr + delta))
  }

  /** Shifting an optional address by `delta`. */
  function ShiftOption(r: Option<int>, delta: int): Option<int> {
    match r
    case None => None
    case Some(v) => Some(v + delta)
  }

  /** A shift leaves every file range alone, so the same segment answers every offset. */
  lemma FileSegmentShift(segs: seq<Segment>, delta: int, offset: int)
    ensures FileSegment(Shift(segs, delta), offset) == FileSegment(segs, offset)
  {
    var t := Shift(segs, delta);
    assert forall j :: 0 <= j < |segs| ==> (InFileRange(t[j], offset) <==> InFileRange(segs[j], offset));
  }

  /** A shift by `delta` moves every memory range by `delta`. */
  lemma MemorySegmentShift(segs: seq<Segment>, delta: int, address: int)
    ensures MemorySegment(Shift(segs, delta), address + delta) == MemorySegment(segs, address)
  {
    var t := Shift(segs, delta);
    assert forall j :: 0 <= j < |segs| ==> (InMemoryRange(t[j], address + delta) <==> InMemoryRange(segs[j], address));
  }

  /** After a shift every file offset translates to its old address plus `delta`. */
  lemma OffsetToVaddrShift(segs: seq<Segment>, delta: int, offset: int)
    ensures OffsetToVaddr(Shift(segs, delta), offset) == ShiftOption(OffsetToVaddr(segs, offset), delta)
  {
    FileSegmentShift(segs, delta, offset);
  }

  /** After a shift the moved address translates to the offset the old address had. */
  lemma VaddrToOffsetShift(segs: seq<Segment>, delta: int, address: int)
    ensures VaddrToOffset(Shift(segs, delta), address + delta) == VaddrToOffset(segs, address)
  {
    MemorySegmentShift(segs, delta, address);
  }

  /** The least non-zero address moves with the shift when no address is, or becomes, zero. */
  lemma {:induction false} LowestNonZeroVaddrShift(segs: seq<Segment>, delta: int)
    requires forall j :: 0 <= j < |segs| ==> segs[j].vaddr != 0 && segs[j].vaddr + delta != 0
    ensures LowestNonZeroVaddr(Shift(segs, delta)) == ShiftOption(LowestNonZeroVaddr(segs), delta)
  {
    if |segs| > 0 {
      var t := Shift(segs, delta);
      assert t[1..] == Shift(segs[1..], delta);
      LowestNonZeroVaddrShift(segs[1..], delta);
      LowestNonZeroVaddrStep(t);
      LowestNonZeroVaddrStep(segs);
    }
  }

  /** One step of the scan, for a first segment with a non-zero address. */
  lemma LowestNonZeroVaddrStep(segs: seq<Segment>)
    requires |segs| > 0 && segs[0].vaddr != 0
    ensures LowestNonZeroVaddr(segs) == match LowestNonZeroVaddr(segs[1..])
      case None => Some(segs[0].vaddr)
      case Some(m) => Some(if segs[0].vaddr <= m then segs[0].vaddr else m)
  {
  }

  /** A segment at `p_vaddr` 0 (a position-independent image) breaks that: the base does not follow. */
  lemma LowestNonZeroVaddrZeroSegment()
    ensures var segs := [Segment(0, 0x1000, 0, 0x1000, PF_X), Segment(0x1000, 0x100, 0x1000, 0x100, PF_W)];
            && LowestNonZeroVaddr(segs) == Some(0x1000)
            && LowestNonZeroVaddr(Shift(segs, 0x2000)) == Some(0x2000)
  {
    var segs := [Segment(0, 0x1000, 0, 0x1000, PF_X), Segment(0x1000, 0x100, 0x1000, 0x100, PF_W)];
    assert Shift(segs, 0x2000)[0].vaddr == 0x2000;
    assert Shift(segs, 0x2000)[1].vaddr == 0x3000;
  }

  /**
   * Every segment before `i` whose file range holds `o` maps file offsets to addresses
   * as segment `i` does: by the same `p_vaddr - p_offset`.
   */
  ghost predicate AgreesBefore(segs: seq<Segment>, i: int, o: int)
    requires 0 <= i < |segs|
  {
    forall j :: 0 <= j < i && InFileRange(segs[j], o) ==>
      segs[j].vaddr - segs[j].offset == segs[i].vaddr - segs[i].offset
  }

  /**
   * Round trip address -> offset -> address, for an address backed by file bytes of the
   * segment that maps it, when every earlier segment whose file range also holds the offset
   * translates it the same way (as a `PT_PHDR` inside the `PT_LOAD` that maps it does).
   */
  lemma VaddrOffsetRoundTrip(segs: seq<Segment>, address: int)
    requires MemorySegment(segs, address).Some?
    requires var i := MemorySegment(segs, address).value;
             && address - segs[i].vaddr <= segs[i].filesz
             && AgreesBefore(segs, i, segs[i].offset + (address - segs[i].vaddr))
    ensures VaddrToOffset(segs, address).Some?
    ensures OffsetToVaddr(segs, VaddrToOffset(segs, address).value) == Some(address)
  {
    var i := MemorySegment(segs, address).value;
    var o := segs[i].offset + (address - segs[i].vaddr);
    assert InFileRange(segs[i], o);
    var k := FileSegment(segs, o).value;
    assert k <= i;
  }

  /**
   * A program-header table as linkers lay it out: `PT_PHDR` inside the first `PT_LOAD`,
   * and `PT_GNU_STACK` empty at offset and address 0. The base is the `PT_LOAD` address,
   * and it translates to offset 0 and back, as the `offset_to_vaddr` and `vaddr_to_offset`
   * examples promise.
   */
  lemma VaddrOffsetRoundTripHeaders()
    ensures var segs := [Segment(0x40, 0x2d8, 0x40_0040, 0x2d8, 4), Segment(0, 0x1000, 0x40_0000, 0x1000, 5),
                         Segment(0, 0, 0, 0, 6)];
            && LowestNonZeroVaddr(segs) == Some(0x40_0000)
            && VaddrToOffset(segs, 0x40_0000) == Some(0)
            && OffsetToVaddr(segs, 0) == Some(0x40_0000)
  {
    var segs := [Segment(0x40, 0x2d8, 0x40_0040, 0x2d8, 4), Segment(0, 0x1000, 0x40_0000, 0x1000, 5),
                 Segment(0, 0, 0, 0, 6)];
    assert !InMemoryRange(segs[0], 0x40_0000) && InMemoryRange(segs[1], 0x40_0000);
    assert MemorySegment(segs, 0x40_0000) == Some(1);
    VaddrOffsetRoundTrip(segs, 0x40_0000);
    assert LowestNonZeroVaddr(segs[2..]) == None;
  }

  /**
   * Without that agreement the round trip fails: with file ranges touching at 0x100 the
   * offset of 0x5000 belongs to the first segment's inclusive end as well.
   */
  lemma VaddrOffsetRoundTripTouching()
    ensures var segs := [Segment(0, 0x100, 0x1000, 0x100, PF_X), Segment(0x100, 0x100, 0x5000, 0x100, PF_W)];
            && VaddrToOffset(segs, 0x5000) == Some(0x100)
            && OffsetToVaddr(segs, 0x100) == Some(0x1100)
  {
    var segs := [Segment(0, 0x100, 0x1000, 0x100, PF_X), Segment(0x100, 0x100, 0x5000, 0x100, PF_W)];
    assert !InMemoryRange(segs[0], 0x5000) && InMemoryRange(segs[1], 0x5000);
    assert InFileRange(segs[0], 0x100);
  }
}
