/**
 * Properties relating several operations on an image: rebase composition, the shift of
 * translations and search results under a rebase, the base-address invariant, and
 * reading back what was written.
 */
module ElfProps {
  import opened Wrappers
  import opened Bytes
  import opened Segments
  import opened Tables
  import opened Elf
  import S = Stream

  /**
   * What a rebase does to the tables: one `delta = base - address` added to every
   * segment `p_vaddr`, every section `sh_addr` and every value of `symbols`, `plt`, `got`;
   * file offsets, sizes, flags, section contents and every key set stay as they were.
   */
  lemma RebaseShiftsEverything(img: Image, base: int)
    ensures var r := Rebase(img, base); var delta := base - img.address;
            && |r.segments| == |img.segments|
            && (forall i :: 0 <= i < |r.segments| ==>
                  && r.segments[i].vaddr == img.segments[i].vaddr + delta
                  && r.segments[i].offset == img.segments[i].offset
                  && r.segments[i].filesz == img.segments[i].filesz
                  && r.segments[i].memsz == img.segments[i].memsz
                  && r.segments[i].flags == img.segments[i].flags)
            && |r.sections| == |img.sections|
            && (forall i :: 0 <= i < |r.sections| ==>
                  r.sections[i] == img.sections[i].(addr := img.sections[i].addr + delta))
            && r.symbols.Keys == img.symbols.Keys
            && r.plt.Keys == img.plt.Keys
            && r.got.Keys == img.got.Keys
            && (forall k :: k in r.symbols ==> r.symbols[k] == img.symbols[k] + delta)
            && (forall k :: k in r.plt ==> r.plt[k] == img.plt[k] + delta)
            && (forall k :: k in r.got ==> r.got[k] == img.got[k] + delta)
  {
  }

  /** Setting the address to its current value changes nothing. */
  lemma RebaseToSameAddress(img: Image)
    ensures Rebase(img, img.address) == img
  {
    var r := Rebase(img, img.address);
    assert r.segments == img.segments;
    assert r.sections == img.sections;
    assert r.symbols == img.symbols;
    assert r.plt == img.plt;
    assert r.got == img.got;
  }

  /** Rebasing to `b1` and then to `b2` is rebasing straight to `b2`. */
  lemma RebaseTwice(img: Image, b1: int, b2: int)
    ensures Rebase(Rebase(img, b1), b2) == Rebase(img, b2)
  {
    var once := Rebase(img, b1);
    var twice := Rebase(once, b2);
    var direct := Rebase(img, b2);
    assert twice.segments == direct.segments;
    assert twice.sections == direct.sections;
    assert twice.symbols == direct.symbols;
    assert twice.plt == direct.plt;
    assert twice.got == direct.got;
  }

  /** After a rebase every file offset translates to its old address plus the delta. */
  lemma RebaseOffsetToVaddr(img: Image, base: int, offset: int)
    ensures OffsetToVaddr(Rebase(img, base).segments, offset)
            == ShiftOption(OffsetToVaddr(img.segments, offset), base - img.address)
  {
    OffsetToVaddrShift(img.segments, base - img.address, offset);
  }

  /** After a rebase the moved address translates to the old address's file offset. */
  lemma RebaseVaddrToOffset(img: Image, base: int, address: int)
    ensures VaddrToOffset(Rebase(img, base).segments, address + (base - img.address))
            == VaddrToOffset(img.segments, address)
  {
    VaddrToOffsetShift(img.segments, base - img.address, address);
  }

  /** The segment table after a rebase is the shifted table. */
  lemma RebaseSegments(img: Image, base: int)
    ensures Rebase(img, base).segments == Shift(img.segments, base - img.address)
  {
  }

  /**
   * The base stays the least non-zero segment address across a rebase, provided no
   * segment address is zero before or after the shift.
   */
  lemma RebaseKeepsBaseLowest(img: Image, base: int)
    requires BaseIsLowestSegment(img)
    requires forall j :: 0 <= j < |img.segments| ==>
               img.segments[j].vaddr != 0 && img.segments[j].vaddr + (base - img.address) != 0
    ensures BaseIsLowestSegment(Rebase(img, base))
  {
    RebaseSegments(img, base);
    BaseFollowsShift(img, Rebase(img, base), base - img.address);
  }

  /** An image whose segments and base moved together by `delta` keeps its base lowest. */
  lemma BaseFollowsShift(img: Image, r: Image, delta: int)
    requires BaseIsLowestSegment(img)
    requires forall j :: 0 <= j < |img.segments| ==>
               img.segments[j].vaddr != 0 && img.segments[j].vaddr + delta != 0
    requires r.segments == Shift(img.segments, delta) && r.address == img.address + delta
    ensures BaseIsLowestSegment(r)
  {
    LowestNonZeroVaddrShift(img.segments, delta);
  }

  /** Every address moved by `delta`. */
  function ShiftAll(xs: seq<int>, delta: int): (r: seq<int>)
    ensures |r| == |xs| && forall k :: 0 <= k < |xs| ==> r[k] == xs[k] + delta
  {
    seq(|xs|, k requires 0 <= k < |xs| => xs[k] + delta)
  }

  /** A shift moves every segment's hits by the same amount: the file bytes do not move. */
  lemma SegmentHitsShift(seg: Segment, buffer: seq<byte>, pattern: seq<byte>, delta: int)
    ensures SegmentHits(seg.(vaddr := seg.vaddr + delta), buffer, pattern)
            == ShiftAll(SegmentHits(seg, buffer, pattern), delta)
  {
    var moved := seg.(vaddr := seg.vaddr + delta);
    assert SegmentData(moved, buffer) == SegmentData(seg, buffer);
  }

  lemma ShiftAllConcat(xs: seq<int>, ys: seq<int>, delta: int)
    ensures ShiftAll(xs + ys, delta) == ShiftAll(xs, delta) + ShiftAll(ys, delta)
  {
  }

  /** A shift moves the whole scan's output, in order, by the same amount. */
  lemma {:induction false} SearchSegmentsShift(segs: seq<Segment>, buffer: seq<byte>, pattern: seq<byte>, delta: int)
    ensures SearchSegments(Shift(segs, delta), buffer, pattern) == ShiftAll(SearchSegments(segs, buffer, pattern), delta)
  {
    if |segs| > 0 {
      var t := Shift(segs, delta);
      assert t[0] == segs[0].(vaddr := segs[0].vaddr + delta);
      assert t[1..] == Shift(segs[1..], delta);
      SearchSegmentsShift(segs[1..], buffer, pattern, delta);
      SegmentHitsShift(segs[0], buffer, pattern, delta);
      ShiftAllConcat(SegmentHits(segs[0], buffer, pattern), SearchSegments(segs[1..], buffer, pattern), delta);
    }
  }

  /** The W filter commutes with a shift, which leaves flags alone. */
  lemma {:induction false} FilterShift(segs: seq<Segment>, bit: bv32, delta: int)
    ensures SegmentsWith(Shift(segs, delta), bit) == Shift(SegmentsWith(segs, bit), delta)
  {
    if |segs| > 0 {
      FilterShift(segs[1..], bit, delta);
      FilterShiftStep(segs, bit, delta);
    }
  }

  /** The inductive step of `FilterShift`: the head is kept or dropped alike on both sides. */
  lemma FilterShiftStep(segs: seq<Segment>, bit: bv32, delta: int)
    requires |segs| > 0
    requires SegmentsWith(Shift(segs[1..], delta), bit) == Shift(SegmentsWith(segs[1..], bit), delta)
    ensures SegmentsWith(Shift(segs, delta), bit) == Shift(SegmentsWith(segs, bit), delta)
  {
    var head := segs[0].(vaddr := segs[0].vaddr + delta);
    var tail := Shift(segs[1..], delta);
    var rest := SegmentsWith(segs[1..], bit);
    SameFlags(head, segs[0], bit);
    calc {
      SegmentsWith(Shift(segs, delta), bit);
      { ShiftHead(segs, delta); }
      SegmentsWith([head] + tail, bit);
      { FilterCons(head, tail, bit); }
      if HasFlag(segs[0], bit) then [head] + SegmentsWith(tail, bit) else SegmentsWith(tail, bit);
      if HasFlag(segs[0], bit) then [head] + Shift(rest, delta) else Shift(rest, delta);
      { ShiftCons(segs[0], rest, delta); }
      Shift(if HasFlag(segs[0], bit) then [segs[0]] + rest else rest, delta);
      { FilterCons(segs[0], segs[1..], bit); assert [segs[0]] + segs[1..] == segs; }
      Shift(SegmentsWith(segs, bit), delta);
    }
  }

  /** The flag test looks at `p_flags` only. */
  lemma SameFlags(a: Segment, b: Segment, bit: bv32)
    requires a.flags == b.flags
    ensures HasFlag(a, bit) == HasFlag(b, bit)
  {
  }

  /** Filtering a list with a known head. */
  lemma FilterCons(x: Segment, xs: seq<Segment>, bit: bv32)
    ensures SegmentsWith([x] + xs, bit) == if HasFlag(x, bit) then [x] + SegmentsWith(xs, bit) else SegmentsWith(xs, bit)
  {
    assert ([x] + xs)[0] == x && ([x] + xs)[1..] == xs;
  }

  /** Shifting a list with a known head. */
  lemma ShiftCons(x: Segment, xs: seq<Segment>, delta: int)
    ensures Shift([x] + xs, delta) == [x.(vaddr := x.vaddr + delta)] + Shift(xs, delta)
  {
    ShiftHead([x] + xs, delta);
    assert ([x] + xs)[1..] == xs;
  }

  /** A shift moves the first segment and shifts the rest. */
  lemma ShiftHead(segs: seq<Segment>, delta: int)
    requires |segs| > 0
    ensures Shift(segs, delta) == [segs[0].(vaddr := segs[0].vaddr + delta)] + Shift(segs[1..], delta)
  {
    var t := Shift(segs, delta);
    assert t[1..] == Shift(segs[1..], delta);
    assert t == [t[0]] + t[1..];
  }

  /** After a rebase, `search` yields the same hits in the same order, each moved by the delta. */
  lemma RebaseSearch(img: Image, base: int, pattern: seq<byte>, nonWritable: bool)
    ensures Search(Rebase(img, base), pattern, nonWritable) == ShiftAll(Search(img, pattern, nonWritable), base - img.address)
  {
    var delta := base - img.address;
    var r := Rebase(img, base);
    RebaseSegments(img, base);
    assert r.stream == img.stream;
    if nonWritable {
      SearchSegmentsShift(img.segments, img.stream.data, pattern, delta);
    } else {
      FilterShift(img.segments, PF_W, delta);
      SearchSegmentsShift(WritableSegments(img.segments), img.stream.data, pattern, delta);
    }
  }

  /** After a rebase, reading at the moved address reads what the old address held. */
  lemma RebaseRead(img: Image, base: int, address: int, count: int)
    requires S.Valid(img.stream)
    ensures Read(Rebase(img, base), address + (base - img.address), count) == Read(img, address, count)
  {
    RebaseVaddrToOffset(img, base, address);
  }

  /** Reading back a write at a mapped address returns the bytes written, and the stream is restored. */
  lemma ReadAfterWrite(img: Image, address: int, data: seq<byte>)
    requires S.Valid(img.stream)
    requires Write(img, address, data).Success?
    requires VaddrToOffset(img.segments, address).Some?
    ensures var w := Write(img, address, data).value;
            Read(w, address, |data|) == Success((Some(data), w.stream))
  {
    var w := Write(img, address, data).value;
    var off := VaddrToOffset(img.segments, address).value;
    assert w.segments == img.segments;
    var r := Read(w, address, |data|);
    assert |r.value.0.value| == |data|;
  }

  /** A write is not confined to the segment it starts in: it may run into the next one. */
  lemma WriteCrossesSegments()
    ensures var img := Image([Segment(0, 2, 0x1000, 2, PF_W), Segment(2, 2, 0x2000, 2, PF_W)],
                             [], map[], map[], map[], map[], 0x1000, S.Stream([1, 1, 1, 1], 0));
            && Write(img, 0x1001, [7, 7]).Success?
            && Write(img, 0x1001, [7, 7]).value.stream.data == [1, 7, 7, 1]
  {
    var img := Image([Segment(0, 2, 0x1000, 2, PF_W), Segment(2, 2, 0x2000, 2, PF_W)],
                     [], map[], map[], map[], map[], 0x1000, S.Stream([1, 1, 1, 1], 0));
    assert InMemoryRange(img.segments[0], 0x1001);
    assert VaddrToOffset(img.segments, 0x1001) == Some(1);
  }

  /** The rebase doctest: moving the base by 0x1000 moves `symbols['read']` by 0x1000. */
  lemma RebaseMovesSymbol(img: Image, name: string)
    requires name in img.symbols
    ensures Rebase(img, img.address + 0x1000).symbols[name] == img.symbols[name] + 0x1000
  {
  }

  /** A table without `.plt` (a static executable) does not load: the source raises. */
  lemma NoPltNoImage(segments: seq<Segment>, sections: seq<Section>, data: seq<byte>, libs: map<string, int>)
    requires forall i :: 0 <= i < |sections| ==> sections[i].name != ".plt"
    ensures Load(segments, sections, data, libs) == Failure(NoPltSection)
  {
  }
}
