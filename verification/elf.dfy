/**
 * The loaded ELF image: its segment and section tables, the derived `symbols`, `plt`
 * and `got` maps, the library map, the base `address`, and the copy-on-write buffer.
 * Loading, rebasing, searching, reading and writing are pure functions of an image.
 */
module Elf {
  import opened Wrappers
  import opened Bytes
  import opened Segments
  import opened Tables
  import S = Stream

  datatype Image = Image(
    segments: seq<Segment>,
    sections: seq<Section>,
    symbols: map<string, int>,
    plt: map<string, int>,
    got: map<string, int>,
    libs: map<string, int>,       // supplied by the dynamic-linker trace, opaque here
    address: int,
    stream: S.Stream)

  /** The base address is the least non-zero segment address. */
  predicate BaseIsLowestSegment(img: Image) {
    LowestNonZeroVaddr(img.segments) == Some(img.address)
  }

  /**
   * `ELF(path)`: got/plt first, then symbols, then libraries, then the base address.
   * The decoded tables, the file bytes and the library map are inputs.
   */
  function Load(segments: seq<Segment>, sections: seq<Section>, data: seq<byte>, libs: map<string, int>)
    : (r: Result<Image, LoadError>)
    ensures PopulateGotPlt(sections).Failure? ==> r == Failure(PopulateGotPlt(sections).error)
    ensures PopulateGotPlt(sections).Success? ==>
              (r.Success? <==> exists i :: 0 <= i < |segments| && segments[i].vaddr != 0)
    ensures r.Failure? && PopulateGotPlt(sections).Success? ==> r.error == NoLoadedSegment
    ensures r.Success? ==>
              && BaseIsLowestSegment(r.value)
              && r.value.segments == segments && r.value.sections == sections && r.value.libs == libs
              && r.value.stream == S.Stream(data, 0)
              && r.value.got == PopulateGotPlt(sections).value.got
              && r.value.plt == PopulateGotPlt(sections).value.plt
              && r.value.symbols == PopulateSymbols(r.value.plt, sections)
  {
    match PopulateGotPlt(sections)
    case Failure(e) => Failure(e)
    case Success(t) =>
      match LowestNonZeroVaddr(segments)
      case None => Failure(NoLoadedSegment)
      case Some(base) =>
        Success(Image(segments, sections, PopulateSymbols(t.plt, sections), t.plt, t.got, libs, base, S.Stream(data, 0)))
  }

  /** Every value of `m` moved by `delta`. */
  function ShiftValues(m: map<string, int>, delta: int): map<string, int> {
    map k | k in m :: m[k] + delta
  }

  /** Every section moved by `delta` in memory. */
  function ShiftSections(sections: seq<Section>, delta: int): seq<Section> {
    seq(|sections|, i requires 0 <= i < |sections| => sections[i].(addr := sections[i].addr + delta))
  }

  /**
   * The `address` setter: `delta = base - address` is added to every segment `p_vaddr`,
   * every section `sh_addr`, and every value of `symbols`, `plt` and `got`; the base
   * becomes `base`. The library map and the buffer are not touched.
   */
  function Rebase(img: Image, base: int): (r: Image)
    ensures r.address == base
    ensures r.libs == img.libs && r.stream == img.stream
  {
    var delta := base - img.address;
    Image(Shift(img.segments, delta), ShiftSections(img.sections, delta),
          ShiftValues(img.symbols, delta), ShiftValues(img.plt, delta), ShiftValues(img.got, delta),
          img.libs, img.address + delta, img.stream)
  }

  /** `seg.data()`: the segment's `p_filesz` file bytes, cut short at the end of the buffer. */
  function SegmentData(seg: Segment, buffer: seq<byte>): (d: seq<byte>)
    ensures |d| <= seg.filesz
    ensures seg.offset + seg.filesz <= |buffer| ==> d == buffer[seg.offset .. seg.offset + seg.filesz]
  {
    var lo := if seg.offset <= |buffer| then seg.offset else |buffer|;
    var hi := if seg.offset + seg.filesz <= |buffer| then seg.offset + seg.filesz else |buffer|;
    buffer[lo .. hi]
  }

  /** `pattern` occurs in `data` starting at index `i`. */
  predicate MatchAt(data: seq<byte>, pattern: seq<byte>, i: int) {
    0 <= i && i + |pattern| <= |data| && data[i .. i + |pattern|] == pattern
  }

  /** `data.find(pattern, start)`: the least match index at or after `start`. */
  function Find(data: seq<byte>, pattern: seq<byte>, start: nat): (r: Option<nat>)
    decreases |data| + 1 - start
    ensures r.Some? ==> start <= r.value && MatchAt(data, pattern, r.value)
    ensures r.Some? ==> forall j :: start <= j < r.value ==> !MatchAt(data, pattern, j)
    ensures r.None? ==> forall j :: start <= j ==> !MatchAt(data, pattern, j)
  {
    if start + |pattern| > |data| then None
    else if data[start .. start + |pattern|] == pattern then Some(start)
    else Find(data, pattern, start + 1)
  }

  /** Address `a` is a hit in `seg`: the pattern starts at `a - p_vaddr` in the segment's data. */
  predicate IsHit(seg: Segment, buffer: seq<byte>, pattern: seq<byte>, a: int) {
    MatchAt(SegmentData(seg, buffer), pattern, a - seg.vaddr)
  }

  /**
   * The search loop over one segment's bytes: `find` from `start`, yield, resume one past
   * the match. Every (possibly overlapping) match index from `start` on, ascending.
   */
  function MatchesFrom(data: seq<byte>, pattern: seq<byte>, start: nat): (r: seq<nat>)
    decreases |data| + 1 - start
    ensures forall k :: 0 <= k < |r| ==> start <= r[k] && MatchAt(data, pattern, r[k])
    ensures forall k, l :: 0 <= k < l < |r| ==> r[k] < r[l]
    ensures forall i :: start <= i && MatchAt(data, pattern, i) ==> i in r
  {
    match Find(data, pattern, start)
    case None => []
    case Some(i) => [i] + MatchesFrom(data, pattern, i + 1)
  }

  /** The addresses one segment yields (`addr + offset`), ascending: exactly its hits. */
  function SegmentHits(seg: Segment, buffer: seq<byte>, pattern: seq<byte>): (r: seq<int>)
    ensures forall a :: a in r <==> IsHit(seg, buffer, pattern, a)
    ensures forall k, l :: 0 <= k < l < |r| ==> r[k] < r[l]
  {
    var offs := MatchesFrom(SegmentData(seg, buffer), pattern, 0);
    var r := seq(|offs|, k requires 0 <= k < |offs| => seg.vaddr + offs[k]);
    HitsExactly(seg, buffer, pattern, offs, r);
    r
  }

  /** Offsets that are exactly the match indices, moved by `p_vaddr`, are exactly the hits. */
  lemma HitsExactly(seg: Segment, buffer: seq<byte>, pattern: seq<byte>, offs: seq<nat>, r: seq<int>)
    requires |r| == |offs| && forall k :: 0 <= k < |r| ==> r[k] == seg.vaddr + offs[k]
    requires forall k :: 0 <= k < |offs| ==> MatchAt(SegmentData(seg, buffer), pattern, offs[k])
    requires forall i :: 0 <= i && MatchAt(SegmentData(seg, buffer), pattern, i) ==> i in offs
    ensures forall a :: a in r <==> IsHit(seg, buffer, pattern, a)
  {
    forall a | a in r
      ensures IsHit(seg, buffer, pattern, a)
    {
      var k :| 0 <= k < |r| && r[k] == a;
    }
    forall a | IsHit(seg, buffer, pattern, a)
      ensures a in r
    {
      var i := a - seg.vaddr;
      var k :| 0 <= k < |offs| && offs[k] == i;
      assert r[k] == a;
    }
  }

  /** The hits of each segment in turn, segments in table order. */
  function SearchSegments(segs: seq<Segment>, buffer: seq<byte>, pattern: seq<byte>): seq<int> {
    if |segs| == 0 then [] else SegmentHits(segs[0], buffer, pattern) + SearchSegments(segs[1..], buffer, pattern)
  }

  /** The segment scan yields exactly the hits of the segments it is given. */
  lemma {:induction false} SearchSegmentsHits(segs: seq<Segment>, buffer: seq<byte>, pattern: seq<byte>)
    ensures forall a :: a in SearchSegments(segs, buffer, pattern) <==>
              exists j :: 0 <= j < |segs| && IsHit(segs[j], buffer, pattern, a)
  {
    if |segs| > 0 {
      var rest := SearchSegments(segs[1..], buffer, pattern);
      SearchSegmentsHits(segs[1..], buffer, pattern);
      forall a | a in rest
        ensures exists j :: 1 <= j < |segs| && IsHit(segs[j], buffer, pattern, a)
      {
        var j :| 0 <= j < |segs[1..]| && IsHit(segs[1..][j], buffer, pattern, a);
        assert segs[j + 1] == segs[1..][j];
      }
      forall a, j | 1 <= j < |segs| && IsHit(segs[j], buffer, pattern, a)
        ensures a in rest
      {
        assert segs[1..][j - 1] == segs[j];
      }
    }
  }

  /** Scanning `a + b` yields the hits of `a`, then those of `b`. */
  lemma {:induction false} SearchSegmentsConcat(a: seq<Segment>, b: seq<Segment>, buffer: seq<byte>, pattern: seq<byte>)
    ensures SearchSegments(a + b, buffer, pattern) == SearchSegments(a, buffer, pattern) + SearchSegments(b, buffer, pattern)
  {
    if |a| == 0 {
      assert a + b == b;
    } else {
      assert (a + b)[0] == a[0] && (a + b)[1..] == a[1..] + b;
      SearchSegmentsConcat(a[1..], b, buffer, pattern);
    }
  }

  /**
   * Segment `i`'s hits come out in full, ascending, after the hits of every segment before
   * it and before those of every segment after it; overlapping segments repeat an address.
   */
  lemma {:induction false} SearchSegmentsInOrder(segs: seq<Segment>, i: int, buffer: seq<byte>, pattern: seq<byte>)
    requires 0 <= i < |segs|
    ensures SearchSegments(segs, buffer, pattern)
            == SearchSegments(segs[..i], buffer, pattern) + SegmentHits(segs[i], buffer, pattern)
               + SearchSegments(segs[i + 1..], buffer, pattern)
  {
    var pre, one, post := segs[..i], [segs[i]], segs[i + 1..];
    assert segs == pre + (one + post);
    SearchSegmentsConcat(pre, one + post, buffer, pattern);
    SearchSegmentsConcat(one, post, buffer, pattern);
    assert SearchSegments(one, buffer, pattern) == SegmentHits(segs[i], buffer, pattern) by {
      assert one[1..] == [];
      assert SearchSegments(one, buffer, pattern)
             == SegmentHits(one[0], buffer, pattern) + SearchSegments(one[1..], buffer, pattern);
    }
  }

  /** The segments `search` scans: the writable ones, or all of them when `non_writable` is set. */
  function Scanned(img: Image, nonWritable: bool): (r: seq<Segment>)
    ensures nonWritable ==> r == img.segments
    ensures forall sg :: sg in r <==> sg in img.segments && (nonWritable || sg.flags & PF_W != 0)
  {
    if nonWritable then img.segments else WritableSegments(img.segments)
  }

  /**
   * `search(pattern, non_writable)`: the writable segments, or all of them when
   * `non_writable` is set, scanned in table order for every occurrence of `pattern`.
   */
  function Search(img: Image, pattern: seq<byte>, nonWritable: bool): (r: seq<int>)
    ensures forall a :: a in r <==>
              exists seg :: seg in img.segments && (nonWritable || seg.flags & PF_W != 0)
                            && IsHit(seg, img.stream.data, pattern, a)
  {
    var segs := Scanned(img, nonWritable);
    var r := SearchSegments(segs, img.stream.data, pattern);
    SearchSegmentsHits(segs, img.stream.data, pattern);
    forall a | a in r
      ensures exists seg :: seg in img.segments && (nonWritable || seg.flags & PF_W != 0)
                            && IsHit(seg, img.stream.data, pattern, a)
    {
      var j :| 0 <= j < |segs| && IsHit(segs[j], img.stream.data, pattern, a);
      assert segs[j] in segs;
    }
    forall a, seg | seg in img.segments && (nonWritable || seg.flags & PF_W != 0)
                    && IsHit(seg, img.stream.data, pattern, a)
      ensures a in r
    {
      assert seg in segs;
      var j :| 0 <= j < |segs| && segs[j] == seg;
    }
    r
  }

  /** `search` yields the hits segment by segment, in the order of the scanned table. */
  lemma {:induction false} SearchInOrder(img: Image, pattern: seq<byte>, nonWritable: bool, i: int)
    requires 0 <= i < |Scanned(img, nonWritable)|
    ensures var segs := Scanned(img, nonWritable);
      Search(img, pattern, nonWritable)
      == SearchSegments(segs[..i], img.stream.data, pattern) + SegmentHits(segs[i], img.stream.data, pattern)
         + SearchSegments(segs[i + 1..], img.stream.data, pattern)
  {
    SearchSegmentsInOrder(Scanned(img, nonWritable), i, img.stream.data, pattern);
  }

  /**
   * `read(address, count)`: translate, remember the position, seek, read, seek back.
   * `None` for an unmapped address; the seek fails for an offset past the buffer.
   */
  function Read(img: Image, address: int, count: int): (r: Result<(Option<seq<byte>>, S.Stream), S.IoError>)
    requires S.Valid(img.stream)
    ensures r.Success? ==> r.value.1 == img.stream
    ensures r.Failure? ==> r.error == S.SeekOutOfRange
    ensures VaddrToOffset(img.segments, address).None? ==> r == Success((None, img.stream))
    ensures VaddrToOffset(img.segments, address).Some? ==>
              var off := VaddrToOffset(img.segments, address).value;
              && (r.Success? <==> off <= |img.stream.data|)
              && (r.Success? ==>
                    r.value.0 == Some(img.stream.data[off .. if 0 <= count && off + count <= |img.stream.data|
                                                             then off + count else |img.stream.data|]))
  {
    match VaddrToOffset(img.segments, address)
    case None => Success((None, img.stream))
    case Some(off) =>
      var saved := img.stream.pos;
      match S.Seek(img.stream, off)
      case Failure(e) => Failure(e)
      case Success(at) =>
        var (data, after) := S.ReadFrom(at, count);
        match S.Seek(after, saved)
        case Failure(e) => Failure(e)
        case Success(back) => Success((Some(data), back))
  }

  /**
   * `write(address, data)`: translate, seek, write, seek back. Nothing happens at an
   * unmapped address; the segment's bounds are not checked, only the buffer's.
   */
  function Write(img: Image, address: int, data: seq<byte>): (r: Result<Image, S.IoError>)
    requires S.Valid(img.stream)
    ensures VaddrToOffset(img.segments, address).None? ==> r == Success(img)
    ensures r.Success? ==> r.value == img.(stream := r.value.stream)
    ensures r.Success? ==> r.value.stream.pos == img.stream.pos && |r.value.stream.data| == |img.stream.data|
    ensures VaddrToOffset(img.segments, address).Some? ==>
              var off := VaddrToOffset(img.segments, address).value;
              && (r.Success? <==> off + |data| <= |img.stream.data|)
              && (r.Failure? ==> r.error == (if off <= |img.stream.data| then S.DataOutOfRange else S.SeekOutOfRange))
              && (r.Success? ==>
                    && r.value.stream.data[off .. off + |data|] == data
                    && forall i :: 0 <= i < |img.stream.data| && !(off <= i < off + |data|) ==>
                         r.value.stream.data[i] == img.stream.data[i])
  {
    match VaddrToOffset(img.segments, address)
    case None => Success(img)
    case Some(off) =>
      var saved := img.stream.pos;
      match S.Seek(img.stream, off)
      case Failure(e) => Failure(e)
      case Success(at) =>
        match S.WriteAt(at, data)
        case Failure(e) => Failure(e)
        case Success(written) =>
          match S.Seek(written, saved)
          case Failure(e) => Failure(e)
          case Success(back) => Success(img.(stream := back))
  }
}
