/**
 * The copy-on-write mapping that backs the image: its bytes and a current position,
 * with the seek/read/write behaviour of a Python `mmap` object.
 */
module Stream {
  import opened Bytes
  import opened Wrappers

  datatype Stream = Stream(data: seq<byte>, pos: nat)

  /** The mapping's position never passes its end. */
  predicate Valid(s: Stream) {
    s.pos <= |s.data|
  }

  /** `ValueError` raised by the mapping: a seek outside it, or a write running past its end. */
  datatype IoError = SeekOutOfRange | DataOutOfRange

  /** `seek(where)`: absolute positioning, allowed from 0 up to and including the end. */
  function Seek(s: Stream, where: int): (r: Result<Stream, IoError>)
    ensures r.Success? <==> 0 <= where <= |s.data|
    ensures r.Success? ==> Valid(r.value) && r.value.data == s.data && r.value.pos == where
    ensures r.Failure? ==> r.error == SeekOutOfRange
  {
    if 0 <= where <= |s.data| then Success(Stream(s.data, where)) else Failure(SeekOutOfRange)
  }

  /** `read(count)`: up to `count` bytes from the position; a negative count means the rest. */
  function ReadFrom(s: Stream, count: int): (r: (seq<byte>, Stream))
    requires Valid(s)
    ensures Valid(r.1) && r.1.data == s.data && r.1.pos == s.pos + |r.0|
    ensures r.0 == s.data[s.pos .. r.1.pos]
    ensures 0 <= count ==> |r.0| == if s.pos + count <= |s.data| then count else |s.data| - s.pos
    ensures count < 0 ==> r.1.pos == |s.data|
  {
    var n := |s.data| - s.pos;
    var k := if count < 0 || count > n then n else count;
    (s.data[s.pos .. s.pos + k], Stream(s.data, s.pos + k))
  }

  /** `write(d)`: overwrite `|d|` bytes at the position and advance past them. */
  function WriteAt(s: Stream, d: seq<byte>): (r: Result<Stream, IoError>)
    requires Valid(s)
    ensures r.Success? <==> s.pos + |d| <= |s.data|
    ensures r.Failure? ==> r.error == DataOutOfRange
    ensures r.Success? ==> Valid(r.value) && r.value.pos == s.pos + |d|
    ensures r.Success? ==> |r.value.data| == |s.data| && r.value.data[s.pos .. s.pos + |d|] == d
    ensures r.Success? ==> forall i :: 0 <= i < |s.data| && !(s.pos <= i < s.pos + |d|) ==> r.value.data[i] == s.data[i]
  {
    if s.pos + |d| <= |s.data| then
      Success(Stream(s.data[..s.pos] + d + s.data[s.pos + |d|..], s.pos + |d|))
    else
      Failure(DataOutOfRange)
  }
}
