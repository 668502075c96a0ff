/** Bytes and little-endian words, shared by the image buffer and the string encoder. */
module Bytes {

  /** One byte of a Python 2 `str` or of the mapped image. */
  type byte = x: int | 0 <= x < 256

  /** `2**32`, the range of a dword. */
  const Dword: int := 0x1_0000_0000

  function Pow256(k: nat): (r: nat)
    ensures r >= 1
  {
    if k == 0 then 1 else 256 * Pow256(k - 1)
  }

  /** Little-endian reading of a byte string: `u32` on four bytes, `u64` on eight. */
  function LittleEndian(bs: seq<byte>): (n: nat)
    ensures n < Pow256(|bs|)
  {
    if |bs| == 0 then 0 else bs[0] + 256 * LittleEndian(bs[1..])
  }

  /** The `k` low-order bytes of `n`, least significant first (`p32`/`p64`). */
  function ToLittleEndian(n: nat, k: nat): (bs: seq<byte>)
    ensures |bs| == k
  {
    if k == 0 then [] else [n % 256] + ToLittleEndian(n / 256, k - 1)
  }

  /** Encoding the value a byte string decodes to gives back the same bytes. */
  lemma {:induction false} EncodeDecode(bs: seq<byte>)
    ensures ToLittleEndian(LittleEndian(bs), |bs|) == bs
  {
    if |bs| > 0 {
      EncodeDecode(bs[1..]);
      assert (bs[0] + 256 * LittleEndian(bs[1..])) / 256 == LittleEndian(bs[1..]);
    }
  }

  /** A byte string decodes to zero exactly when every byte is zero. */
  lemma {:induction false} ZeroIffAllZero(bs: seq<byte>)
    ensures LittleEndian(bs) == 0 <==> forall i :: 0 <= i < |bs| ==> bs[i] == 0
  {
    if |bs| > 0 {
      ZeroIffAllZero(bs[1..]);
      assert forall i :: 1 <= i < |bs| ==> bs[i] == bs[1..][i - 1];
    }
  }

  /** The arithmetic of one step of `LittleEndianAppend`, kept apart from the sequences. */
  lemma AppendStep(d: int, x: int, p: int, y: int, whole: int, pow: int)
    requires whole == d + 256 * x && pow == 256 * p
    ensures d + 256 * (x + p * y) == whole + pow * y
  {
    assert 256 * (x + p * y) == 256 * x + (256 * p) * y;
  }

  /** The bytes of `b` placed after those of `a` count `256^|a|` times as much. */
  lemma {:induction false} LittleEndianAppend(a: seq<byte>, b: seq<byte>)
    ensures LittleEndian(a + b) == LittleEndian(a) + Pow256(|a|) * LittleEndian(b)
  {
    if |a| > 0 {
      assert (a + b)[0] == a[0] && (a + b)[1..] == a[1..] + b;
      assert LittleEndian(a + b) == a[0] + 256 * LittleEndian(a[1..] + b);
      LittleEndianAppend(a[1..], b);
      AppendStep(a[0], LittleEndian(a[1..]), Pow256(|a| - 1), LittleEndian(b), LittleEndian(a), Pow256(|a|));
    } else {
      assert a + b == b;
    }
  }

  /** Bitwise exclusive or of two bytes. */
  function XorByte(x: byte, y: byte): byte
  {
    (x as bv8 ^ y as bv8) as int
  }

  /** Byte-wise exclusive or of two equally long byte strings. */
  function XorBytes(a: seq<byte>, b: seq<byte>): (c: seq<byte>)
    requires |a| == |b|
    ensures |c| == |a|
    ensures forall i :: 0 <= i < |c| ==> c[i] == XorByte(a[i], b[i])
  {
    seq(|a|, i requires 0 <= i < |a| => XorByte(a[i], b[i]))
  }
}
