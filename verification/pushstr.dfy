/**
 * The stack-push string encoder: optionally NUL-terminate a string, pad it to whole
 * words with a sign-dependent fill byte, split it into little-endian words, and pick
 * one of three instruction shapes per word.
 */
module PushStr {
  import opened Bytes

  datatype Arch = I386 | Amd64

  /** The stack register an instruction addresses memory through. */
  datatype Reg = Esp | Rsp

  /** The instructions the encoder emits, as values rather than assembly text. */
  datatype Insn =
    | Push(imm: int)                  // push imm
    | DecByte(base: Reg)              // dec byte [base]
    | XorDword(base: Reg, imm: int)   // xor dword [base], imm
    | MovRax(imm: int)                // mov rax, imm
    | XorRax(imm: int)                // xor rax, imm
    | PushRax                         // push rax

  /** `xor_pair(s, avoid='\x00')`: two strings whose byte-wise xor is `s`. Supplied by the caller. */
  type XorPair = seq<byte> -> (seq<byte>, seq<byte>)

  /** What the encoder relies on from `xor_pair` for the string `s`. */
  predicate XorPairSound(s: seq<byte>, p: (seq<byte>, seq<byte>)) {
    |p.0| == |s| && |p.1| == |s| && XorBytes(p.0, p.1) == s
  }

  /** The word sizes the encoder works in: 4 bytes on i386, 8 on amd64. */
  predicate WordSize(k: nat) {
    k == 4 || k == 8
  }

  /** `align(k, n)`: `n` rounded up to a multiple of `k`. */
  function AlignUp(k: nat, n: nat): (r: nat)
    requires WordSize(k)
    ensures r % k == 0 && n <= r < n + k
  {
    (n + k - 1) / k * k
  }

  /** The `ljust` fill: `0xff` when the last character's code is 128 or more, else NUL. */
  function FillByte(s: seq<byte>): byte
    requires |s| > 0
  {
    if s[|s| - 1] >= 128 then 0xff else 0
  }

  /** `s.ljust(align(k, len(s)), extend)`. */
  function Pad(s: seq<byte>, k: nat): (t: seq<byte>)
    requires |s| > 0 && WordSize(k)
    ensures |t| % k == 0 && |s| <= |t| < |s| + k
    ensures t[..|s|] == s
    ensures forall i :: |s| <= i < |t| ==> t[i] == FillByte(s)
  {
    s + seq(AlignUp(k, |s|) - |s|, _ => FillByte(s))
  }

  /** Pieces laid end to end: `flat` over a list of words, or the groups' instructions in emission order. */
  function Flatten<T>(xs: seq<seq<T>>): seq<T> {
    if |xs| == 0 then [] else xs[0] + Flatten(xs[1..])
  }

  /** `group(t, k)`: consecutive `k`-byte words, in order, which laid end to end give `t` back. */
  function Words(t: seq<byte>, k: nat): (ws: seq<seq<byte>>)
    requires WordSize(k) && |t| % k == 0
    ensures |ws| == |t| / k
    ensures forall i :: 0 <= i < |ws| ==> |ws[i]| == k
    ensures Flatten(ws) == t
    decreases |t|
  {
    if |t| == 0 then []
    else
      var ws := [t[..k]] + Words(t[k..], k);
      assert ws[1..] == Words(t[k..], k);
      ws
  }

  /** `n - 2 * (n & half)`: the two's-complement reading of an unsigned `n` below `2 * half`. */
  function Signed(n: int, half: int): (s: int)
    requires 0 <= n < 2 * half && (half == Half32 || half == Half64)
    ensures -half <= s < half
    ensures s == n <==> n < half
    ensures s == n || s == n - 2 * half
  {
    var top := if (n / half) % 2 == 1 then half else 0;
    n - 2 * top
  }

  const Half32: int := 0x8000_0000
  const Half64: int := 0x8000_0000_0000_0000

  /** Fits a sign-extended byte immediate. */
  predicate Small(sign: int) {
    -128 <= sign < 128
  }

  /**
   * One `_pushstr_i386` loop iteration for the four-byte word `w`: `push 1; dec byte [esp]`
   * for the zero word, `push n` when no `xor_pair` is needed, `push a; xor dword [esp], b`
   * over the pair otherwise.
   */
  function EncodeWordI386(w: seq<byte>, xorPair: XorPair): (r: seq<Insn>)
    requires |w| == 4
    ensures LittleEndian(w) == 0 <==> r == [Push(1), DecByte(Esp)]
    ensures LittleEndian(w) != 0 && !NeedsXorPair(w, Half32) ==> r == [Push(LittleEndian(w))]
    ensures NeedsXorPair(w, Half32) ==>
              r == [Push(LittleEndian(xorPair(w).0)), XorDword(Esp, LittleEndian(xorPair(w).1))]
  {
    var n := LittleEndian(w);
    var sign := Signed(n, Half32);
    if n == 0 then [Push(1), DecByte(Esp)]
    else if Small(sign) || 0 !in w then [Push(n)]
    else
      var (a, b) := xorPair(w);
      [Push(LittleEndian(a)), XorDword(Esp, LittleEndian(b))]
  }

  const NulHalf: seq<byte> := [0, 0, 0, 0]
  const FfHalf: seq<byte> := [0xff, 0xff, 0xff, 0xff]

  /**
   * The test guarding the 32-bit xor form on amd64 as the source writes it,
   * `s[4:] == '\xff'*4 if sign<0 else '\x00'*4`. Python reads it as
   * `(s[4:] == '\xff'*4) if sign < 0 else '\x00'*4`, and a non-empty string is true.
   */
  predicate ShortFormAsWritten(w: seq<byte>, sign: int)
    requires |w| == 8
  {
    if sign < 0 then w[4..] == FfHalf else true
  }

  /**
   * The test as evidently intended: `push imm32` sign-extends bit 31 of its immediate, so
   * the 32-bit form stands for the word only when the high half is that bit's fill.
   */
  predicate ShortForm(w: seq<byte>)
    requires |w| == 8
  {
    w[4..] == (if w[3] >= 128 then FfHalf else NulHalf)
  }

  /**
   * The test with only its precedence repaired, `s[4:] == ('\xff'*4 if sign<0 else '\x00'*4)`:
   * the high half is the fill of the word's own sign, bit 63, rather than of bit 31.
   */
  predicate ShortFormParenthesised(w: seq<byte>, sign: int)
    requires |w| == 8
  {
    w[4..] == (if sign < 0 then FfHalf else NulHalf)
  }

  /** The word needs an `xor_pair`: non-zero, no byte-sized sign, and holding a NUL. */
  predicate NeedsXorPair(w: seq<byte>, half: int)
    requires (|w| == 4 && half == Half32) || (|w| == 8 && half == Half64)
  {
    LittleEndian(w) != 0 && !Small(Signed(LittleEndian(w), half)) && 0 in w
  }

  /**
   * One `_pushstr_amd64` loop iteration for the eight-byte word `w`, given the register
   * the zero-word `dec` addresses through and the outcome of the short-form test.
   */
  function Amd64Group(w: seq<byte>, xorPair: XorPair, decBase: Reg, short: bool): (r: seq<Insn>)
    requires |w| == 8
    ensures (forall i :: 0 <= i < 8 ==> w[i] == 0) <==> r == [Push(1), DecByte(decBase)]
    ensures LittleEndian(w) != 0 && !NeedsXorPair(w, Half64) ==> r == [Push(LittleEndian(w))]
    ensures NeedsXorPair(w, Half64) ==> |r| >= 2
    ensures NeedsXorPair(w, Half64) && short ==>
              var (a, b) := xorPair(w[..4]);
              var (x, y) := (LittleEndian(a), LittleEndian(b));
              r == [Push(if x >= y then x else y), XorDword(Rsp, if x >= y then y else x)]
    ensures NeedsXorPair(w, Half64) && !short ==>
              r == [MovRax(LittleEndian(xorPair(w).0)), XorRax(LittleEndian(xorPair(w).1)), PushRax]
  {
    var n := LittleEndian(w);
    var sign := Signed(n, Half64);
    ZeroIffAllZero(w);
    if n == 0 then [Push(1), DecByte(decBase)]
    else if Small(sign) || 0 !in w then [Push(n)]
    else if short then
      var (a, b) := xorPair(w[..4]);
      var (x, y) := (LittleEndian(a), LittleEndian(b));
      [Push(if x >= y then x else y), XorDword(Rsp, if x >= y then y else x)]
    else
      var (a, b) := xorPair(w);
      [MovRax(LittleEndian(a)), XorRax(LittleEndian(b)), PushRax]
  }

  /**
   * `_pushstr_amd64`'s loop body as written: `dec byte [esp]` and the mis-parsed test. The
   * long form's first instruction is `MovRax`, the intended `mov rax, imm64`.
   */
  function EncodeWordAmd64AsWritten(w: seq<byte>, xorPair: XorPair): (r: seq<Insn>)
    requires |w| == 8
    ensures LittleEndian(w) == 0 ==> r == [Push(1), DecByte(Esp)]
    ensures NeedsXorPair(w, Half64) ==>
              |r| >= 2 && (r[1].XorDword? <==> ShortFormAsWritten(w, Signed(LittleEndian(w), Half64)))
  {
    Amd64Group(w, xorPair, Esp, ShortFormAsWritten(w, Signed(LittleEndian(w), Half64)))
  }

  /** The corrected loop body: `dec byte [rsp]`, and the short form only for a sign-extended word. */
  function EncodeWordAmd64(w: seq<byte>, xorPair: XorPair): (r: seq<Insn>)
    requires |w| == 8
    ensures forall i :: 0 <= i < |r| ==> (r[i].DecByte? ==> r[i].base == Rsp) && (r[i].XorDword? ==> r[i].base == Rsp)
    ensures LittleEndian(w) == 0 ==> r == [Push(1), DecByte(Rsp)]
    ensures NeedsXorPair(w, Half64) ==> |r| >= 2 && (r[1].XorDword? <==> ShortForm(w))
  {
    Amd64Group(w, xorPair, Rsp, ShortForm(w))
  }

  /** The word size of an architecture. */
  function WordBytes(arch: Arch): (k: nat)
    ensures WordSize(k)
  {
    match arch
    case I386 => 4
    case Amd64 => 8
  }

  /** The padded string's words on `arch`. */
  function WordsOf(arch: Arch, s: seq<byte>): (ws: seq<seq<byte>>)
    requires |s| > 0
    ensures |ws| == |Pad(s, WordBytes(arch))| / WordBytes(arch)
    ensures Flatten(ws) == Pad(s, WordBytes(arch))
    ensures forall i :: 0 <= i < |ws| ==> |ws[i]| == WordBytes(arch)
  {
    Words(Pad(s, WordBytes(arch)), WordBytes(arch))
  }

  /** The encoding of one word on `arch`, as the source writes it. */
  function EncodeWordAsWritten(arch: Arch, w: seq<byte>, xorPair: XorPair): seq<Insn>
    requires |w| == WordBytes(arch)
  {
    match arch
    case I386 => EncodeWordI386(w, xorPair)
    case Amd64 => EncodeWordAmd64AsWritten(w, xorPair)
  }

  /** The encoding of one word on `arch`, with the amd64 corrections. */
  function EncodeWord(arch: Arch, w: seq<byte>, xorPair: XorPair): seq<Insn>
    requires |w| == WordBytes(arch)
  {
    match arch
    case I386 => EncodeWordI386(w, xorPair)
    case Amd64 => EncodeWordAmd64(w, xorPair)
  }

  /** The elements of `xs`, last first. */
  function Reversed<T>(xs: seq<T>): (r: seq<T>)
    ensures |r| == |xs|
    ensures forall i :: 0 <= i < |xs| ==> r[i] == xs[|xs| - 1 - i]
  {
    if |xs| == 0 then [] else Reversed(xs[1..]) + [xs[0]]
  }

  /**
   * `_pushstr_i386` / `_pushstr_amd64` before the text is joined, as written: one group
   * per word, in the order `group` yields the words, first word first.
   */
  function GroupsAsWritten(arch: Arch, s: seq<byte>, xorPair: XorPair): (gs: seq<seq<Insn>>)
    requires |s| > 0
    ensures |gs| == |WordsOf(arch, s)|
    ensures forall i :: 0 <= i < |gs| ==> gs[i] == EncodeWordAsWritten(arch, WordsOf(arch, s)[i], xorPair)
  {
    var ws := WordsOf(arch, s);
    seq(|ws|, i requires 0 <= i < |ws| => EncodeWordAsWritten(arch, ws[i], xorPair))
  }

  /**
   * The corrected groups: one per word, last word first, so that the first word is pushed
   * last and the string reads forward from the stack pointer.
   */
  function Groups(arch: Arch, s: seq<byte>, xorPair: XorPair): (gs: seq<seq<Insn>>)
    requires |s| > 0
    ensures |gs| == |WordsOf(arch, s)|
    ensures forall i :: 0 <= i < |gs| ==> gs[i] == EncodeWord(arch, WordsOf(arch, s)[|gs| - 1 - i], xorPair)
  {
    var ws := Reversed(WordsOf(arch, s));
    seq(|ws|, i requires 0 <= i < |ws| => EncodeWord(arch, ws[i], xorPair))
  }

  /** The string `pushstr` works on: one NUL appended when `null` (here `terminate`) is set. */
  function Terminated(s: seq<byte>, terminate: bool): (t: seq<byte>)
    ensures |t| == if terminate then |s| + 1 else |s|
    ensures t[..|s|] == s
    ensures terminate ==> t[|s|] == 0
  {
    if terminate then s + [0] else s
  }

  /**
   * `pushstr(string, null, arch)` as written: append the NUL, emit nothing for an empty
   * string, otherwise every group in word order.
   */
  function PushStringAsWritten(s: seq<byte>, terminate: bool, arch: Arch, xorPair: XorPair): (r: seq<Insn>)
    ensures r == [] <==> |s| == 0 && !terminate
  {
    var t := Terminated(s, terminate);
    if |t| == 0 then [] else Flatten(GroupsAsWritten(arch, t, xorPair))
  }

  /**
   * `pushstr` corrected: the words are pushed last first, and on amd64 each word is
   * encoded by `EncodeWordAmd64`.
   */
  function PushString(s: seq<byte>, terminate: bool, arch: Arch, xorPair: XorPair): (r: seq<Insn>)
    ensures r == [] <==> |s| == 0 && !terminate
  {
    var t := Terminated(s, terminate);
    if |t| == 0 then [] else Flatten(Groups(arch, t, xorPair))
  }
}
