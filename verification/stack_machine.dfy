/**
 * What the emitted i386 instructions do to the stack, as an independent account of the
 * encoder: each group leaves exactly its word on top of the stack.
 */
module StackMachine {
  import opened Bytes
  import opened Wrappers
  import opened PushStr

  /**
   * One instruction in 32-bit mode, acting on the bytes from `esp` upward. `push`
   * stores a 32-bit value; `dec byte [esp]` wraps; the 64-bit forms do not exist here.
   */
  function Step32(insn: Insn, stack: seq<byte>): Option<seq<byte>> {
    match insn
    case Push(v) =>
      if 0 <= v < Dword then Some(ToLittleEndian(v, 4) + stack) else None
    case DecByte(Esp) =>
      if |stack| >= 1 then Some([(stack[0] as int + 255) % 256] + stack[1..]) else None
    case XorDword(Esp, v) =>
      if |stack| >= 4 && 0 <= v < Dword then Some(XorBytes(stack[..4], ToLittleEndian(v, 4)) + stack[4..]) else None
    case _ => None
  }

  /** A sequence of instructions, stopping at the first one that cannot execute. */
  function Run32(insns: seq<Insn>, stack: seq<byte>): Option<seq<byte>> {
    if |insns| == 0 then Some(stack)
    else match Step32(insns[0], stack)
      case None => None
      case Some(next) => Run32(insns[1..], next)
  }

  /** Running two pieces back to back is running the first, then the second on its result. */
  lemma {:induction false} RunAppend(a: seq<Insn>, b: seq<Insn>, stack: seq<byte>)
    ensures Run32(a + b, stack) == match Run32(a, stack)
      case None => None
      case Some(mid) => Run32(b, mid)
  {
    if |a| == 0 {
      assert a + b == b;
    } else {
      assert (a + b)[0] == a[0] && (a + b)[1..] == a[1..] + b;
      match Step32(a[0], stack)
      case None =>
      case Some(next) => RunAppend(a[1..], b, next);
    }
  }

  lemma FourByteBound(w: seq<byte>)
    requires |w| == 4
    ensures LittleEndian(w) < Dword
  {
    assert Pow256(4) == Dword;
  }

  lemma ZeroWordRuns(w: seq<byte>, stack: seq<byte>)
    requires |w| == 4 && LittleEndian(w) == 0
    ensures Run32([Push(1), DecByte(Esp)], stack) == Some(w + stack)
  {
    var pushed := PushOne(stack);
    var dec := DecTop(pushed);
    ZeroIffAllZero(w);
    assert w == [0, 0, 0, 0];
    assert dec == w + stack;
  }

  /** `push 1` puts the bytes `01 00 00 00` on the stack. */
  lemma PushOne(stack: seq<byte>) returns (pushed: seq<byte>)
    ensures pushed == [1, 0, 0, 0] + stack
    ensures Run32([Push(1), DecByte(Esp)], stack) == Run32([DecByte(Esp)], pushed)
  {
    pushed := [1, 0, 0, 0] + stack;
    assert ToLittleEndian(1, 4) == [1, 0, 0, 0] by {
      assert ToLittleEndian(0, 1) == [0];
      assert ToLittleEndian(0, 2) == [0, 0];
      assert ToLittleEndian(0, 3) == [0, 0, 0];
    }
    assert Step32(Push(1), stack) == Some(pushed);
    assert [Push(1), DecByte(Esp)][1..] == [DecByte(Esp)];
  }

  /** `dec byte [esp]` on a top byte of 1 leaves a NUL there. */
  lemma DecTop(pushed: seq<byte>) returns (dec: seq<byte>)
    requires |pushed| >= 1 && pushed[0] == 1
    ensures dec == [0] + pushed[1..]
    ensures Run32([DecByte(Esp)], pushed) == Some(dec)
  {
    dec := [0] + pushed[1..];
    assert Step32(DecByte(Esp), pushed) == Some(dec);
    assert Run32([DecByte(Esp)], pushed) == Run32([], dec);
  }

  lemma PlainWordRuns(w: seq<byte>, stack: seq<byte>)
    requires |w| == 4
    ensures Run32([Push(LittleEndian(w))], stack) == Some(w + stack)
  {
    FourByteBound(w);
    EncodeDecode(w);
    assert Run32([Push(LittleEndian(w))], stack) == Run32([], w + stack);
  }

  lemma XorWordRuns(w: seq<byte>, a: seq<byte>, b: seq<byte>, stack: seq<byte>)
    requires |w| == 4 && XorPairSound(w, (a, b))
    ensures Run32([Push(LittleEndian(a)), XorDword(Esp, LittleEndian(b))], stack) == Some(w + stack)
  {
    FourByteBound(a);
    FourByteBound(b);
    EncodeDecode(a);
    EncodeDecode(b);
    var pushed := a + stack;
    assert Step32(Push(LittleEndian(a)), stack) == Some(pushed);
    assert pushed[..4] == a && pushed[4..] == stack;
    assert Step32(XorDword(Esp, LittleEndian(b)), pushed) == Some(w + stack);
    assert Run32([XorDword(Esp, LittleEndian(b))], pushed) == Run32([], w + stack);
  }

  /**
   * Each of the three shapes leaves exactly the word on the stack: `push 1; dec` for zero,
   * `push n` directly, or `push a; xor [esp], b` with `a ^ b` the word.
   */
  lemma I386GroupPushesWord(w: seq<byte>, xorPair: XorPair, stack: seq<byte>)
    requires |w| == 4
    requires NeedsXorPair(w, Half32) ==> XorPairSound(w, xorPair(w))
    ensures Run32(EncodeWordI386(w, xorPair), stack) == Some(w + stack)
  {
    var n := LittleEndian(w);
    if n == 0 {
      ZeroWordRuns(w, stack);
    } else if Small(Signed(n, Half32)) || 0 !in w {
      PlainWordRuns(w, stack);
    } else {
      var (a, b) := xorPair(w);
      XorWordRuns(w, a, b, stack);
    }
  }

  /** `xor_pair` is sound for every word of `ws` that needs it. */
  predicate XorPairSoundFor(ws: seq<seq<byte>>, xorPair: XorPair) {
    forall i :: 0 <= i < |ws| && |ws[i]| == 4 && NeedsXorPair(ws[i], Half32) ==> XorPairSound(ws[i], xorPair(ws[i]))
  }

  /** The stack after pushing `ws` in order: the last word ends up on top. */
  function Stacked(ws: seq<seq<byte>>, stack: seq<byte>): seq<byte> {
    if |ws| == 0 then stack else Stacked(ws[1..], ws[0] + stack)
  }

  /** The encoding of a list of four-byte words, group after group. */
  function EncodeWordsI386(ws: seq<seq<byte>>, xorPair: XorPair): seq<seq<Insn>>
    requires forall i :: 0 <= i < |ws| ==> |ws[i]| == 4
  {
    seq(|ws|, i requires 0 <= i < |ws| => EncodeWordI386(ws[i], xorPair))
  }

  /** Running the groups for `ws` pushes the words one after another. */
  lemma {:induction false} RunWordsI386(ws: seq<seq<byte>>, xorPair: XorPair, stack: seq<byte>)
    requires forall i :: 0 <= i < |ws| ==> |ws[i]| == 4
    requires XorPairSoundFor(ws, xorPair)
    ensures Run32(Flatten(EncodeWordsI386(ws, xorPair)), stack) == Some(Stacked(ws, stack))
  {
    if |ws| > 0 {
      var gs := EncodeWordsI386(ws, xorPair);
      assert gs[1..] == EncodeWordsI386(ws[1..], xorPair);
      RunAppend(gs[0], Flatten(gs[1..]), stack);
      I386GroupPushesWord(ws[0], xorPair, stack);
      assert XorPairSoundFor(ws[1..], xorPair) by {
        forall i | 0 <= i < |ws[1..]| && |ws[1..][i]| == 4 && NeedsXorPair(ws[1..][i], Half32)
          ensures XorPairSound(ws[1..][i], xorPair(ws[1..][i]))
        {
          assert ws[1..][i] == ws[i + 1];
        }
      }
      RunWordsI386(ws[1..], xorPair, ws[0] + stack);
    }
  }

  /** Pushing `a` and then `b` is pushing `a + b`. */
  lemma {:induction false} StackedAppend(a: seq<seq<byte>>, b: seq<seq<byte>>, stack: seq<byte>)
    ensures Stacked(a + b, stack) == Stacked(b, Stacked(a, stack))
  {
    if |a| == 0 {
      assert a + b == b;
    } else {
      assert (a + b)[0] == a[0] && (a + b)[1..] == a[1..] + b;
      StackedAppend(a[1..], b, a[0] + stack);
    }
  }

  /** Pushing the words last first leaves them laid end to end in order from the top. */
  lemma {:induction false} StackedReversed(ws: seq<seq<byte>>, stack: seq<byte>)
    ensures Stacked(Reversed(ws), stack) == Flatten(ws) + stack
  {
    if |ws| > 0 {
      StackedReversed(ws[1..], stack);
      StackedAppend(Reversed(ws[1..]), [ws[0]], stack);
      assert Stacked([ws[0]], Flatten(ws[1..]) + stack) == ws[0] + (Flatten(ws[1..]) + stack) by {
        var one: seq<seq<byte>> := [ws[0]];
        assert one[1..] == [];
      }
    }
  }

  /** A sound `xor_pair` for every word is sound for every word in any order. */
  lemma {:induction false} XorPairSoundReversed(ws: seq<seq<byte>>, xorPair: XorPair)
    requires XorPairSoundFor(ws, xorPair)
    ensures XorPairSoundFor(Reversed(ws), xorPair)
  {
    var rs := Reversed(ws);
    forall i | 0 <= i < |rs| && |rs[i]| == 4 && NeedsXorPair(rs[i], Half32)
      ensures XorPairSound(rs[i], xorPair(rs[i]))
    {
      assert rs[i] == ws[|ws| - 1 - i];
    }
  }

  /**
   * The whole i386 output of `pushstr` as written, run from any stack, pushes the padded
   * (and, with `null`, NUL-terminated) string's words first to last, so the last word
   * ends up on top.
   */
  lemma {:induction false} PushStringAsWrittenI386Runs(s: seq<byte>, terminate: bool, xorPair: XorPair, stack: seq<byte>)
    requires |s| > 0 || terminate
    requires XorPairSoundFor(WordsOf(I386, Terminated(s, terminate)), xorPair)
    ensures Run32(PushStringAsWritten(s, terminate, I386, xorPair), stack)
            == Some(Stacked(WordsOf(I386, Terminated(s, terminate)), stack))
  {
    var t := Terminated(s, terminate);
    var ws := WordsOf(I386, t);
    assert GroupsAsWritten(I386, t, xorPair) == EncodeWordsI386(ws, xorPair);
    RunWordsI386(ws, xorPair, stack);
  }

  /** Pushing two words leaves the second on top of the first. */
  lemma StackedTwo(w0: seq<byte>, w1: seq<byte>, stack: seq<byte>)
    ensures Stacked([w0, w1], stack) == w1 + (w0 + stack)
  {
    var ws: seq<seq<byte>> := [w0, w1];
    var tail: seq<seq<byte>> := ws[1..];
    assert ws[0] == w0 && tail == [w1] && tail[0] == w1 && tail[1..] == [];
    assert Stacked(ws, stack) == Stacked(tail, w0 + stack);
    assert Stacked(tail, w0 + stack) == Stacked(tail[1..], w1 + (w0 + stack));
  }

  /** `ABCDE` with its NUL, padded to dwords, splits into `ABCD` and `E\0\0\0`. */
  lemma WordsOfABCDE()
    ensures var t := Terminated([0x41, 0x42, 0x43, 0x44, 0x45], true);
      && Pad(t, 4) == [0x41, 0x42, 0x43, 0x44, 0x45, 0, 0, 0]
      && WordsOf(I386, t) == [[0x41, 0x42, 0x43, 0x44], [0x45, 0, 0, 0]]
  {
    var t := Terminated([0x41, 0x42, 0x43, 0x44, 0x45], true);
    var w0: seq<byte> := [0x41, 0x42, 0x43, 0x44];
    var w1: seq<byte> := [0x45, 0, 0, 0];
    assert Pad(t, 4) == w0 + w1;
    var rest := Words(w1, 4);
    assert Flatten(rest) == w1 && |rest| == 1;
    assert rest[0] == w1 by {
      assert Flatten(rest) == rest[0] + Flatten(rest[1..]);
    }
    assert (w0 + w1)[..4] == w0 && (w0 + w1)[4..] == w1;
  }

  /** Neither word of `ABCDE\0` needs an `xor` pair, so any `xor_pair` will do. */
  lemma SoundForABCDE(xorPair: XorPair)
    ensures XorPairSoundFor([[0x41, 0x42, 0x43, 0x44], [0x45, 0, 0, 0]], xorPair)
  {
    var w0: seq<byte> := [0x41, 0x42, 0x43, 0x44];
    var w1: seq<byte> := [0x45, 0, 0, 0];
    assert !NeedsXorPair(w0, Half32);
    assert Signed(LittleEndian(w1), Half32) == 0x45;
  }

  /**
   * `pushstr('ABCDE')` on i386 as written: the words `ABCD` and `E\0\0\0` are pushed in that
   * order, so the stack reads `E\0\0\0ABCD` upward from `esp` instead of the string.
   */
  lemma {:induction false} AsWrittenStacksWordsReversed(xorPair: XorPair, stack: seq<byte>)
    ensures var s: seq<byte> := [0x41, 0x42, 0x43, 0x44, 0x45];
      && Pad(Terminated(s, true), 4) == [0x41, 0x42, 0x43, 0x44, 0x45, 0, 0, 0]
      && Run32(PushStringAsWritten(s, true, I386, xorPair), stack)
         == Some([0x45, 0, 0, 0, 0x41, 0x42, 0x43, 0x44] + stack)
      && Run32(PushStringAsWritten(s, true, I386, xorPair), stack) != Some(Pad(Terminated(s, true), 4) + stack)
  {
    var s: seq<byte> := [0x41, 0x42, 0x43, 0x44, 0x45];
    var w0: seq<byte> := [0x41, 0x42, 0x43, 0x44];
    var w1: seq<byte> := [0x45, 0, 0, 0];
    WordsOfABCDE();
    SoundForABCDE(xorPair);
    PushStringAsWrittenI386Runs(s, true, xorPair, stack);
    StackedTwo(w0, w1, stack);
    assert w1 + (w0 + stack) == [0x45, 0, 0, 0, 0x41, 0x42, 0x43, 0x44] + stack;
    assert (w1 + (w0 + stack))[0] == 0x45;
  }

  /**
   * The corrected i386 output, run from any stack, leaves the padded (and, with `null`,
   * NUL-terminated) string itself on top: its first byte at `esp`.
   */
  lemma {:induction false} PushStringI386Runs(s: seq<byte>, terminate: bool, xorPair: XorPair, stack: seq<byte>)
    requires |s| > 0 || terminate
    requires XorPairSoundFor(WordsOf(I386, Terminated(s, terminate)), xorPair)
    ensures Run32(PushString(s, terminate, I386, xorPair), stack) == Some(Pad(Terminated(s, terminate), 4) + stack)
  {
    var t := Terminated(s, terminate);
    var ws := WordsOf(I386, t);
    assert Groups(I386, t, xorPair) == EncodeWordsI386(Reversed(ws), xorPair);
    XorPairSoundReversed(ws, xorPair);
    RunWordsI386(Reversed(ws), xorPair, stack);
    StackedReversed(ws, stack);
  }
}
