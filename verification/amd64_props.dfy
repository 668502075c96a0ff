/**
 * The 32-bit short form of `_pushstr_amd64`: `push imm32` sign-extends bit 31, so it can
 * stand for an eight-byte word only when the high half is that bit's fill. The test as
 * written also admits every non-negative word; with its precedence repaired it still
 * admits words whose bit 31 is set under a NUL high half.
 */
module Amd64Props {
  import opened Bytes
  import opened PushStr

  lemma SplitWord(w: seq<byte>)
    requires |w| == 8
    ensures LittleEndian(w) == LittleEndian(w[..4]) + Dword * LittleEndian(w[4..])
    ensures LittleEndian(w[..4]) < Dword && LittleEndian(w[4..]) < Dword
  {
    assert w == w[..4] + w[4..];
    LittleEndianAppend(w[..4], w[4..]);
    assert Pow256(4) == Dword;
  }

  lemma HalfValues()
    ensures LittleEndian(NulHalf) == 0
    ensures LittleEndian(FfHalf) == Dword - 1
    ensures ToLittleEndian(Dword - 1, 4) == FfHalf
  {
    assert FfHalf[1..] == [0xff, 0xff, 0xff];
    assert FfHalf[2..] == [0xff, 0xff];
    assert FfHalf[3..] == [0xff];
  }

  /** Bit 31 of the low dword is the top bit of its fourth byte. */
  lemma LowHalfTopBit(w: seq<byte>)
    requires |w| == 8
    ensures LittleEndian(w[..4]) >= Half32 <==> w[3] >= 128
  {
    var lo := w[..4];
    assert lo == lo[..3] + [w[3]];
    LittleEndianAppend(lo[..3], [w[3]]);
    assert LittleEndian([w[3]]) == w[3];
    assert Pow256(3) == 0x100_0000;
  }

  /** The value of a word from the value of its halves, for the three high halves that matter. */
  lemma HighHalfCases(w: seq<byte>)
    requires |w| == 8
    ensures var lo, hi := LittleEndian(w[..4]), LittleEndian(w[4..]);
      && (hi == 0 ==> LittleEndian(w) == lo)
      && (hi == Dword - 1 ==> LittleEndian(w) == lo + 2 * Half64 - Dword)
      && (0 < hi ==> LittleEndian(w) >= Dword)
      && (hi < Dword - 1 ==> LittleEndian(w) < 2 * Half64 - Dword)
  {
    var lo, hi := LittleEndian(w[..4]), LittleEndian(w[4..]);
    SplitWord(w);
    if 0 < hi {
      assert Dword * hi >= Dword;
    }
    if hi < Dword - 1 {
      assert Dword * hi <= Dword * (Dword - 2);
    }
  }

  /**
   * The corrected test holds exactly when the word's signed value fits 32 bits: the word
   * is then the sign extension of its low dword, which is what `push imm32` pushes.
   */
  lemma ShortFormIffSignExtended(w: seq<byte>)
    requires |w| == 8
    ensures var sign := Signed(LittleEndian(w), Half64);
      ShortForm(w) <==> -Half32 <= sign < Half32
  {
    var n := LittleEndian(w);
    var sign := Signed(n, Half64);
    var lo, hi := LittleEndian(w[..4]), LittleEndian(w[4..]);
    SplitWord(w);
    HalfValues();
    LowHalfTopBit(w);
    HighHalfCases(w);
    if w[4..] == NulHalf {
      assert hi == 0;
    } else if w[4..] == FfHalf {
      assert hi == Dword - 1;
    } else {
      assert 0 < hi < Dword - 1 by {
        ZeroIffAllZero(w[4..]);
        EncodeDecode(w[4..]);
      }
    }
  }

  /** Under the corrected test the low half, read as a signed dword, is the word's signed value. */
  lemma ShortFormDeterminedByLowHalf(w: seq<byte>)
    requires |w| == 8
    requires ShortForm(w)
    ensures Signed(LittleEndian(w), Half64) == Signed(LittleEndian(w[..4]), Half32)
  {
    var lo := LittleEndian(w[..4]);
    SplitWord(w);
    HalfValues();
    LowHalfTopBit(w);
    HighHalfCases(w);
  }

  /**
   * `"A\0BCDEFG"`: non-negative, holds a NUL, too wide for a byte immediate. The test as
   * written picks the 32-bit form, which rebuilds only `"A\0BC"` sign-extended and drops
   * `"DEFG"`; the corrected test picks `mov rax`.
   */
  lemma AsWrittenDropsHighHalf(xorPair: XorPair)
    ensures var w: seq<byte> := [0x41, 0, 0x42, 0x43, 0x44, 0x45, 0x46, 0x47];
      var sign := Signed(LittleEndian(w), Half64);
      sign >= Dword &&
      ShortFormAsWritten(w, sign) && !ShortForm(w) &&
      EncodeWordAmd64AsWritten(w, xorPair)[1].XorDword? &&
      EncodeWordAmd64(w, xorPair)[0].MovRax?
  {
    var w: seq<byte> := [0x41, 0, 0x42, 0x43, 0x44, 0x45, 0x46, 0x47];
    var n := LittleEndian(w);
    SplitWord(w);
    assert w[4..] == [0x44, 0x45, 0x46, 0x47];
    assert LittleEndian(w[4..]) == 0x4746_4544;
    assert n >= Dword && n < Half64;
    assert 0 in w;
  }

  /**
   * `"\0A\0\x80\0\0\0\0"`: the test with only its precedence repaired still picks the 32-bit
   * form, since the word is non-negative and its high half NUL; but bit 31 is set, so the
   * pushed dword sign-extends to an `ff` high half. The corrected test picks `mov rax`.
   */
  lemma ParenthesisedAdmitsBit31(xorPair: XorPair)
    ensures var w: seq<byte> := [0, 0x41, 0, 0x80, 0, 0, 0, 0];
      var sign := Signed(LittleEndian(w), Half64);
      && 0 <= sign && LittleEndian(w[..4]) >= Half32
      && ShortFormParenthesised(w, sign) && !ShortForm(w)
      && EncodeWordAmd64(w, xorPair)[0].MovRax?
  {
    var w: seq<byte> := [0, 0x41, 0, 0x80, 0, 0, 0, 0];
    SplitWord(w);
    LowHalfTopBit(w);
    HalfValues();
    assert w[4..] == NulHalf;
    assert LittleEndian(w) == LittleEndian(w[..4]);
    assert LittleEndian(w) < Half64;
    assert 0 in w;
  }

  /** Every instruction that addresses the stack does so through `rsp`. */
  predicate ThroughRsp(insns: seq<Insn>) {
    forall i :: 0 <= i < |insns| ==>
      (insns[i].DecByte? ==> insns[i].base == Rsp) && (insns[i].XorDword? ==> insns[i].base == Rsp)
  }

  lemma {:induction false} FlattenThroughRsp(groups: seq<seq<Insn>>)
    requires forall g :: 0 <= g < |groups| ==> ThroughRsp(groups[g])
    ensures ThroughRsp(Flatten(groups))
  {
    if |groups| > 0 {
      FlattenThroughRsp(groups[1..]);
      var rest := Flatten(groups[1..]);
      assert ThroughRsp(groups[0]);
      assert forall i :: |groups[0]| <= i < |groups[0] + rest| ==> (groups[0] + rest)[i] == rest[i - |groups[0]|];
    }
  }

  /** The corrected amd64 output never addresses the stack through the 32-bit `esp`. */
  lemma PushStringAmd64ThroughRsp(s: seq<byte>, terminate: bool, xorPair: XorPair)
    ensures ThroughRsp(PushString(s, terminate, Amd64, xorPair))
  {
    var t := Terminated(s, terminate);
    if |t| > 0 {
      var gs := Groups(Amd64, t, xorPair);
      var ws := WordsOf(Amd64, t);
      forall g | 0 <= g < |gs|
        ensures ThroughRsp(gs[g])
      {
        assert gs[g] == EncodeWordAmd64(ws[|gs| - 1 - g], xorPair);
      }
      FlattenThroughRsp(gs);
    }
  }

  /** The lone NUL of `pushstr('', arch='amd64')` pads to one all-zero word. */
  lemma WordsOfLoneNul()
    ensures Pad(Terminated([], true), 8) == [0, 0, 0, 0, 0, 0, 0, 0]
    ensures WordsOf(Amd64, Terminated([], true)) == [[0, 0, 0, 0, 0, 0, 0, 0]]
  {
    var w: seq<byte> := [0, 0, 0, 0, 0, 0, 0, 0];
    var t := Terminated([], true);
    assert t == [0];
    assert Pad(t, 8) == w;
    var ws := WordsOf(Amd64, t);
    assert Flatten(ws) == w && |ws| == 1;
    assert Flatten(ws) == ws[0] + Flatten(ws[1..]);
    assert Flatten(ws[1..]) == [];
    assert ws[0] == w;
    assert ws == [w];
  }

  /** The all-zero eight-byte word, as the source encodes it on amd64. */
  lemma ZeroWordAsWritten(xorPair: XorPair)
    ensures EncodeWordAsWritten(Amd64, [0, 0, 0, 0, 0, 0, 0, 0], xorPair) == [Push(1), DecByte(Esp)]
  {
    var w: seq<byte> := [0, 0, 0, 0, 0, 0, 0, 0];
    ZeroIffAllZero(w);
    assert LittleEndian(w) == 0;
  }

  /**
   * `pushstr('', arch='amd64')` as written pads the lone NUL to an all-zero word, for which
   * the loop body emits `dec byte [esp]`: the 32-bit register, not `rsp`.
   */
  lemma AsWrittenZeroWordThroughEsp(xorPair: XorPair)
    ensures WordsOf(Amd64, Terminated([], true)) == [[0, 0, 0, 0, 0, 0, 0, 0]]
    ensures PushStringAsWritten([], true, Amd64, xorPair) == [Push(1), DecByte(Esp)]
    ensures !ThroughRsp(PushStringAsWritten([], true, Amd64, xorPair))
  {
    var w: seq<byte> := [0, 0, 0, 0, 0, 0, 0, 0];
    var t := Terminated([], true);
    var g: seq<Insn> := [Push(1), DecByte(Esp)];
    WordsOfLoneNul();
    ZeroWordAsWritten(xorPair);
    var gs := GroupsAsWritten(Amd64, t, xorPair);
    assert |gs| == 1 && gs[0] == g;
    assert gs[1..] == [];
    assert Flatten(gs) == g + Flatten(gs[1..]);
    assert Flatten(gs) == g;
    assert g[1] == DecByte(Esp);
  }
}
