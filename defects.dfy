/** Where the switch as written departs from the dispatch its layout comments
    describe: each lemma shows inputs on which `StepAsWritten` and `Step`
    differ, and the last one shows where they agree. */
module Defects {
  import opened Registers
  import opened Decoder
  import opened Opcodes
  import opened Transitions
  import opened Dispatch
  import opened Properties

  // --------------------------------------------- destination register byte

  /** For 0x04000102 (RRADD R_00, R_01 into R_02) the destination computed
      as `instr % 0xFF` is 7, not the low byte 2. */
  lemma DestAsWrittenExample()
    ensures DestAsWritten(0x0400_0102) == 7
    ensures Decode(0x0400_0102).fieldC == 2
  {
  }

  /** For every three-register word whose fields A and B name registers,
      `instr % 0xFF` is not the low byte: the byte sum of opcode and both
      register fields lies in 4..45, never 0 or 255. */
  lemma DestAsWrittenNeverLowByte(op: Opcode, a: RegIndex, b: RegIndex, c: Byte)
    requires op in {RRADD, RRSUB, RRMUX, RRDIV}
    ensures DestAsWritten(Encode(Code(op), a, b, c)) != c
  {
    var w := Encode(Code(op), a, b, c);
    DecodeEncode(Code(op), a, b, c);
    DestAsWrittenIsByteSum(w);
    var sum := Code(op) + a + b + c;
    assert 4 <= Code(op) + a + b <= 45;
    if sum < 0xFF {
      assert sum % 0xFF == sum;
    } else {
      assert sum % 0xFF == sum - 0xFF;
    }
  }

  /** As written, RRADD, RRSUB and RRMUX never write the register their low
      byte names: whatever the registers hold, that register keeps its value. */
  lemma AsWrittenMissesDestination(s: Regs, op: Opcode, a: RegIndex, b: RegIndex, c: RegIndex)
    requires op in {RRADD, RRSUB, RRMUX}
    ensures StepAsWritten(s, Encode(Code(op), a, b, c)).next[c] == s[c]
  {
    StepAsWrittenEncoded(s, op, a, b, c);
    DestAsWrittenNeverLowByte(op, a, b, c);
  }

  /** As written, the sum of R_00 and R_01 lands in R_07 and R_02 keeps its
      value; the layout comment puts it in R_02. */
  lemma AsWrittenAddLandsElsewhere(s: Regs)
    ensures StepAsWritten(s, 0x0400_0102) == Outcome(Continue, s[R_07 := (s[R_00] + s[R_01]) % WORD_MOD])
    ensures Step(s, 0x0400_0102) == Outcome(Continue, s[R_02 := (s[R_00] + s[R_01]) % WORD_MOD])
  {
    StepEncoded(s, RRADD, R_00, R_01, R_02);
    StepAsWrittenEncoded(s, RRADD, R_00, R_01, R_02);
    assert Encode(Code(RRADD), R_00, R_01, R_02) == 0x0400_0102;
    assert DestAsWritten(0x0400_0102) == R_07;
  }

  /** The three-word program of `EndToEnd`, run as written, leaves R_02 at
      zero and puts the sum 8 in R_07. */
  lemma EndToEndAsWritten()
    ensures var t := RunAsWritten(Zeros(), [0x0300_0005, 0x0301_0003, 0x0400_0102]);
            t[R_02] == 0 && t[R_07] == 8
  {
    var s0 := Zeros();
    StepAsWrittenEncoded(s0, RLOAD, R_00, 0, 5);
    assert Encode(Code(RLOAD), R_00, 0, 5) == 0x0300_0005;
    var s1 := s0[R_00 := 5];
    assert StepAsWritten(s0, 0x0300_0005).next == s1;
    StepAsWrittenEncoded(s1, RLOAD, R_01, 0, 3);
    assert Encode(Code(RLOAD), R_01, 0, 3) == 0x0301_0003;
    var s2 := s1[R_01 := 3];
    assert StepAsWritten(s1, 0x0301_0003).next == s2;
    AsWrittenAddLandsElsewhere(s2);
    RunAsWrittenThree(s0, 0x0300_0005, 0x0301_0003, 0x0400_0102);
  }

  // ----------------------------------------------------------------- RRGTX

  /** The RRGTX label calls the non-strict handler: on equal operands R_COND
      becomes 1 as written, where strict "greater than" gives 0. */
  lemma AsWrittenRrgtxIsGte(s: Regs, a: RegIndex, b: RegIndex)
    requires s[a] == s[b]
    ensures StepAsWritten(s, Encode(Code(RRGTX), a, b, 0)).next[R_COND] == 1
    ensures Step(s, Encode(Code(RRGTX), a, b, 0)).next[R_COND] == 0
  {
    StepEncoded(s, RRGTX, a, b, 0);
    StepAsWrittenEncoded(s, RRGTX, a, b, 0);
  }

  // ------------------------------------------------------ register jumps

  /** The register-jump labels have no `break`: as written, RJMPA, RJMPF,
      RJMPB and RJMPQ on a register other than PC, whatever fields B and C
      hold, all end with PC holding that register's value, reported as an
      unknown opcode. Their own handlers, as `RegisterJumpForwardAtStep`
      and its neighbours state, differ. */
  lemma AsWrittenRegisterJumpsFallThrough(s: Regs, op: Opcode, r: RegIndex, b: Byte, c: Byte)
    requires op in {RJMPA, RJMPF, RJMPB, RJMPQ} && r != R_PC
    ensures StepAsWritten(s, Encode(Code(op), r, b, c)) == Outcome(UnknownOpcode(Code(op)), s[R_PC := s[r]])
  {
    StepAsWrittenEncoded(s, op, r, b, c);
    var t := FallThrough(s, LabelPosition(op), r);
    assert t[R_PC] == s[r];
    assert forall k :: 0 <= k < R_COUNT ==> t[k] == s[R_PC := s[r]][k];
    assert t == s[R_PC := s[r]];
  }

  /** RJMPN, the last label before `default`, moves PC as its handler does
      but is still reported as an unknown opcode, whatever fields B and C
      hold. */
  lemma AsWrittenRjmpnReportsUnknown(s: Regs, r: RegIndex, b: Byte, c: Byte)
    ensures StepAsWritten(s, Encode(Code(RJMPN), r, b, c)) == Outcome(UnknownOpcode(Code(RJMPN)), Step(s, Encode(Code(RJMPN), r, b, c)).next)
    ensures Step(s, Encode(Code(RJMPN), r, b, c)).status == Continue
  {
    StepEncoded(s, RJMPN, r, b, c);
    StepAsWrittenEncoded(s, RJMPN, r, b, c);
  }

  /** The RJMPB label calls DO_RJMPF: for RJMPB through PC itself, with any
      fields B and C, as written PC doubles (modulo 2^32), where jumping back
      by PC's own value gives 0. */
  lemma AsWrittenRjmpbAdds(s: Regs, b: Byte, c: Byte)
    ensures StepAsWritten(s, Encode(Code(RJMPB), R_PC, b, c)).next[R_PC] == (2 * s[R_PC]) % WORD_MOD
    ensures Step(s, Encode(Code(RJMPB), R_PC, b, c)).next[R_PC] == 0
  {
    StepEncoded(s, RJMPB, R_PC, b, c);
    StepAsWrittenEncoded(s, RJMPB, R_PC, b, c);
  }

  // ------------------------------------------------ JUMPQ and JUMPN

  /** Opcodes 21 and 22 have handlers but no case label: as written they
      are unknown opcodes and PC stays put even when the jump would be taken,
      whatever field A holds. */
  lemma AsWrittenOffsetJumpsIgnored(s: Regs, a: Byte, offset: Imm16)
    ensures StepAsWritten(s, WordWithImmediate(JUMPQ, a, offset)) == Outcome(UnknownOpcode(Code(JUMPQ)), s)
    ensures StepAsWritten(s, WordWithImmediate(JUMPN, a, offset)) == Outcome(UnknownOpcode(Code(JUMPN)), s)
  {
    var b, c := offset / 0x100, offset % 0x100;
    assert b * 0x100 + c == offset;
    StepAsWrittenEncoded(s, JUMPQ, a, b, c);
    StepAsWrittenEncoded(s, JUMPN, a, b, c);
  }

  // ---------------------------------------------------------------- RRDIV

  /** When the destination is the dividend register, the remainder is taken
      of the quotient: 7 / 3 as written leaves R_RMDR at 2, not 1. The word
      0x070001F7 has destination 0 under `instr % 0xFF`. */
  lemma AsWrittenDivisionAliasing()
    ensures var s := Zeros()[R_00 := 7][R_01 := 3];
            && StepAsWritten(s, 0x0700_01F7) == Outcome(Continue, s[R_00 := 2][R_RMDR := 2])
            && RRDiv(s, R_00, R_01, R_00) == s[R_00 := 2][R_RMDR := 1]
  {
    var s := Zeros()[R_00 := 7][R_01 := 3];
    StepAsWrittenEncoded(s, RRDIV, R_00, R_01, 0xF7);
    assert Encode(Code(RRDIV), R_00, R_01, 0xF7) == 0x0700_01F7;
    assert DestAsWritten(0x0700_01F7) == R_00;
    assert RRDivAsWrittenDefined(s, R_00, R_01, R_00);
  }

  /** When the destination is the divisor register and the quotient is 0,
      the remainder is taken modulo 0: the word 0x070001F8 (destination 1)
      on R_00 = 1, R_01 = 2 is undefined as written, while the intended
      division gives quotient 0 and remainder 1. */
  lemma AsWrittenRemainderDividesByZero()
    ensures var s := Zeros()[R_00 := 1][R_01 := 2];
            && !RRDivAsWrittenDefined(s, R_00, R_01, R_01)
            && StepAsWritten(s, 0x0700_01F8) == Outcome(DivisionByZero, s)
            && RRDiv(s, R_00, R_01, R_01) == s[R_01 := 0][R_RMDR := 1]
  {
    var s := Zeros()[R_00 := 1][R_01 := 2];
    StepAsWrittenEncoded(s, RRDIV, R_00, R_01, 0xF8);
    assert Encode(Code(RRDIV), R_00, R_01, 0xF8) == 0x0700_01F8;
    assert DestAsWritten(0x0700_01F8) == R_01;
  }

  // ------------------------------------------------------------ agreement

  /** On the cases the two dispatches share that take no destination byte
      (RLOAD, the absolute and offset jumps, the comparisons other than
      RRGTX, and RRCMP) they agree. The three-register cases are left out:
      by `AsWrittenMissesDestination`, as written they never write the
      register the low byte names. */
  lemma AsWrittenAgreesOnSharedCases(s: Regs, instr: Word)
    requires Decode(instr).opcode < OP_COUNT
    requires SharedCase(OpcodeOf(Decode(instr).opcode).value)
    requires Decode(instr).opcode !in {Code(RRADD), Code(RRSUB), Code(RRMUX)}
    ensures StepAsWritten(s, instr) == Step(s, instr)
  {
  }
}
