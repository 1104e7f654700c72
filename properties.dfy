/** What one instruction word does to the register file, stated over the
    instruction encoding: decode and dispatch together, as `Step` gives them. */
module Properties {
  import opened Registers
  import opened Decoder
  import opened Opcodes
  import opened Transitions
  import opened Dispatch

  /** The word with the given opcode, one register field and a 16-bit immediate. */
  function WordWithImmediate(op: Opcode, a: Byte, value: Imm16): (instr: Word) {
    Encode(Code(op), a, value / 0x100, value % 0x100)
  }

  /** After decoding, the immediate of such a word is the value it was built with. */
  lemma DecodeWordWithImmediate(op: Opcode, a: Byte, value: Imm16)
    ensures var d := Decode(WordWithImmediate(op, a, value));
            d.opcode == Code(op) && d.fieldA == a && d.imm16 == value
  {
    DecodeEncode(Code(op), a, value / 0x100, value % 0x100);
  }

  /** A word with an immediate is dispatched on its opcode, with the
      register it was built with as field A and the value as its immediate. */
  lemma StepWithImmediate(s: Regs, op: Opcode, a: Byte, value: Imm16)
    ensures Step(s, WordWithImmediate(op, a, value)) == StepOp(s, op, Decoded(Code(op), a, value / 0x100, value % 0x100, value))
  {
    var b, c := value / 0x100, value % 0x100;
    assert b * 0x100 + c == value;
    StepEncoded(s, op, a, b, c);
  }

  // ---------------------------------------------------------------- loads

  /** RLOAD puts the zero-extended immediate into the register of field A and
      changes nothing else. */
  lemma LoadImmediate(s: Regs, dr: RegIndex, value: Imm16)
    ensures Step(s, WordWithImmediate(RLOAD, dr, value)) == Outcome(Continue, s[dr := value])
  {
    StepWithImmediate(s, RLOAD, dr, value);
  }

  /** The word 0x0300BEEF loads 0x0000BEEF into R_00: zero-extended, not sign-extended. */
  lemma LoadBeef(s: Regs)
    ensures Step(s, 0x0300BEEF) == Outcome(Continue, s[R_00 := 0xBEEF])
  {
    LoadImmediate(s, R_00, 0xBEEF);
  }

  // ----------------------------------------------------------- arithmetic

  /** RRADD, RRSUB and RRMUX write the wrapped sum, difference and product of
      fields A and B into the register of the low byte, and only there. */
  lemma ArithmeticAtStep(s: Regs, a: RegIndex, b: RegIndex, c: RegIndex)
    ensures Step(s, Encode(Code(RRADD), a, b, c)) == Outcome(Continue, s[c := (s[a] + s[b]) % WORD_MOD])
    ensures Step(s, Encode(Code(RRSUB), a, b, c)) == Outcome(Continue, s[c := (s[a] - s[b]) % WORD_MOD])
    ensures Step(s, Encode(Code(RRMUX), a, b, c)) == Outcome(Continue, s[c := (s[a] * s[b]) % WORD_MOD])
  {
    StepEncoded(s, RRADD, a, b, c);
    StepEncoded(s, RRSUB, a, b, c);
    StepEncoded(s, RRMUX, a, b, c);
  }

  /** Adding register `x` into `d` and subtracting it again restores every
      register, whatever wrap-around happened in between. */
  lemma AddThenSubAtStep(s: Regs, d: RegIndex, x: RegIndex)
    requires d != x
    ensures Run(s, [Encode(Code(RRADD), d, x, d), Encode(Code(RRSUB), d, x, d)]) == s
  {
    var add, sub := Encode(Code(RRADD), d, x, d), Encode(Code(RRSUB), d, x, d);
    StepEncoded(s, RRADD, d, x, d);
    var t := Step(s, add).next;
    StepEncoded(t, RRSUB, d, x, d);
    assert t == RRAdd(s, d, x, d);
    assert Step(t, sub).next == RRSub(t, d, x, d);
    AddThenSubRestores(s, d, x);
    RunTwo(s, add, sub);
  }

  /** A three-register instruction naming a register number R_COUNT or above
      is refused and changes nothing. */
  lemma InvalidRegisterAtStep(s: Regs, op: Opcode, a: Byte, b: Byte, c: Byte)
    requires op in {RRADD, RRSUB, RRMUX, RRDIV}
    requires !IsReg(a) || !IsReg(b) || !IsReg(c)
    ensures Step(s, Encode(Code(op), a, b, c)) == Outcome(InvalidRegister, s)
  {
    StepEncoded(s, op, a, b, c);
  }

  // ------------------------------------------------------------- division

  /** RRDIV with a nonzero divisor is dispatched to the division handler,
      whose contract gives quotient times divisor plus R_RMDR as the
      dividend. */
  lemma DivisionDispatched(s: Regs, a: RegIndex, b: RegIndex, c: RegIndex)
    requires s[b] != 0
    ensures Step(s, Encode(Code(RRDIV), a, b, c)) == Outcome(Continue, RRDiv(s, a, b, c))
  {
    StepEncoded(s, RRDIV, a, b, c);
  }

  /** RRDIV with a zero divisor reports DivisionByZero and changes nothing. */
  lemma DivisionByZeroAtStep(s: Regs, a: RegIndex, b: RegIndex, c: RegIndex)
    requires s[b] == 0
    ensures Step(s, Encode(Code(RRDIV), a, b, c)) == Outcome(DivisionByZero, s)
  {
    StepEncoded(s, RRDIV, a, b, c);
  }

  // ---------------------------------------------------------- comparisons

  /** The two-operand comparisons. */
  predicate IsComparison(op: Opcode) {
    op in {RREQL, RRNQL, RRGTE, RRLTE, RRGTX, RRLTX}
  }

  /** The unsigned relation each comparison opcode names in the enum. */
  predicate Holds(op: Opcode, x: Word, y: Word)
    requires IsComparison(op)
  {
    match op
    case RREQL => x == y
    case RRNQL => x != y
    case RRGTE => x >= y
    case RRLTE => x <= y
    case RRGTX => x > y
    case RRLTX => x < y
  }

  /** Every comparison sets R_COND to 1 when its relation holds between
      fields A and B and to 0 when it does not, and changes nothing else;
      the low byte, 0x00 in the layout, is ignored. */
  lemma ComparisonAtStep(s: Regs, op: Opcode, a: RegIndex, b: RegIndex, c: Byte)
    requires IsComparison(op)
    ensures Step(s, Encode(Code(op), a, b, c)) == Outcome(Continue, s[R_COND := if Holds(op, s[a], s[b]) then 1 else 0])
  {
    StepEncoded(s, op, a, b, c);
    var t := Step(s, Encode(Code(op), a, b, c)).next;
    var u := s[R_COND := if Holds(op, s[a], s[b]) then 1 else 0];
    assert t[R_COND] == u[R_COND];
    RegsEqual(t, u);
  }

  /** RRCMP writes 2, 1 or 4 into R_COMP as field A is equal to, greater
      than or less than field B, and changes nothing else; the low byte is
      ignored. */
  lemma CompareAtStep(s: Regs, a: RegIndex, b: RegIndex, c: Byte)
    ensures var r := Step(s, Encode(Code(RRCMP), a, b, c));
            && r.status == Continue
            && UnchangedExcept(s, r.next, {R_COMP})
            && (s[a] == s[b] ==> r.next[R_COMP] == 2)
            && (s[a] > s[b] ==> r.next[R_COMP] == 1)
            && (s[a] < s[b] ==> r.next[R_COMP] == 4)
  {
    StepEncoded(s, RRCMP, a, b, c);
  }

  // ---------------------------------------------------------------- jumps

  /** JUMPA sets PC to the immediate, whatever PC held; field A, 0x00 in the
      layout, is ignored. */
  lemma JumpAbsoluteAtStep(s: Regs, a: Byte, address: Imm16)
    ensures Step(s, WordWithImmediate(JUMPA, a, address)) == Outcome(Continue, s[R_PC := address])
  {
    StepWithImmediate(s, JUMPA, a, address);
  }

  /** The word 0x08001234 sets PC to 0x00001234. */
  lemma Jump1234(s: Regs)
    ensures Step(s, 0x08001234) == Outcome(Continue, s[R_PC := 0x1234])
  {
    JumpAbsoluteAtStep(s, 0, 0x1234);
  }

  /** JUMPF by an offset followed by JUMPB by the same offset restores every
      register. */
  lemma JumpForwardThenBackAtStep(s: Regs, offset: Imm16)
    ensures Run(s, [WordWithImmediate(JUMPF, 0, offset), WordWithImmediate(JUMPB, 0, offset)]) == s
  {
    var f, b := WordWithImmediate(JUMPF, 0, offset), WordWithImmediate(JUMPB, 0, offset);
    StepWithImmediate(s, JUMPF, 0, offset);
    var t := Step(s, f).next;
    StepWithImmediate(t, JUMPB, 0, offset);
    assert t == JumpF(s, offset);
    assert Step(t, b).next == JumpB(t, offset);
    JumpForwardThenBack(s, offset);
    RunTwo(s, f, b);
  }

  /** RJMPF through a register other than PC followed by RJMPB through the
      same register restores every register. */
  lemma RegisterJumpForwardThenBackAtStep(s: Regs, r: RegIndex)
    requires r != R_PC
    ensures Run(s, [Encode(Code(RJMPF), r, 0, 0), Encode(Code(RJMPB), r, 0, 0)]) == s
  {
    var f, b := Encode(Code(RJMPF), r, 0, 0), Encode(Code(RJMPB), r, 0, 0);
    StepEncoded(s, RJMPF, r, 0, 0);
    var t := Step(s, f).next;
    StepEncoded(t, RJMPB, r, 0, 0);
    assert t == RJmpF(s, r);
    assert Step(t, b).next == RJmpB(t, r);
    RegisterJumpForwardThenBack(s, r);
    RunTwo(s, f, b);
  }

  /** RJMPA sets PC to the value of the register of field A. Fields B and C,
      0x00 in the layout, are ignored here and in the register jumps below. */
  lemma RegisterJumpAbsoluteAtStep(s: Regs, r: RegIndex, b: Byte, c: Byte)
    ensures Step(s, Encode(Code(RJMPA), r, b, c)) == Outcome(Continue, s[R_PC := s[r]])
  {
    StepEncoded(s, RJMPA, r, b, c);
  }

  /** RJMPF advances PC by the value of the register of field A, modulo 2^32. */
  lemma RegisterJumpForwardAtStep(s: Regs, r: RegIndex, b: Byte, c: Byte)
    ensures Step(s, Encode(Code(RJMPF), r, b, c)) == Outcome(Continue, s[R_PC := (s[R_PC] + s[r]) % WORD_MOD])
  {
    StepEncoded(s, RJMPF, r, b, c);
  }

  /** RJMPB moves PC back by the value of the register of field A, modulo 2^32. */
  lemma RegisterJumpBackAtStep(s: Regs, r: RegIndex, b: Byte, c: Byte)
    ensures Step(s, Encode(Code(RJMPB), r, b, c)) == Outcome(Continue, s[R_PC := (s[R_PC] - s[r]) % WORD_MOD])
  {
    StepEncoded(s, RJMPB, r, b, c);
  }

  /** RJMPQ jumps to the register's value when R_COND is nonzero and changes
      nothing when it is zero. */
  lemma RegisterJumpIfSetAtStep(s: Regs, r: RegIndex, b: Byte, c: Byte)
    ensures var q := Step(s, Encode(Code(RJMPQ), r, b, c));
            && q.status == Continue
            && (s[R_COND] != 0 ==> q.next == s[R_PC := s[r]])
            && (s[R_COND] == 0 ==> q.next == s)
  {
    StepEncoded(s, RJMPQ, r, b, c);
  }

  /** RJMPN jumps to the register's value when R_COND is zero and changes
      nothing when it is nonzero. */
  lemma RegisterJumpIfClearAtStep(s: Regs, r: RegIndex, b: Byte, c: Byte)
    ensures var n := Step(s, Encode(Code(RJMPN), r, b, c));
            && n.status == Continue
            && (s[R_COND] == 0 ==> n.next == s[R_PC := s[r]])
            && (s[R_COND] != 0 ==> n.next == s)
  {
    StepEncoded(s, RJMPN, r, b, c);
  }

  /** JUMPQ advances PC by the offset when R_COND is nonzero and changes
      nothing when it is zero; field A is ignored. */
  lemma OffsetJumpIfSetAtStep(s: Regs, a: Byte, offset: Imm16)
    ensures var q := Step(s, WordWithImmediate(JUMPQ, a, offset));
            && q.status == Continue
            && (s[R_COND] != 0 ==> q.next == s[R_PC := (s[R_PC] + offset) % WORD_MOD])
            && (s[R_COND] == 0 ==> q.next == s)
  {
    StepWithImmediate(s, JUMPQ, a, offset);
  }

  /** JUMPN advances PC by the offset when R_COND is zero and changes nothing
      when it is nonzero; field A is ignored. */
  lemma OffsetJumpIfClearAtStep(s: Regs, a: Byte, offset: Imm16)
    ensures var n := Step(s, WordWithImmediate(JUMPN, a, offset));
            && n.status == Continue
            && (s[R_COND] == 0 ==> n.next == s[R_PC := (s[R_PC] + offset) % WORD_MOD])
            && (s[R_COND] != 0 ==> n.next == s)
  {
    StepWithImmediate(s, JUMPN, a, offset);
  }

  /** Whatever R_COND holds, exactly one of RJMPQ and RJMPN through a
      register whose value differs from PC moves PC. */
  lemma ExactlyOneRegisterJumpTakenAtStep(s: Regs, r: RegIndex, b: Byte, c: Byte)
    requires s[r] != s[R_PC]
    ensures var q, n := Step(s, Encode(Code(RJMPQ), r, b, c)).next, Step(s, Encode(Code(RJMPN), r, b, c)).next;
            (q[R_PC] != s[R_PC]) != (n[R_PC] != s[R_PC])
  {
    RegisterJumpIfSetAtStep(s, r, b, c);
    RegisterJumpIfClearAtStep(s, r, b, c);
  }

  // ------------------------------------------------------ unknown opcodes

  /** Every word whose top byte is 0xFF is reported as UnknownOpcode(0xFF)
      and changes no register. */
  lemma UnknownOpcodeFF(s: Regs, low: int)
    requires 0 <= low < 0x100_0000
    ensures Step(s, 0xFF00_0000 + low) == Outcome(UnknownOpcode(0xFF), s)
  {
    assert Decode(0xFF00_0000 + low).opcode == 0xFF;
  }

  // ------------------------------------------------------- several words

  /** A register that no word of a run may write keeps its value over the run. */
  lemma {:induction false} RunKeepsUntargeted(s: Regs, words: seq<Word>, k: int)
    requires 0 <= k < R_COUNT
    requires forall i :: 0 <= i < |words| ==> k !in Writes(words[i])
    ensures Run(s, words)[k] == s[k]
    decreases |words|
  {
    if words != [] {
      var t := Step(s, words[0]).next;
      assert t[k] == s[k];
      assert forall i :: 0 <= i < |words[1..]| ==> words[1..][i] == words[i + 1];
      RunKeepsUntargeted(t, words[1..], k);
    }
  }

  /** Loading two values into distinct registers and adding those registers
      leaves the wrapped sum of the two values in the destination. */
  lemma LoadLoadAdd(s: Regs, a: RegIndex, x: Imm16, b: RegIndex, y: Imm16, c: RegIndex)
    requires a != b
    ensures Run(s, [WordWithImmediate(RLOAD, a, x), WordWithImmediate(RLOAD, b, y), Encode(Code(RRADD), a, b, c)])[c]
            == (x + y) % WORD_MOD
  {
    var w1, w2, w3 := WordWithImmediate(RLOAD, a, x), WordWithImmediate(RLOAD, b, y), Encode(Code(RRADD), a, b, c);
    LoadImmediate(s, a, x);
    var s1 := Step(s, w1).next;
    assert s1 == s[a := x];
    LoadImmediate(s1, b, y);
    var s2 := Step(s1, w2).next;
    assert s2 == s1[b := y];
    assert s2[a] == x && s2[b] == y;
    StepEncoded(s2, RRADD, a, b, c);
    var s3 := Step(s2, w3).next;
    assert s3 == RRAdd(s2, a, b, c);
    assert s3[c] == (x + y) % WORD_MOD;
    RunThree(s, w1, w2, w3);
  }

  /** From all-zero registers, loading 5 into R_00 and 3 into R_01 and
      adding them into R_02 leaves 8 in R_02. */
  lemma EndToEnd()
    ensures Run(Zeros(), [0x0300_0005, 0x0301_0003, 0x0400_0102])[R_02] == 8
  {
    assert WordWithImmediate(RLOAD, R_00, 5) == 0x0300_0005;
    assert WordWithImmediate(RLOAD, R_01, 3) == 0x0301_0003;
    assert Encode(Code(RRADD), R_00, R_01, R_02) == 0x0400_0102;
    LoadLoadAdd(Zeros(), R_00, 5, R_01, 3, R_02);
  }

  /** The register file does not keep R_COND a 0/1 flag: RLOAD names any
      register as its destination, R_COND included. */
  lemma CondTakesLoads(s: Regs)
    ensures Step(s, 0x0312_BEEF).next[R_COND] == 0xBEEF
  {
    LoadImmediate(s, R_COND, 0xBEEF);
  }
}
