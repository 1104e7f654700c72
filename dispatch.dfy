/** The opcode switch of `execute`: one instruction word applied to the
    register file, giving the status and the register file afterwards.

    `Step` is the dispatch the layout comments of each case describe: one
    handler per opcode, the destination register in the low byte, RRGTX
    strict, RJMPB backward, and JUMPQ/JUMPN dispatched to their handlers.
    `StepAsWritten` is the switch as the source has it, deviations marked.

    Register numbers above R_COUNT and zero divisors make the C code index
    out of bounds or divide by zero; both dispatches refuse them with
    InvalidRegister or DivisionByZero and leave the register file as it was. */
module Dispatch {
  import opened Registers
  import opened Decoder
  import opened Opcodes
  import opened Transitions

  /** What one execution reports and the register file it leaves. */
  datatype Outcome = Outcome(status: Status, next: Regs)

  /** The registers an instruction with this opcode may write, given the
      destination register its dispatch uses. */
  function Targets(op: Opcode, d: Decoded, dr: int): (w: set<int>) {
    match op
    case RLOAD => {d.fieldA}
    case RRADD | RRSUB | RRMUX => {dr}
    case RRDIV => {dr, R_RMDR}
    case JUMPA | JUMPF | JUMPB | RJMPA | RJMPF | RJMPB | RJMPQ | RJMPN | JUMPQ | JUMPN => {R_PC}
    case RREQL | RRNQL | RRGTE | RRLTE | RRGTX | RRLTX => {R_COND}
    case RRCMP => {R_COMP}
    case NTHNG | CEASE | ILEGL => {}
  }

  /** The registers `Step` may write for an instruction word. */
  function Writes(instr: Word): (w: set<int>) {
    var d := Decode(instr);
    match OpcodeOf(d.opcode)
    case None => {}
    case Some(op) => Targets(op, d, d.fieldC)
  }

  /** The registers `StepAsWritten` may write for an instruction word. */
  function WritesAsWritten(instr: Word): (w: set<int>) {
    var d := Decode(instr);
    match OpcodeOf(d.opcode)
    case None => {}
    case Some(op) => Targets(op, d, DestAsWritten(instr))
  }

  /** Opcodes the engine gives meaning to: RLOAD (3) up to RRLTX (24). */
  predicate Implemented(opcode: Byte) {
    Code(RLOAD) <= opcode < OP_COUNT
  }

  /** The cases both dispatches handle alike, apart from where the
      destination register comes from. */
  predicate SharedCase(op: Opcode) {
    op in {RLOAD, RRADD, RRSUB, RRMUX, JUMPA, JUMPF, JUMPB, RREQL, RRNQL, RRGTE, RRLTE, RRLTX, RRCMP}
  }

  /** One of the cases both dispatches handle alike; `dr` is the destination
      register of the three-register cases. */
  function SharedStep(s: Regs, op: Opcode, d: Decoded, dr: int): (r: Outcome)
    requires SharedCase(op)
  {
    var a, b := d.fieldA, d.fieldB;
    match op
    case RLOAD =>    // | 0x03 | reg | value (16) |
      if IsReg(a) then Outcome(Continue, RLoad(s, a, d.imm16)) else Outcome(InvalidRegister, s)
    case RRADD =>    // | 0x04 | reg1 | reg2 | DR |
      if IsReg(a) && IsReg(b) && IsReg(dr) then Outcome(Continue, RRAdd(s, a, b, dr)) else Outcome(InvalidRegister, s)
    case RRSUB =>    // | 0x05 | reg1 | reg2 | DR |
      if IsReg(a) && IsReg(b) && IsReg(dr) then Outcome(Continue, RRSub(s, a, b, dr)) else Outcome(InvalidRegister, s)
    case RRMUX =>    // | 0x06 | reg1 | reg2 | DR |
      if IsReg(a) && IsReg(b) && IsReg(dr) then Outcome(Continue, RRMux(s, a, b, dr)) else Outcome(InvalidRegister, s)
    case JUMPA =>    // | 0x08 | 0x00 | address (16) |
      Outcome(Continue, JumpA(s, ZExt16(d.imm16)))
    case JUMPF =>    // | 0x09 | 0x00 | offset (16) |
      Outcome(Continue, JumpF(s, d.imm16))
    case JUMPB =>    // | 0x0a | 0x00 | offset (16) |
      Outcome(Continue, JumpB(s, d.imm16))
    case RREQL =>    // | 0x0e | reg1 | reg2 | 0x00 |
      if IsReg(a) && IsReg(b) then Outcome(Continue, RREql(s, a, b)) else Outcome(InvalidRegister, s)
    case RRNQL =>    // | 0x0f | reg1 | reg2 | 0x00 |
      if IsReg(a) && IsReg(b) then Outcome(Continue, RRNql(s, a, b)) else Outcome(InvalidRegister, s)
    case RRGTE =>    // | 0x10 | reg1 | reg2 | 0x00 |
      if IsReg(a) && IsReg(b) then Outcome(Continue, RRGte(s, a, b)) else Outcome(InvalidRegister, s)
    case RRLTE =>    // | 0x11 | reg1 | reg2 | 0x00 |
      if IsReg(a) && IsReg(b) then Outcome(Continue, RRLte(s, a, b)) else Outcome(InvalidRegister, s)
    case RRLTX =>    // | 0x18 | reg1 | reg2 | 0x00 |
      if IsReg(a) && IsReg(b) then Outcome(Continue, RRLtx(s, a, b)) else Outcome(InvalidRegister, s)
    case RRCMP =>    // | 0x12 | reg1 | reg2 | 0x00 |
      if IsReg(a) && IsReg(b) then Outcome(Continue, RRCmp(s, a, b)) else Outcome(InvalidRegister, s)
  }

  /** The dispatch of one opcode as the layout comments describe it. */
  function StepOp(s: Regs, op: Opcode, d: Decoded): (r: Outcome) {
    var a, b, dr := d.fieldA, d.fieldB, d.fieldC;
    match op
    case NTHNG | CEASE | ILEGL =>    // no case label: `default`
      Outcome(UnknownOpcode(d.opcode), s)
    case RRDIV =>    // | 0x07 | reg1 | reg2 | DR |
      if !(IsReg(a) && IsReg(b) && IsReg(dr)) then Outcome(InvalidRegister, s)
      else if s[b] == 0 then Outcome(DivisionByZero, s)
      else Outcome(Continue, RRDiv(s, a, b, dr))
    case RRGTX =>    // | 0x17 | reg1 | reg2 | 0x00 |
      if IsReg(a) && IsReg(b) then Outcome(Continue, RRGtx(s, a, b)) else Outcome(InvalidRegister, s)
    case RJMPA =>    // | 0x0b | reg | 0x00 | 0x00 |
      if IsReg(a) then Outcome(Continue, RJmpA(s, a)) else Outcome(InvalidRegister, s)
    case RJMPF =>    // | 0x0c | reg | 0x00 | 0x00 |
      if IsReg(a) then Outcome(Continue, RJmpF(s, a)) else Outcome(InvalidRegister, s)
    case RJMPB =>    // | 0x0d | reg | 0x00 | 0x00 |
      if IsReg(a) then Outcome(Continue, RJmpB(s, a)) else Outcome(InvalidRegister, s)
    case RJMPQ =>
      if IsReg(a) then Outcome(Continue, RJmpQ(s, a)) else Outcome(InvalidRegister, s)
    case RJMPN =>
      if IsReg(a) then Outcome(Continue, RJmpN(s, a)) else Outcome(InvalidRegister, s)
    case JUMPQ =>    // opcode 21, a 16-bit offset
      Outcome(Continue, JumpQ(s, d.imm16))
    case JUMPN =>    // opcode 22, a 16-bit offset
      Outcome(Continue, JumpN(s, d.imm16))
    case _ =>
      SharedStep(s, op, d, dr)
  }

  /** One execution: decode, then dispatch on the opcode. */
  function Step(s: Regs, instr: Word): (r: Outcome) {
    var d := Decode(instr);
    match OpcodeOf(d.opcode)
    case None => Outcome(UnknownOpcode(d.opcode), s)
    case Some(op) => StepOp(s, op, d)
  }

  /** Errors leave every register as it was, a successful execution writes
      only the registers its opcode targets, and exactly the opcodes outside
      RLOAD..RRLTX are reported unknown. */
  lemma StepEffects(s: Regs, instr: Word)
    ensures var r := Step(s, instr);
            && (r.status != Continue ==> r.next == s)
            && UnchangedExcept(s, r.next, Writes(instr))
            && (r.status.UnknownOpcode? <==> !Implemented(Decode(instr).opcode))
            && (r.status.UnknownOpcode? ==> r.status.op == Decode(instr).opcode)
            && (r.status == DivisionByZero ==> Decode(instr).opcode == Code(RRDIV))
  {
  }

  /** The fields an instruction with this opcode uses as register numbers,
      given the destination register its dispatch uses. */
  function RegFields(op: Opcode, d: Decoded, dr: int): (fields: set<int>) {
    match op
    case RLOAD | RJMPA | RJMPF | RJMPB | RJMPQ | RJMPN => {d.fieldA}
    case RRADD | RRSUB | RRMUX | RRDIV => {d.fieldA, d.fieldB, dr}
    case RREQL | RRNQL | RRGTE | RRLTE | RRGTX | RRLTX | RRCMP => {d.fieldA, d.fieldB}
    case NTHNG | CEASE | ILEGL | JUMPA | JUMPF | JUMPB | JUMPQ | JUMPN => {}
  }

  /** Every field in the set names a register. */
  predicate AllRegs(fields: set<int>) {
    forall f :: f in fields ==> IsReg(f)
  }

  /** `Step` refuses an instruction with InvalidRegister exactly when its
      opcode is known and one of the fields it uses as a register number is
      R_COUNT or above. */
  lemma InvalidRegisterExactly(s: Regs, instr: Word)
    ensures var d := Decode(instr);
            Step(s, instr).status == InvalidRegister
            <==> OpcodeOf(d.opcode).Some? && !AllRegs(RegFields(OpcodeOf(d.opcode).value, d, d.fieldC))
  {
  }

  /** A word built from an opcode and three bytes is dispatched on that
      opcode, with those bytes as its fields and the lower two as its
      immediate. */
  lemma StepEncoded(s: Regs, op: Opcode, a: Byte, b: Byte, c: Byte)
    ensures Step(s, Encode(Code(op), a, b, c)) == StepOp(s, op, Decoded(Code(op), a, b, c, b * 0x100 + c))
  {
    DecodeEncode(Code(op), a, b, c);
    OpcodeOfCode(op);
  }

  /** Where in the chain of register-jump case labels, which have no
      `break`, control enters. */
  function LabelPosition(op: Opcode): (entry: nat) {
    match op
    case RJMPA => 0
    case RJMPF => 1
    case RJMPB => 2
    case RJMPQ => 3
    case _ => 4
  }

  /** The register-jump cases as written: entering at label `entry`, every
      handler from there on runs, with the same register, and control then
      reaches `default`. The RJMPB label calls DO_RJMPF. When `r` is not PC,
      the last two handlers between them always set PC to `r`'s value, unless
      control entered at RJMPN and R_COND is nonzero. */
  function FallThrough(s: Regs, entry: nat, r: RegIndex): (t: Regs)
    requires entry <= 4
    ensures UnchangedExcept(s, t, {R_PC})
    ensures r != R_PC && (entry < 4 || s[R_COND] == 0) ==> t[R_PC] == s[r]
    ensures entry == 4 ==> t == RJmpN(s, r)
  {
    var s1 := if entry <= 0 then RJmpA(s, r) else s;
    var s2 := if entry <= 1 then RJmpF(s1, r) else s1;
    var s3 := if entry <= 2 then RJmpF(s2, r) else s2;     // the RJMPB label calls DO_RJMPF
    var s4 := if entry <= 3 then RJmpQ(s3, r) else s3;
    RJmpN(s4, r)
  }

  /** The dispatch of one opcode as the switch is written; `dr` is the
      destination register the three-register cases compute. */
  function StepOpAsWritten(s: Regs, op: Opcode, d: Decoded, dr: int): (r: Outcome) {
    var a, b := d.fieldA, d.fieldB;
    match op
    case NTHNG | CEASE | ILEGL | JUMPQ | JUMPN =>    // no case label: `default`
      Outcome(UnknownOpcode(d.opcode), s)
    case RRDIV =>
      if !(IsReg(a) && IsReg(b) && IsReg(dr)) then Outcome(InvalidRegister, s)
      else if !RRDivAsWrittenDefined(s, a, b, dr) then Outcome(DivisionByZero, s)
      else Outcome(Continue, RRDivAsWritten(s, a, b, dr))
    case RRGTX =>    // the RRGTX label calls DO_RRGTE
      if IsReg(a) && IsReg(b) then Outcome(Continue, RRGte(s, a, b)) else Outcome(InvalidRegister, s)
    case RJMPA | RJMPF | RJMPB | RJMPQ | RJMPN =>    // no `break`: falls through into `default`
      if IsReg(a) then Outcome(UnknownOpcode(d.opcode), FallThrough(s, LabelPosition(op), a))
      else Outcome(InvalidRegister, s)
    case _ =>
      SharedStep(s, op, d, dr)
  }

  /** One execution as the switch is written. */
  function StepAsWritten(s: Regs, instr: Word): (r: Outcome) {
    var d := Decode(instr);
    match OpcodeOf(d.opcode)
    case None => Outcome(UnknownOpcode(d.opcode), s)
    case Some(op) => StepOpAsWritten(s, op, d, DestAsWritten(instr))
  }

  /** As written, refused instructions leave every register as it was;
      otherwise only the registers the opcode targets change, the
      destination being `instr % 0xFF`. */
  lemma StepAsWrittenEffects(s: Regs, instr: Word)
    ensures var r := StepAsWritten(s, instr);
            && (r.status == DivisionByZero || r.status == InvalidRegister ==> r.next == s)
            && UnchangedExcept(s, r.next, WritesAsWritten(instr))
  {
  }

  /** As written, InvalidRegister is reported exactly when the opcode has a
      case label reaching a handler and one of the fields it uses as a
      register number, the destination being `instr % 0xFF`, is R_COUNT or
      above. */
  lemma InvalidRegisterExactlyAsWritten(s: Regs, instr: Word)
    ensures var d := Decode(instr);
            StepAsWritten(s, instr).status == InvalidRegister
            <==> OpcodeOf(d.opcode).Some? && OpcodeOf(d.opcode).value !in {JUMPQ, JUMPN}
                 && !AllRegs(RegFields(OpcodeOf(d.opcode).value, d, DestAsWritten(instr)))
  {
  }

  /** As written, a word built from an opcode and three bytes is dispatched
      on that opcode with those bytes as its fields, the three-register cases
      taking `instr % 0xFF` as their destination. */
  lemma StepAsWrittenEncoded(s: Regs, op: Opcode, a: Byte, b: Byte, c: Byte)
    ensures var w := Encode(Code(op), a, b, c);
            StepAsWritten(s, w) == StepOpAsWritten(s, op, Decoded(Code(op), a, b, c, b * 0x100 + c), DestAsWritten(w))
  {
    DecodeEncode(Code(op), a, b, c);
    OpcodeOfCode(op);
  }

  /** Words executed one after another, as the read loop feeds them; the
      statuses are printed and dropped, so only the registers remain. */
  function Run(s: Regs, words: seq<Word>): (t: Regs)
    decreases |words|
  {
    if words == [] then s else Run(Step(s, words[0]).next, words[1..])
  }

  /** Feeding `u` and then `v` is feeding the concatenation: the read loop
      keeps no state besides the register file. */
  lemma {:induction false} RunAppend(s: Regs, u: seq<Word>, v: seq<Word>)
    ensures Run(s, u + v) == Run(Run(s, u), v)
    decreases |u|
  {
    if u == [] {
      assert u + v == v;
    } else {
      assert (u + v)[0] == u[0];
      assert (u + v)[1..] == u[1..] + v;
      RunAppend(Step(s, u[0]).next, u[1..], v);
    }
  }

  /** A run of one word is one step. */
  lemma RunOne(s: Regs, w: Word)
    ensures Run(s, [w]) == Step(s, w).next
  {
    assert [w][1..] == [];
  }

  /** A run of two words is one step after the other. */
  lemma RunTwo(s: Regs, w1: Word, w2: Word)
    ensures Run(s, [w1, w2]) == Step(Step(s, w1).next, w2).next
  {
    assert [w1, w2] == [w1] + [w2];
    RunAppend(s, [w1], [w2]);
    RunOne(s, w1);
    RunOne(Step(s, w1).next, w2);
  }

  /** A run of three words is one step after the other. */
  lemma RunThree(s: Regs, w1: Word, w2: Word, w3: Word)
    ensures Run(s, [w1, w2, w3]) == Step(Step(Step(s, w1).next, w2).next, w3).next
  {
    assert [w1, w2, w3] == [w1, w2] + [w3];
    RunAppend(s, [w1, w2], [w3]);
    RunTwo(s, w1, w2);
    RunOne(Step(Step(s, w1).next, w2).next, w3);
  }

  /** `Run` over the switch as written. */
  function RunAsWritten(s: Regs, words: seq<Word>): (t: Regs)
    decreases |words|
  {
    if words == [] then s else RunAsWritten(StepAsWritten(s, words[0]).next, words[1..])
  }

  /** `RunAppend` for the switch as written. */
  lemma {:induction false} RunAsWrittenAppend(s: Regs, u: seq<Word>, v: seq<Word>)
    ensures RunAsWritten(s, u + v) == RunAsWritten(RunAsWritten(s, u), v)
    decreases |u|
  {
    if u == [] {
      assert u + v == v;
    } else {
      assert (u + v)[0] == u[0];
      assert (u + v)[1..] == u[1..] + v;
      RunAsWrittenAppend(StepAsWritten(s, u[0]).next, u[1..], v);
    }
  }

  /** A run of one word as written is one step. */
  lemma RunAsWrittenOne(s: Regs, w: Word)
    ensures RunAsWritten(s, [w]) == StepAsWritten(s, w).next
  {
    assert [w][1..] == [];
  }

  /** A run of three words as written is one step after the other. */
  lemma RunAsWrittenThree(s: Regs, w1: Word, w2: Word, w3: Word)
    ensures RunAsWritten(s, [w1, w2, w3]) == StepAsWritten(StepAsWritten(StepAsWritten(s, w1).next, w2).next, w3).next
  {
    var t1 := StepAsWritten(s, w1).next;
    var t2 := StepAsWritten(t1, w2).next;
    assert [w1, w2, w3] == [w1] + [w2] + [w3];
    RunAsWrittenAppend(s, [w1] + [w2], [w3]);
    RunAsWrittenAppend(s, [w1], [w2]);
    RunAsWrittenOne(s, w1);
    RunAsWrittenOne(t1, w2);
    RunAsWrittenOne(t2, w3);
  }
}
