/** The execution engine. The register file is an array of twenty words
    owned by a `Machine`; each `DO_*` handler is a method updating it in
    place, specified by its transition function, and `Execute` is the opcode
    switch, specified by `Step`. */
module Engine {
  import opened Registers
  import opened Decoder
  import opened Opcodes
  import T = Transitions
  import opened Dispatch

  class Machine {
    /** The register file, `registers[R_COUNT]`. */
    const regs: array<Word>

    ghost predicate Valid() {
      regs.Length == R_COUNT
    }

    /** The register file as a value. */
    ghost function State(): Regs
      reads regs
      requires Valid()
    {
      regs[..]
    }

    /** A fresh register file: every register starts at zero. */
    constructor ()
      ensures Valid() && fresh(regs)
      ensures State() == Zeros()
    {
      regs := new Word[R_COUNT](_ => 0);
    }

    method DoRLoad(reg: RegIndex, value: Imm16)
      requires Valid()
      modifies regs
      ensures State() == T.RLoad(old(State()), reg, value)
    {
      regs[reg] := ZExt16(value);
    }

    method DoRRAdd(reg1: RegIndex, reg2: RegIndex, dr: RegIndex)
      requires Valid()
      modifies regs
      ensures State() == T.RRAdd(old(State()), reg1, reg2, dr)
    {
      regs[dr] := Add32(regs[reg1], regs[reg2]);
    }

    method DoRRSub(reg1: RegIndex, reg2: RegIndex, dr: RegIndex)
      requires Valid()
      modifies regs
      ensures State() == T.RRSub(old(State()), reg1, reg2, dr)
    {
      regs[dr] := Sub32(regs[reg1], regs[reg2]);
    }

    method DoRRMux(reg1: RegIndex, reg2: RegIndex, dr: RegIndex)
      requires Valid()
      modifies regs
      ensures State() == T.RRMux(old(State()), reg1, reg2, dr)
    {
      regs[dr] := Mul32(regs[reg1], regs[reg2]);
    }

    /** The division with both operands read before either register is
      written. */
    method DoRRDiv(reg1: RegIndex, reg2: RegIndex, drq: RegIndex)
      requires Valid() && regs[reg2] != 0
      modifies regs
      ensures State() == T.RRDiv(old(State()), reg1, reg2, drq)
    {
      var dividend, divisor := regs[reg1], regs[reg2];
      regs[drq] := dividend / divisor;
      regs[R_RMDR] := dividend % divisor;
    }

    /** The division as written: the remainder reads both registers again
      after the quotient is stored. */
    method DoRRDivAsWritten(reg1: RegIndex, reg2: RegIndex, drq: RegIndex)
      requires Valid() && T.RRDivAsWrittenDefined(State(), reg1, reg2, drq)
      modifies regs
      ensures State() == T.RRDivAsWritten(old(State()), reg1, reg2, drq)
    {
      regs[drq] := regs[reg1] / regs[reg2];
      regs[R_RMDR] := regs[reg1] % regs[reg2];
    }

    method DoJumpA(address: Word)
      requires Valid()
      modifies regs
      ensures State() == T.JumpA(old(State()), address)
    {
      regs[R_PC] := address;
    }

    method DoJumpF(offset: Imm16)
      requires Valid()
      modifies regs
      ensures State() == T.JumpF(old(State()), offset)
    {
      regs[R_PC] := Add32(regs[R_PC], ZExt16(offset));
    }

    method DoJumpB(offset: Imm16)
      requires Valid()
      modifies regs
      ensures State() == T.JumpB(old(State()), offset)
    {
      regs[R_PC] := Sub32(regs[R_PC], ZExt16(offset));
    }

    method DoRJmpA(reg: RegIndex)
      requires Valid()
      modifies regs
      ensures State() == T.RJmpA(old(State()), reg)
    {
      regs[R_PC] := regs[reg];
    }

    method DoRJmpF(reg: RegIndex)
      requires Valid()
      modifies regs
      ensures State() == T.RJmpF(old(State()), reg)
    {
      regs[R_PC] := Add32(regs[R_PC], regs[reg]);
    }

    method DoRJmpB(reg: RegIndex)
      requires Valid()
      modifies regs
      ensures State() == T.RJmpB(old(State()), reg)
    {
      regs[R_PC] := Sub32(regs[R_PC], regs[reg]);
    }

    method DoRREql(reg1: RegIndex, reg2: RegIndex)
      requires Valid()
      modifies regs
      ensures State() == T.RREql(old(State()), reg1, reg2)
    {
      regs[R_COND] := T.Flag(regs[reg1] == regs[reg2]);
    }

    method DoRRNql(reg1: RegIndex, reg2: RegIndex)
      requires Valid()
      modifies regs
      ensures State() == T.RRNql(old(State()), reg1, reg2)
    {
      regs[R_COND] := T.Flag(regs[reg1] != regs[reg2]);
    }

    method DoRRGte(reg1: RegIndex, reg2: RegIndex)
      requires Valid()
      modifies regs
      ensures State() == T.RRGte(old(State()), reg1, reg2)
    {
      regs[R_COND] := T.Flag(regs[reg1] >= regs[reg2]);
    }

    method DoRRLte(reg1: RegIndex, reg2: RegIndex)
      requires Valid()
      modifies regs
      ensures State() == T.RRLte(old(State()), reg1, reg2)
    {
      regs[R_COND] := T.Flag(regs[reg1] <= regs[reg2]);
    }

    method DoRRGtx(reg1: RegIndex, reg2: RegIndex)
      requires Valid()
      modifies regs
      ensures State() == T.RRGtx(old(State()), reg1, reg2)
    {
      regs[R_COND] := T.Flag(regs[reg1] > regs[reg2]);
    }

    method DoRRLtx(reg1: RegIndex, reg2: RegIndex)
      requires Valid()
      modifies regs
      ensures State() == T.RRLtx(old(State()), reg1, reg2)
    {
      regs[R_COND] := T.Flag(regs[reg1] < regs[reg2]);
    }

    method DoRRCmp(reg1: RegIndex, reg2: RegIndex)
      requires Valid()
      modifies regs
      ensures State() == T.RRCmp(old(State()), reg1, reg2)
    {
      if regs[reg1] == regs[reg2] {
        regs[R_COMP] := 2;
      } else if regs[reg1] > regs[reg2] {
        regs[R_COMP] := 1;
      } else if regs[reg1] < regs[reg2] {
        regs[R_COMP] := 4;
      }
    }

    method DoRJmpQ(reg: RegIndex)
      requires Valid()
      modifies regs
      ensures State() == T.RJmpQ(old(State()), reg)
    {
      if regs[R_COND] != 0 {
        regs[R_PC] := regs[reg];
      }
    }

    method DoRJmpN(reg: RegIndex)
      requires Valid()
      modifies regs
      ensures State() == T.RJmpN(old(State()), reg)
    {
      if regs[R_COND] == 0 {
        regs[R_PC] := regs[reg];
      }
    }

    method DoJumpQ(offset: Imm16)
      requires Valid()
      modifies regs
      ensures State() == T.JumpQ(old(State()), offset)
    {
      if regs[R_COND] != 0 {
        regs[R_PC] := Add32(regs[R_PC], ZExt16(offset));
      }
    }

    method DoJumpN(offset: Imm16)
      requires Valid()
      modifies regs
      ensures State() == T.JumpN(old(State()), offset)
    {
      if regs[R_COND] == 0 {
        regs[R_PC] := Add32(regs[R_PC], ZExt16(offset));
      }
    }

    /** The register-jump case labels, which have no `break`: entered at
      label `entry`, every handler from there to the end of the chain runs
      with the same register. */
    method FallThroughFrom(entry: nat, reg: RegIndex)
      requires Valid() && entry <= 4
      modifies regs
      ensures State() == FallThrough(old(State()), entry, reg)
    {
      if entry <= 0 { DoRJmpA(reg); }
      if entry <= 1 { DoRJmpF(reg); }
      if entry <= 2 { DoRJmpF(reg); }    // the RJMPB label calls DO_RJMPF
      if entry <= 3 { DoRJmpQ(reg); }
      DoRJmpN(reg);
    }

    /** The cases both switches handle alike; `dr` is the destination of the
      three-register cases. */
    method ExecuteShared(op: Opcode, d: Decoded, dr: int) returns (status: Status)
      requires Valid() && SharedCase(op)
      modifies regs
      ensures Outcome(status, State()) == SharedStep(old(State()), op, d, dr)
    {
      var a, b := d.fieldA, d.fieldB;
      match op {
      case RLOAD =>
        if !IsReg(a) { return InvalidRegister; }
        DoRLoad(a, d.imm16);
      case RRADD =>
        if !(IsReg(a) && IsReg(b) && IsReg(dr)) { return InvalidRegister; }
        DoRRAdd(a, b, dr);
      case RRSUB =>
        if !(IsReg(a) && IsReg(b) && IsReg(dr)) { return InvalidRegister; }
        DoRRSub(a, b, dr);
      case RRMUX =>
        if !(IsReg(a) && IsReg(b) && IsReg(dr)) { return InvalidRegister; }
        DoRRMux(a, b, dr);
      case JUMPA =>
        DoJumpA(ZExt16(d.imm16));
      case JUMPF =>
        DoJumpF(d.imm16);
      case JUMPB =>
        DoJumpB(d.imm16);
      case RREQL =>
        if !(IsReg(a) && IsReg(b)) { return InvalidRegister; }
        DoRREql(a, b);
      case RRNQL =>
        if !(IsReg(a) && IsReg(b)) { return InvalidRegister; }
        DoRRNql(a, b);
      case RRGTE =>
        if !(IsReg(a) && IsReg(b)) { return InvalidRegister; }
        DoRRGte(a, b);
      case RRLTE =>
        if !(IsReg(a) && IsReg(b)) { return InvalidRegister; }
        DoRRLte(a, b);
      case RRLTX =>
        if !(IsReg(a) && IsReg(b)) { return InvalidRegister; }
        DoRRLtx(a, b);
      case RRCMP =>
        if !(IsReg(a) && IsReg(b)) { return InvalidRegister; }
        DoRRCmp(a, b);
      }
      status := Continue;
    }

    /** Executes one instruction word: one handler per opcode, operands
      taken as the layout comments of the cases describe. */
    method Execute(instr: Word) returns (status: Status)
      requires Valid()
      modifies regs
      ensures Outcome(status, State()) == Step(old(State()), instr)
    {
      var d := Decode(instr);
      var found := OpcodeOf(d.opcode);
      if found.None? {
        return UnknownOpcode(d.opcode);
      }
      var a, b, dr := d.fieldA, d.fieldB, d.fieldC;
      match found.value {
      case NTHNG | CEASE | ILEGL =>
        return UnknownOpcode(d.opcode);
      case RRDIV =>
        if !(IsReg(a) && IsReg(b) && IsReg(dr)) { return InvalidRegister; }
        if regs[b] == 0 { return DivisionByZero; }
        DoRRDiv(a, b, dr);
      case RRGTX =>
        if !(IsReg(a) && IsReg(b)) { return InvalidRegister; }
        DoRRGtx(a, b);
      case RJMPA =>
        if !IsReg(a) { return InvalidRegister; }
        DoRJmpA(a);
      case RJMPF =>
        if !IsReg(a) { return InvalidRegister; }
        DoRJmpF(a);
      case RJMPB =>
        if !IsReg(a) { return InvalidRegister; }
        DoRJmpB(a);
      case RJMPQ =>
        if !IsReg(a) { return InvalidRegister; }
        DoRJmpQ(a);
      case RJMPN =>
        if !IsReg(a) { return InvalidRegister; }
        DoRJmpN(a);
      case JUMPQ =>
        DoJumpQ(d.imm16);
      case JUMPN =>
        DoJumpN(d.imm16);
      case _ =>
        status := ExecuteShared(found.value, d, dr);
        return;
      }
      status := Continue;
    }

    /** Executes one instruction word as the switch is written. */
    method ExecuteAsWritten(instr: Word) returns (status: Status)
      requires Valid()
      modifies regs
      ensures Outcome(status, State()) == StepAsWritten(old(State()), instr)
    {
      var d := Decode(instr);
      var found := OpcodeOf(d.opcode);
      if found.None? {
        return UnknownOpcode(d.opcode);
      }
      var a, b, dr := d.fieldA, d.fieldB, DestAsWritten(instr);   // DR is `instr % 0xFF`
      match found.value {
      case NTHNG | CEASE | ILEGL | JUMPQ | JUMPN =>    // no case label
        return UnknownOpcode(d.opcode);
      case RRDIV =>
        if !(IsReg(a) && IsReg(b) && IsReg(dr)) { return InvalidRegister; }
        if !T.RRDivAsWrittenDefined(regs[..], a, b, dr) { return DivisionByZero; }
        DoRRDivAsWritten(a, b, dr);
      case RRGTX =>    // the RRGTX label calls DO_RRGTE
        if !(IsReg(a) && IsReg(b)) { return InvalidRegister; }
        DoRRGte(a, b);
      case RJMPA | RJMPF | RJMPB | RJMPQ | RJMPN =>    // no `break`: falls through into `default`
        if !IsReg(a) { return InvalidRegister; }
        FallThroughFrom(LabelPosition(found.value), a);
        return UnknownOpcode(d.opcode);
      case _ =>
        status := ExecuteShared(found.value, d, dr);
        return;
      }
      status := Continue;
    }
  }
}
