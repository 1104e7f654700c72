/** The state transition of each `DO_*` handler, as a function from the
    register file before to the register file after. Each handler writes
    one slot (two for the division) and leaves every other slot alone. */
module Transitions {
  import opened Registers

  /** `(uint32_t)` of a C truth value. */
  function Flag(b: bool): (r: Word)
    ensures r == 0 || r == 1
    ensures r == 1 <==> b
  {
    if b then 1 else 0
  }

  // ---------------------------------------------------------------- loads

  /** DO_RLOAD: the zero-extended immediate goes into `dr`. */
  function RLoad(s: Regs, dr: RegIndex, value: Imm16): (t: Regs)
    ensures t[dr] == value
    ensures UnchangedExcept(s, t, {dr})
  {
    s[dr := ZExt16(value)]
  }

  // ----------------------------------------------------------- arithmetic

  /** DO_RRADD: the sum modulo 2^32 goes into `dr`. */
  function RRAdd(s: Regs, r1: RegIndex, r2: RegIndex, dr: RegIndex): (t: Regs)
    ensures t[dr] == (s[r1] + s[r2]) % WORD_MOD
    ensures UnchangedExcept(s, t, {dr})
  {
    s[dr := Add32(s[r1], s[r2])]
  }

  /** DO_RRSUB: the difference modulo 2^32 goes into `dr`. */
  function RRSub(s: Regs, r1: RegIndex, r2: RegIndex, dr: RegIndex): (t: Regs)
    ensures t[dr] == (s[r1] - s[r2]) % WORD_MOD
    ensures UnchangedExcept(s, t, {dr})
  {
    s[dr := Sub32(s[r1], s[r2])]
  }

  /** DO_RRMUX: the product modulo 2^32 goes into `dr`. */
  function RRMux(s: Regs, r1: RegIndex, r2: RegIndex, dr: RegIndex): (t: Regs)
    ensures (s[r1] * s[r2] - t[dr]) % WORD_MOD == 0
    ensures UnchangedExcept(s, t, {dr})
  {
    s[dr := Mul32(s[r1], s[r2])]
  }

  /** DO_RRDIV with both operands read before anything is written: `dr`
      receives the quotient, R_RMDR the remainder. The remainder is below the
      divisor; unless `dr` is R_RMDR itself (the remainder then overwrites the
      quotient), quotient and remainder rebuild the dividend. */
  function RRDiv(s: Regs, r1: RegIndex, r2: RegIndex, dr: RegIndex): (t: Regs)
    requires s[r2] != 0
    ensures t[R_RMDR] < s[r2]
    ensures dr == R_RMDR ==> t[R_RMDR] == s[r1] % s[r2]
    ensures dr != R_RMDR ==> t[dr] as int * s[r2] + t[R_RMDR] == s[r1]
    ensures UnchangedExcept(s, t, {dr, R_RMDR})
  {
    var dividend, divisor := s[r1] as int, s[r2] as int;
    DivMod(dividend, divisor);
    var quotient: Word, remainder: Word := dividend / divisor, dividend % divisor;
    var t := s[dr := quotient][R_RMDR := remainder];
    assert t[R_RMDR] == remainder;
    assert dr != R_RMDR ==> t[dr] == quotient;
    t
  }

  /** The C division reads `registers[reg1]` and `registers[reg2]` again for
      the remainder, after the quotient has been stored. Its second division
      is defined only if the divisor it then reads is still nonzero. */
  predicate RRDivAsWrittenDefined(s: Regs, r1: RegIndex, r2: RegIndex, dr: RegIndex) {
    s[r2] != 0 && s[dr := s[r1] / s[r2]][r2] != 0
  }

  /** DO_RRDIV as written: the quotient is stored first, and the remainder is
      computed from the register file that already holds it. With `dr` the
      dividend register the remainder is taken of the quotient; with `dr` the
      divisor register it is taken modulo the quotient; with `dr` both, the
      quotient is 1 and the remainder 0. */
  function RRDivAsWritten(s: Regs, r1: RegIndex, r2: RegIndex, dr: RegIndex): (t: Regs)
    requires RRDivAsWrittenDefined(s, r1, r2, dr)
    ensures dr != r1 && dr != r2 ==> t == RRDiv(s, r1, r2, dr)
    ensures dr != R_RMDR ==> t[dr] == s[r1] / s[r2]
    ensures dr == r1 && dr != r2 && dr != R_RMDR ==> t[R_RMDR] == (s[r1] / s[r2]) % s[r2]
    ensures dr == r2 && dr != r1 && dr != R_RMDR ==> t[R_RMDR] == s[r1] % (s[r1] / s[r2])
    ensures dr == r1 && dr == r2 && dr != R_RMDR ==> t[dr] == 1 && t[R_RMDR] == 0
    ensures UnchangedExcept(s, t, {dr, R_RMDR})
  {
    DivMod(s[r1], s[r2]);
    var q := s[dr := s[r1] / s[r2]];
    var t := q[R_RMDR := q[r1] % q[r2]];
    AsWrittenQuotient(s, r1, r2, dr, q, t);
    AsWrittenRemainder(s, r1, r2, dr, q, t);
    AsWrittenUnaliased(s, r1, r2, dr, q, t);
    t
  }

  /** The quotient DO_RRDIV stores stays in `dr` unless `dr` is R_RMDR; with
      both operands in `dr` it is 1 and the remainder 0. */
  lemma AsWrittenQuotient(s: Regs, r1: RegIndex, r2: RegIndex, dr: RegIndex, q: Regs, t: Regs)
    requires RRDivAsWrittenDefined(s, r1, r2, dr)
    requires q == s[dr := s[r1] / s[r2]] && t == q[R_RMDR := q[r1] % q[r2]]
    ensures dr != R_RMDR ==> t[dr] == s[r1] / s[r2]
    ensures dr == r1 && dr == r2 && dr != R_RMDR ==> t[dr] == 1 && t[R_RMDR] == 0
  {
    if dr == r1 && dr == r2 && dr != R_RMDR {
      DivSelf(s[r1]);
      assert q[r1] == 1 && q[r2] == 1;
    }
  }

  /** With `dr` one operand and not the other, the remainder DO_RRDIV computes
      reads the stored quotient in place of that operand. */
  lemma AsWrittenRemainder(s: Regs, r1: RegIndex, r2: RegIndex, dr: RegIndex, q: Regs, t: Regs)
    requires RRDivAsWrittenDefined(s, r1, r2, dr)
    requires q == s[dr := s[r1] / s[r2]] && t == q[R_RMDR := q[r1] % q[r2]]
    ensures dr == r1 && dr != r2 && dr != R_RMDR ==> t[R_RMDR] == (s[r1] / s[r2]) % s[r2]
    ensures dr == r2 && dr != r1 && dr != R_RMDR ==> t[R_RMDR] == s[r1] % (s[r1] / s[r2])
  {
    if dr == r1 && dr != r2 {
      assert q[r1] == s[r1] / s[r2] && q[r2] == s[r2];
    } else if dr == r2 && dr != r1 {
      assert q[r1] == s[r1] && q[r2] == s[r1] / s[r2];
    }
  }

  /** With `dr` neither operand, DO_RRDIV as written is the intended division. */
  lemma AsWrittenUnaliased(s: Regs, r1: RegIndex, r2: RegIndex, dr: RegIndex, q: Regs, t: Regs)
    requires RRDivAsWrittenDefined(s, r1, r2, dr)
    requires q == s[dr := s[r1] / s[r2]] && t == q[R_RMDR := q[r1] % q[r2]]
    ensures dr != r1 && dr != r2 ==> t == RRDiv(s, r1, r2, dr)
  {
    if dr != r1 && dr != r2 {
      assert q[r1] == s[r1] && q[r2] == s[r2];
    }
  }

  /** A positive number divided by itself is 1. */
  lemma DivSelf(n: int)
    requires 0 < n
    ensures n / n == 1
  {
    DivMod(n, n);
  }

  // ---------------------------------------------------------------- jumps

  /** DO_JUMPA: PC becomes the address, whatever it held before. */
  function JumpA(s: Regs, address: Word): (t: Regs)
    ensures t[R_PC] == address
    ensures UnchangedExcept(s, t, {R_PC})
  {
    s[R_PC := address]
  }

  /** DO_JUMPF: PC advances by the zero-extended offset, modulo 2^32. */
  function JumpF(s: Regs, offset: Imm16): (t: Regs)
    ensures t[R_PC] == (s[R_PC] + offset) % WORD_MOD
    ensures UnchangedExcept(s, t, {R_PC})
  {
    s[R_PC := Add32(s[R_PC], ZExt16(offset))]
  }

  /** DO_JUMPB: PC moves back by the zero-extended offset, modulo 2^32. */
  function JumpB(s: Regs, offset: Imm16): (t: Regs)
    ensures t[R_PC] == (s[R_PC] - offset) % WORD_MOD
    ensures UnchangedExcept(s, t, {R_PC})
  {
    s[R_PC := Sub32(s[R_PC], ZExt16(offset))]
  }

  /** DO_RJMPA: PC becomes the value of register `r`. */
  function RJmpA(s: Regs, r: RegIndex): (t: Regs)
    ensures t[R_PC] == s[r]
    ensures UnchangedExcept(s, t, {R_PC})
  {
    s[R_PC := s[r]]
  }

  /** DO_RJMPF: PC advances by the value of register `r`, modulo 2^32. */
  function RJmpF(s: Regs, r: RegIndex): (t: Regs)
    ensures t[R_PC] == (s[R_PC] + s[r]) % WORD_MOD
    ensures UnchangedExcept(s, t, {R_PC})
  {
    s[R_PC := Add32(s[R_PC], s[r])]
  }

  /** DO_RJMPB: PC moves back by the value of register `r`, modulo 2^32. */
  function RJmpB(s: Regs, r: RegIndex): (t: Regs)
    ensures t[R_PC] == (s[R_PC] - s[r]) % WORD_MOD
    ensures UnchangedExcept(s, t, {R_PC})
  {
    s[R_PC := Sub32(s[R_PC], s[r])]
  }

  // ---------------------------------------------------------- comparisons

  /** DO_RREQL: R_COND is 1 exactly when the two registers are equal, else 0. */
  function RREql(s: Regs, r1: RegIndex, r2: RegIndex): (t: Regs)
    ensures t[R_COND] == 0 || t[R_COND] == 1
    ensures t[R_COND] == 1 <==> s[r1] == s[r2]
    ensures UnchangedExcept(s, t, {R_COND})
  {
    s[R_COND := Flag(s[r1] == s[r2])]
  }

  /** DO_RRNQL: R_COND is 1 exactly when the two registers differ, else 0. */
  function RRNql(s: Regs, r1: RegIndex, r2: RegIndex): (t: Regs)
    ensures t[R_COND] == 0 || t[R_COND] == 1
    ensures t[R_COND] == 1 <==> s[r1] != s[r2]
    ensures UnchangedExcept(s, t, {R_COND})
  {
    s[R_COND := Flag(s[r1] != s[r2])]
  }

  /** DO_RRGTE: R_COND is 1 exactly when `r1` is at least `r2` (unsigned), else 0. */
  function RRGte(s: Regs, r1: RegIndex, r2: RegIndex): (t: Regs)
    ensures t[R_COND] == 0 || t[R_COND] == 1
    ensures t[R_COND] == 1 <==> s[r1] >= s[r2]
    ensures UnchangedExcept(s, t, {R_COND})
  {
    s[R_COND := Flag(s[r1] >= s[r2])]
  }

  /** DO_RRLTE: R_COND is 1 exactly when `r1` is at most `r2` (unsigned), else 0. */
  function RRLte(s: Regs, r1: RegIndex, r2: RegIndex): (t: Regs)
    ensures t[R_COND] == 0 || t[R_COND] == 1
    ensures t[R_COND] == 1 <==> s[r1] <= s[r2]
    ensures UnchangedExcept(s, t, {R_COND})
  {
    s[R_COND := Flag(s[r1] <= s[r2])]
  }

  /** DO_RRGTX: R_COND is 1 exactly when `r1` is greater than `r2` (unsigned), else 0. */
  function RRGtx(s: Regs, r1: RegIndex, r2: RegIndex): (t: Regs)
    ensures t[R_COND] == 0 || t[R_COND] == 1
    ensures t[R_COND] == 1 <==> s[r1] > s[r2]
    ensures UnchangedExcept(s, t, {R_COND})
  {
    s[R_COND := Flag(s[r1] > s[r2])]
  }

  /** DO_RRLTX: R_COND is 1 exactly when `r1` is less than `r2` (unsigned), else 0. */
  function RRLtx(s: Regs, r1: RegIndex, r2: RegIndex): (t: Regs)
    ensures t[R_COND] == 0 || t[R_COND] == 1
    ensures t[R_COND] == 1 <==> s[r1] < s[r2]
    ensures UnchangedExcept(s, t, {R_COND})
  {
    s[R_COND := Flag(s[r1] < s[r2])]
  }

  /** DO_RRCMP: R_COMP receives exactly one of 2 (equal), 1 (greater) and
      4 (less); the three tests of the source cover every pair of values. */
  function RRCmp(s: Regs, r1: RegIndex, r2: RegIndex): (t: Regs)
    ensures t[R_COMP] == 1 || t[R_COMP] == 2 || t[R_COMP] == 4
    ensures t[R_COMP] == 2 <==> s[r1] == s[r2]
    ensures t[R_COMP] == 1 <==> s[r1] > s[r2]
    ensures t[R_COMP] == 4 <==> s[r1] < s[r2]
    ensures UnchangedExcept(s, t, {R_COMP})
  {
    if s[r1] == s[r2] then s[R_COMP := 2]
    else if s[r1] > s[r2] then s[R_COMP := 1]
    else s[R_COMP := 4]     // the source tests `<` here, which is all that is left
  }

  // ---------------------------------------------------- conditional jumps

  /** DO_RJMPQ: when R_COND is nonzero PC becomes the value of `r`;
      otherwise nothing changes. */
  function RJmpQ(s: Regs, r: RegIndex): (t: Regs)
    ensures s[R_COND] != 0 ==> t[R_PC] == s[r]
    ensures s[R_COND] == 0 ==> t == s
    ensures UnchangedExcept(s, t, {R_PC})
  {
    if s[R_COND] != 0 then s[R_PC := s[r]] else s
  }

  /** DO_RJMPN: when R_COND is zero PC becomes the value of `r`;
      otherwise nothing changes. */
  function RJmpN(s: Regs, r: RegIndex): (t: Regs)
    ensures s[R_COND] == 0 ==> t[R_PC] == s[r]
    ensures s[R_COND] != 0 ==> t == s
    ensures UnchangedExcept(s, t, {R_PC})
  {
    if s[R_COND] == 0 then s[R_PC := s[r]] else s
  }

  /** DO_JUMPQ: when R_COND is nonzero PC advances by the offset, modulo
      2^32; otherwise nothing changes. */
  function JumpQ(s: Regs, offset: Imm16): (t: Regs)
    ensures s[R_COND] != 0 ==> t[R_PC] == (s[R_PC] + offset) % WORD_MOD
    ensures s[R_COND] == 0 ==> t == s
    ensures UnchangedExcept(s, t, {R_PC})
  {
    if s[R_COND] != 0 then s[R_PC := Add32(s[R_PC], ZExt16(offset))] else s
  }

  /** DO_JUMPN: when R_COND is zero PC advances by the offset, modulo
      2^32; otherwise nothing changes. */
  function JumpN(s: Regs, offset: Imm16): (t: Regs)
    ensures s[R_COND] == 0 ==> t[R_PC] == (s[R_PC] + offset) % WORD_MOD
    ensures s[R_COND] != 0 ==> t == s
    ensures UnchangedExcept(s, t, {R_PC})
  {
    if s[R_COND] == 0 then s[R_PC := Add32(s[R_PC], ZExt16(offset))] else s
  }

  // --------------------------------------------------------------- lemmas

  /** Two register files that agree on every slot are equal. */
  lemma RegsEqual(s: Regs, t: Regs)
    requires UnchangedExcept(s, t, {})
    ensures s == t
  {
    assert forall k :: 0 <= k < R_COUNT ==> t[k] == s[k];
  }

  /** Adding register `x` into `d` and then subtracting it again restores
      the whole register file, whatever wrap-around happened in between. */
  lemma AddThenSubRestores(s: Regs, d: RegIndex, x: RegIndex)
    requires d != x
    ensures RRSub(RRAdd(s, d, x, d), d, x, d) == s
  {
    var t := RRSub(RRAdd(s, d, x, d), d, x, d);
    SubUndoesAdd(s[d], s[x]);
    assert t[d] == s[d];
    RegsEqual(s, t);
  }

  /** A forward jump by an offset followed by a backward jump by the same
      offset restores PC. */
  lemma JumpForwardThenBack(s: Regs, offset: Imm16)
    ensures JumpB(JumpF(s, offset), offset) == s
  {
    var t := JumpB(JumpF(s, offset), offset);
    SubUndoesAdd(s[R_PC], offset);
    RegsEqual(s, t);
  }

  /** A forward register jump followed by a backward register jump through
      the same register restores PC, provided that register is not PC itself
      (PC would then have changed in between). */
  lemma RegisterJumpForwardThenBack(s: Regs, r: RegIndex)
    requires r != R_PC
    ensures RJmpB(RJmpF(s, r), r) == s
  {
    var t := RJmpB(RJmpF(s, r), r);
    SubUndoesAdd(s[R_PC], s[r]);
    RegsEqual(s, t);
  }

  /** Of RJMPQ and RJMPN through the same register, at most one changes
      anything, whatever R_COND holds. */
  lemma AtMostOneRegisterJumpTaken(s: Regs, r: RegIndex)
    ensures RJmpQ(s, r) == s || RJmpN(s, r) == s
  {
  }

  /** Of JUMPQ and JUMPN by the same offset, at most one changes anything,
      whatever R_COND holds. */
  lemma AtMostOneOffsetJumpTaken(s: Regs, offset: Imm16)
    ensures JumpQ(s, offset) == s || JumpN(s, offset) == s
  {
  }

  /** The division identity over the registers as they are afterwards, when
      the operand registers are neither the destination nor R_RMDR. */
  lemma DivisionIdentityAfter(s: Regs, r1: RegIndex, r2: RegIndex, dr: RegIndex)
    requires s[r2] != 0
    requires dr != r1 && dr != r2 && dr != R_RMDR && r1 != R_RMDR && r2 != R_RMDR
    ensures var t := RRDiv(s, r1, r2, dr);
            t[r1] == t[dr] * t[r2] + t[R_RMDR] && t[R_RMDR] < t[r2]
  {
  }
}
