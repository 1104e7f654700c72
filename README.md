# BlueVM execution engine in Dafny

BlueVM is a small register machine. Its register file has twenty unsigned
32-bit registers: sixteen general-purpose ones (`R_00`..`R_15`), then `R_PC`,
`R_RMDR` (remainder of a division), `R_COND` (a comparison flag) and `R_COMP`
(a three-way comparison result). Every instruction is a 32-bit word:

- the top byte is the opcode;
- the next two bytes are register numbers (fields A and B);
- the low byte is a destination register (field C);
- in some instructions the low half is a 16-bit immediate instead.

`execute` decodes one word and dispatches on the opcode to its `DO_*`
handler, which updates the register array in place. The register-jump
cases fall through into the handlers of the labels after them, and
opcodes 21 and 22 reach no handler at all (see Findings).

The project models that engine in these modules:

- `Registers` (`registers.dfy`): the register numbers, 32-bit words and
  register-file values, zero-extension, and wrap-around arithmetic written
  out modulo 2^32.
- `Decoder` (`decoder.dfy`): the bit-field extraction, its inverse
  `Encode`, and the destination register as the source computes it,
  `instr % 0xFF`.
- `Opcodes` (`opcodes.dfy`): the opcode enum with its numeric values, and
  the status one execution reports.
- `Transitions` (`transitions.dfy`): one function per `DO_*` handler, from
  the register file before to the register file after. Contracts give the
  value written and the frame, meaning every other register is unchanged.
- `Dispatch` (`dispatch.dfy`): two versions of the opcode switch.
  - `Step` is the intended dispatch, with one handler per opcode as the
    layout comment of each case describes it.
  - `StepAsWritten` is the switch exactly as the source has it.
  - `Run` and `RunAsWritten` apply a sequence of words one after another,
    which is how the read loop feeds them.
- `Engine` (`machine.dfy`): class `Machine`.
  - It owns the register file as an `array`.
  - Each `DO_*` handler is a method that updates the array in place. It is
    proved equal to its transition function.
  - `Execute` and `ExecuteAsWritten` are the switch as methods. They are
    proved equal to `Step` and `StepAsWritten`.
- `Properties` (`properties.dfy`): what one instruction word does, stated
  over the encoding, plus round trips over two-word runs.
- `Defects` (`defects.dfy`): for each place where the switch departs from
  its own comments, inputs on which `StepAsWritten` and `Step` differ; and
  the cases where the two agree.

Some inputs make the C code undefined: a register field of 20 or above
indexes past `registers[R_COUNT]`, and a zero divisor. Both dispatches
refuse these by returning `InvalidRegister` or `DivisionByZero`, and leave
every register unchanged. The `printf` diagnostics of `execute` become the
returned status instead; for example, the "UNKNOWN OP_CODE" line of
`default` becomes `UnknownOpcode(op)`. Opcodes 0, 1 and 2 (`NTHNG`,
`CEASE`, `ILEGL`) have no case label, so they reach `default`. Both
dispatches therefore report them as unknown opcodes that change nothing.

`R_COND` is documented as holding only 0 or 1. The code does not keep that
invariant, because `RLOAD` may name any register; `CondTakesLoads` shows
this. The model follows the code, so the conditional jumps test
`R_COND != 0`, as the handlers do.

## Model

| member | source | states |
|---|---|---|
| Registers.Zeros | BlueVM/main.c:103 | the register file starts with every one of its twenty slots at zero |
| Registers.ZExt16 | BlueVM/main.c:105-107 | the low 16 bits of the result are the argument and the upper 16 bits are zero |
| Registers.ZExt8 | BlueVM/main.c:109-111 | the low 8 bits of the result are the argument and the upper 24 bits are zero |
| Registers.Add32 | BlueVM/main.c:119 | `uint32_t` addition is the sum modulo 2^32 and is the plain sum when that is below 2^32 |
| Registers.Sub32 | BlueVM/main.c:123 | `uint32_t` subtraction is the difference modulo 2^32 and is the plain difference when it is not negative |
| Registers.Mul32 | BlueVM/main.c:127 | `uint32_t` multiplication is congruent to the product modulo 2^32 and is the product when that is below 2^32 |
| Decoder.Decode | BlueVM/main.c:320-335 | opcode, field A, field B and the low byte are bytes whose base-256 value is the word; the 16-bit immediate is fields B and C together |
| Decoder.DestAsWritten | BlueVM/main.c:336 | the destination computed as `instr % 0xFF` always lies in 0..254 |
| Decoder.DecodeEncode | BlueVM/main.c:320-327 | decoding a word built from four bytes gives back those bytes and its low half as the immediate |
| Decoder.EncodeDecode | BlueVM/main.c:320-327 | reassembling the decoded bytes gives back the word, so decoding loses nothing |
| Decoder.DestAsWrittenIsByteSum | BlueVM/main.c:336 | `instr % 0xFF` equals the sum of the word's four bytes modulo 255, so it depends on the opcode and both register fields and not only on the low byte |
| Opcodes.Code | BlueVM/main.c:47-74 | each enum entry has a value below `OP_COUNT` (25) |
| Opcodes.OpcodeOf | BlueVM/main.c:47-74 | a byte names an enum entry exactly when it is below 25, and the entry found has that byte as its value |
| Opcodes.OpcodeOfCode | BlueVM/main.c:47-74 | the value of every enum entry leads back to that entry, so no two entries share a value |
| Transitions.Flag | BlueVM/main.c:162 | the `uint32_t` cast of a truth value is 0 or 1, and is 1 exactly when the value is true |
| Transitions.RLoad | BlueVM/main.c:113-116 | the register receives the zero-extended immediate and no other register changes |
| Transitions.RRAdd | BlueVM/main.c:118-120 | DR receives the sum modulo 2^32 and no other register changes |
| Transitions.RRSub | BlueVM/main.c:122-124 | DR receives the difference modulo 2^32 and no other register changes |
| Transitions.RRMux | BlueVM/main.c:126-128 | DR receives a value congruent to the product modulo 2^32 and no other register changes |
| Transitions.RRDiv | BlueVM/main.c:130-135 | with a nonzero divisor, R_RMDR ends below the divisor; quotient times divisor plus remainder is the dividend (the remainder itself when DR is R_RMDR); only DR and R_RMDR change |
| Transitions.RRDivAsWritten | BlueVM/main.c:130-135 | the quotient is stored before the remainder is computed from the updated registers: DR (unless it is R_RMDR) receives the quotient; with DR the dividend register R_RMDR is the quotient modulo the divisor, with DR the divisor register it is the dividend modulo the quotient, with DR both the quotient is 1 and R_RMDR 0; when DR differs from both operands this is the intended division; only DR and R_RMDR change |
| Transitions.JumpA | BlueVM/main.c:137-139 | PC becomes the address whatever it held, and nothing else changes |
| Transitions.JumpF | BlueVM/main.c:141-143 | PC advances by the zero-extended offset modulo 2^32, and nothing else changes |
| Transitions.JumpB | BlueVM/main.c:145-147 | PC moves back by the zero-extended offset modulo 2^32, and nothing else changes |
| Transitions.RJmpA | BlueVM/main.c:149-151 | PC becomes the register's value, and nothing else changes |
| Transitions.RJmpF | BlueVM/main.c:153-155 | PC advances by the register's value modulo 2^32, and nothing else changes |
| Transitions.RJmpB | BlueVM/main.c:157-159 | PC moves back by the register's value modulo 2^32, and nothing else changes |
| Transitions.RREql | BlueVM/main.c:161-163 | R_COND becomes 0 or 1, and is 1 exactly when the operands are equal; nothing else changes |
| Transitions.RRNql | BlueVM/main.c:165-167 | R_COND becomes 0 or 1, and is 1 exactly when the operands differ; nothing else changes |
| Transitions.RRGte | BlueVM/main.c:169-171 | R_COND becomes 0 or 1, and is 1 exactly when the first operand is at least the second; nothing else changes |
| Transitions.RRLte | BlueVM/main.c:173-175 | R_COND becomes 0 or 1, and is 1 exactly when the first operand is at most the second; nothing else changes |
| Transitions.RRGtx | BlueVM/main.c:177-179 | R_COND becomes 0 or 1, and is 1 exactly when the first operand is strictly greater; nothing else changes |
| Transitions.RRLtx | BlueVM/main.c:181-183 | R_COND becomes 0 or 1, and is 1 exactly when the first operand is strictly less; nothing else changes |
| Transitions.RRCmp | BlueVM/main.c:185-189 | R_COMP becomes exactly one of 2, 1 or 4, each exactly when the operands are equal, greater or less, so the three branches cover every pair; nothing else changes |
| Transitions.RJmpQ | BlueVM/main.c:191-195 | with R_COND nonzero, PC becomes the register's value and nothing else changes; with R_COND zero, nothing changes |
| Transitions.RJmpN | BlueVM/main.c:197-201 | with R_COND zero, PC becomes the register's value and nothing else changes; with R_COND nonzero, nothing changes |
| Transitions.JumpQ | BlueVM/main.c:203-207 | with R_COND nonzero, PC advances by the offset modulo 2^32 and nothing else changes; with R_COND zero, nothing changes |
| Transitions.JumpN | BlueVM/main.c:209-213 | with R_COND zero, PC advances by the offset modulo 2^32 and nothing else changes; with R_COND nonzero, nothing changes |
| Transitions.AddThenSubRestores | BlueVM/main.c:118-124 | for a register x other than d, adding x into d and subtracting it again restores the whole register file, across any wrap-around |
| Transitions.JumpForwardThenBack | BlueVM/main.c:141-147 | a forward jump by an offset followed by a backward jump by the same offset restores the register file |
| Transitions.RegisterJumpForwardThenBack | BlueVM/main.c:153-159 | RJMPF then RJMPB through the same register, if it is not PC, restores the register file |
| Transitions.AtMostOneRegisterJumpTaken | BlueVM/main.c:191-201 | whatever R_COND holds, at least one of RJMPQ and RJMPN through the same register changes nothing |
| Transitions.AtMostOneOffsetJumpTaken | BlueVM/main.c:203-213 | whatever R_COND holds, at least one of JUMPQ and JUMPN by the same offset changes nothing |
| Transitions.DivisionIdentityAfter | BlueVM/main.c:130-135 | with a nonzero divisor and DR, the operands and R_RMDR pairwise distinct, the registers afterwards satisfy reg1 == DR * reg2 + RMDR and RMDR < reg2 |
| Dispatch.StepEffects | BlueVM/main.c:318-473 | a refused instruction changes nothing; an accepted one writes only the registers its opcode targets; exactly the opcodes outside 3..24 are reported unknown, with the decoded opcode; only RRDIV reports a zero divisor |
| Dispatch.InvalidRegisterExactly | BlueVM/main.c:322-471 | an instruction is refused with InvalidRegister exactly when its opcode is known and a field it uses as a register number (field A for RLOAD and the register jumps; A and B for the comparisons and RRCMP; A, B and the low byte for RRADD..RRDIV) is 20 or above |
| Dispatch.StepAsWrittenEffects | BlueVM/main.c:318-473 | as the switch is written, a refused instruction changes nothing, and otherwise only the registers the opcode targets change, with the destination taken as `instr % 0xFF` |
| Dispatch.InvalidRegisterExactlyAsWritten | BlueVM/main.c:322-471 | as written, InvalidRegister is reported exactly when the opcode has a case label and a field it uses as a register number, the destination being `instr % 0xFF`, is 20 or above |
| Dispatch.StepEncoded | BlueVM/main.c:320-322 | a word built from an opcode and three bytes is dispatched on that opcode, with those bytes as its fields |
| Dispatch.StepAsWrittenEncoded | BlueVM/main.c:320-336 | as written, such a word is dispatched on its opcode with those bytes as its fields and `instr % 0xFF` as the destination |
| Dispatch.FallThrough | BlueVM/main.c:445-471 | entering the chain of register-jump labels changes only PC; from any label but RJMPN, with the register not PC, PC ends as that register's value; from RJMPN it is DO_RJMPN alone |
| Dispatch.RunAppend | BlueVM/main.c:246-289 | the read loop keeps no state besides the registers: feeding one sequence of words and then another is feeding their concatenation |
| Dispatch.RunAsWrittenAppend | BlueVM/main.c:246-289 | the same composition holds for the loop feeding the switch as written |
| Engine.Machine.constructor | BlueVM/main.c:103 | a new machine has twenty registers, all zero |
| Engine.Machine.DoRLoad | BlueVM/main.c:113-116 | updates the array in place to `RLoad` of the registers before |
| Engine.Machine.DoRRAdd | BlueVM/main.c:118-120 | updates the array in place to `RRAdd` of the registers before |
| Engine.Machine.DoRRSub | BlueVM/main.c:122-124 | updates the array in place to `RRSub` of the registers before |
| Engine.Machine.DoRRMux | BlueVM/main.c:126-128 | updates the array in place to `RRMux` of the registers before |
| Engine.Machine.DoRRDiv | BlueVM/main.c:130-135 | with a nonzero divisor, updates the array in place to `RRDiv` of the registers before |
| Engine.Machine.DoRRDivAsWritten | BlueVM/main.c:130-135 | when both of its divisions are defined, updates the array in place to `RRDivAsWritten`, storing the quotient before reading the operands again |
| Engine.Machine.DoJumpA | BlueVM/main.c:137-139 | updates the array in place to `JumpA` of the registers before |
| Engine.Machine.DoJumpF | BlueVM/main.c:141-143 | updates the array in place to `JumpF` of the registers before |
| Engine.Machine.DoJumpB | BlueVM/main.c:145-147 | updates the array in place to `JumpB` of the registers before |
| Engine.Machine.DoRJmpA | BlueVM/main.c:149-151 | updates the array in place to `RJmpA` of the registers before |
| Engine.Machine.DoRJmpF | BlueVM/main.c:153-155 | updates the array in place to `RJmpF` of the registers before |
| Engine.Machine.DoRJmpB | BlueVM/main.c:157-159 | updates the array in place to `RJmpB` of the registers before |
| Engine.Machine.DoRREql | BlueVM/main.c:161-163 | updates the array in place to `RREql` of the registers before |
| Engine.Machine.DoRRNql | BlueVM/main.c:165-167 | updates the array in place to `RRNql` of the registers before |
| Engine.Machine.DoRRGte | BlueVM/main.c:169-171 | updates the array in place to `RRGte` of the registers before |
| Engine.Machine.DoRRLte | BlueVM/main.c:173-175 | updates the array in place to `RRLte` of the registers before |
| Engine.Machine.DoRRGtx | BlueVM/main.c:177-179 | updates the array in place to `RRGtx` of the registers before |
| Engine.Machine.DoRRLtx | BlueVM/main.c:181-183 | updates the array in place to `RRLtx` of the registers before |
| Engine.Machine.DoRRCmp | BlueVM/main.c:185-189 | updates the array in place to `RRCmp` of the registers before |
| Engine.Machine.DoRJmpQ | BlueVM/main.c:191-195 | updates the array in place to `RJmpQ` of the registers before |
| Engine.Machine.DoRJmpN | BlueVM/main.c:197-201 | updates the array in place to `RJmpN` of the registers before |
| Engine.Machine.DoJumpQ | BlueVM/main.c:203-207 | updates the array in place to `JumpQ` of the registers before |
| Engine.Machine.DoJumpN | BlueVM/main.c:209-213 | updates the array in place to `JumpN` of the registers before |
| Engine.Machine.FallThroughFrom | BlueVM/main.c:445-469 | running the register-jump handlers from a given label to the end of the chain updates the array to `FallThrough` |
| Engine.Machine.ExecuteShared | BlueVM/main.c:323-444 | the cases both switches share return the status and leave the array `SharedStep` gives |
| Engine.Machine.Execute | BlueVM/main.c:318-473 | returns the status of `Step` and leaves the array as `Step` does |
| Engine.Machine.ExecuteAsWritten | BlueVM/main.c:318-473 | returns the status of `StepAsWritten` and leaves the array as it does |
| Properties.DecodeWordWithImmediate | BlueVM/main.c:326-327 | a word built from an opcode, a register and a 16-bit value decodes to those three |
| Properties.StepWithImmediate | BlueVM/main.c:320-327 | a word built from an opcode, a register and a 16-bit value is dispatched on that opcode with the value as its immediate |
| Properties.LoadImmediate | BlueVM/main.c:323-331 | an RLOAD word sets the register of field A to the zero-extended immediate and changes nothing else |
| Properties.LoadBeef | BlueVM/main.c:323-331 | the word 0x0300BEEF sets R_00 to 0x0000BEEF, zero-extended, and nothing else |
| Properties.ArithmeticAtStep | BlueVM/main.c:332-358 | RRADD, RRSUB and RRMUX words write the wrapped sum, difference and product of fields A and B into the register of the low byte, and only there |
| Properties.AddThenSubAtStep | BlueVM/main.c:332-349 | for a register x other than d, running the RRADD word adding x into d and then the matching RRSUB word restores every register |
| Properties.InvalidRegisterAtStep | BlueVM/main.c:332-367 | a three-register word with a register field of 20 or more is refused with InvalidRegister and changes nothing |
| Properties.DivisionDispatched | BlueVM/main.c:359-367 | an RRDIV word with a nonzero divisor continues with the division handler on fields A, B and the low byte |
| Properties.DivisionByZeroAtStep | BlueVM/main.c:359-367 | an RRDIV word with a zero divisor reports DivisionByZero and changes nothing |
| Properties.ComparisonAtStep | BlueVM/main.c:389-436 | each comparison word, whatever its ignored low byte, sets R_COND to 1 when its relation holds between fields A and B, to 0 otherwise, and changes nothing else |
| Properties.CompareAtStep | BlueVM/main.c:437-444 | an RRCMP word, whatever its ignored low byte, writes 2, 1 or 4 into R_COMP as field A's register is equal to, greater than or less than field B's, and changes nothing else |
| Properties.JumpAbsoluteAtStep | BlueVM/main.c:368-374 | a JUMPA word, whatever its ignored field A, sets PC to its immediate whatever PC held, and nothing else changes |
| Properties.Jump1234 | BlueVM/main.c:368-374 | the word 0x08001234 sets PC to 0x1234 |
| Properties.JumpForwardThenBackAtStep | BlueVM/main.c:375-388 | a JUMPF word followed by the JUMPB word with the same offset, both in the layout of their case comments, restores every register |
| Properties.RegisterJumpForwardThenBackAtStep | BlueVM/main.c:450-459 | an RJMPF word followed by the RJMPB word through the same register, if it is not PC, both in the layout of their case comments, restores every register |
| Properties.RegisterJumpAbsoluteAtStep | BlueVM/main.c:445-449 | an RJMPA word, whatever its ignored fields B and C, sets PC to the value of the register of field A, and nothing else changes |
| Properties.RegisterJumpForwardAtStep | BlueVM/main.c:450-454 | an RJMPF word, whatever its ignored fields B and C, advances PC by the register's value modulo 2^32, and nothing else changes |
| Properties.RegisterJumpBackAtStep | BlueVM/main.c:455-459 | an RJMPB word, whatever its ignored fields B and C, moves PC back by the register's value modulo 2^32, and nothing else changes |
| Properties.RegisterJumpIfSetAtStep | BlueVM/main.c:460-464 | an RJMPQ word, whatever its ignored fields B and C, sets PC to the register's value when R_COND is nonzero and changes nothing when it is zero |
| Properties.RegisterJumpIfClearAtStep | BlueVM/main.c:465-469 | an RJMPN word, whatever its ignored fields B and C, sets PC to the register's value when R_COND is zero and changes nothing when it is nonzero |
| Properties.OffsetJumpIfSetAtStep | BlueVM/main.c:203-207 | a JUMPQ word, whatever its ignored field A, advances PC by its offset when R_COND is nonzero and changes nothing when it is zero |
| Properties.OffsetJumpIfClearAtStep | BlueVM/main.c:209-213 | a JUMPN word, whatever its ignored field A, advances PC by its offset when R_COND is zero and changes nothing when it is nonzero |
| Properties.ExactlyOneRegisterJumpTakenAtStep | BlueVM/main.c:191-201 | for a register whose value differs from PC, exactly one of the RJMPQ and RJMPN words through it, with the same fields B and C, moves PC, whatever R_COND holds |
| Properties.UnknownOpcodeFF | BlueVM/main.c:470-471 | every word with top byte 0xFF is reported as an unknown opcode 0xFF and changes no register |
| Properties.RunKeepsUntargeted | BlueVM/main.c:246-289 | a register that no word of a run may write keeps its value over the whole run |
| Properties.LoadLoadAdd | BlueVM/main.c:323-340 | loading two values into distinct registers and adding those registers leaves the wrapped sum of the values in the destination |
| Properties.EndToEnd | BlueVM/main.c:323-340 | from all-zero registers, loading 5 and 3 and adding them with 0x04000102 leaves 8 in R_02 |
| Properties.CondTakesLoads | BlueVM/main.c:96 | an RLOAD word naming R_COND can set it to 0xBEEF, so R_COND is not kept to 0 or 1 |
| Defects.DestAsWrittenExample | BlueVM/main.c:336 | for 0x04000102, `instr % 0xFF` is 7 while the low byte is 2 |
| Defects.DestAsWrittenNeverLowByte | BlueVM/main.c:336 | for every RRADD, RRSUB, RRMUX or RRDIV word whose fields A and B name registers, `instr % 0xFF` differs from the low byte, whatever that byte is |
| Defects.AsWrittenMissesDestination | BlueVM/main.c:332-358 | as written, every RRADD, RRSUB or RRMUX word whose three fields name registers leaves the register of its low byte unchanged, for every register file |
| Defects.AsWrittenAddLandsElsewhere | BlueVM/main.c:332-340 | as written, 0x04000102 puts the sum of R_00 and R_01 into R_07; the intended dispatch puts it into R_02 |
| Defects.EndToEndAsWritten | BlueVM/main.c:323-340 | the program of `EndToEnd`, run as written, leaves R_02 at 0 and puts 8 into R_07 |
| Defects.AsWrittenRrgtxIsGte | BlueVM/main.c:421-428 | as written, RRGTX on equal operands sets R_COND to 1; strict "greater than" gives 0 |
| Defects.AsWrittenRegisterJumpsFallThrough | BlueVM/main.c:445-471 | as written, RJMPA, RJMPF, RJMPB and RJMPQ through a register other than PC, with any fields B and C, all end with PC set to that register's value and report an unknown opcode |
| Defects.AsWrittenRjmpnReportsUnknown | BlueVM/main.c:465-471 | as written, an RJMPN word with any fields B and C moves PC as intended but falls into `default` and reports an unknown opcode |
| Defects.AsWrittenRjmpbAdds | BlueVM/main.c:455-459 | as written, an RJMPB word through PC with any fields B and C doubles PC modulo 2^32; jumping back by PC's own value gives 0 |
| Defects.AsWrittenOffsetJumpsIgnored | BlueVM/main.c:203-213 | as written, JUMPQ and JUMPN words, with any field A and offset, have no case label, are reported unknown and leave PC unchanged |
| Defects.AsWrittenDivisionAliasing | BlueVM/main.c:130-135 | as written, dividing 7 by 3 into the dividend register leaves R_RMDR at 2; the intended division leaves it at 1 |
| Defects.AsWrittenRemainderDividesByZero | BlueVM/main.c:130-135 | as written, dividing 1 by 2 into the divisor register then takes a remainder modulo 0, which is undefined; the intended division gives quotient 0 and remainder 1 |
| Defects.AsWrittenAgreesOnSharedCases | BlueVM/main.c:323-444 | on RLOAD, JUMPA, JUMPF, JUMPB, RRCMP and the comparisons other than RRGTX, the cases with their own label and `break` that take no destination byte, the two dispatches agree on every word and register file |

## Left out

- The interactive loop is not modelled: the prompt, the `.exit` and `.registers` commands, and coloured output (`BlueVM/main.c:217-295`). These are terminal I/O. `Run` stands in for the loop feeding hex words to `execute`.
- Reading lines with `getline` and parsing hex with `strtoul` (`BlueVM/main.c:297-307`) are not modelled. They are libc calls on stdin. The model takes the already-parsed word.
- `REPLBuffer` allocation and freeing (`BlueVM/main.c:30-34`, `233-240`, `309-312`) are not modelled. They are heap plumbing with no machine meaning.
- `repl_parse` (`BlueVM/main.c:313-316`) is not modelled. It is a stub that returns 0.
- The `printf` calls in `execute` are not modelled as output, because output is I/O. Their information is the returned status.
- `exit` and `main` are not modelled. They belong to the host process.
- Undefined behaviour in C becomes an error status that changes nothing. This covers an out-of-range register index and a division or remainder by zero. The model does not capture what a real build does in those cases (memory corruption, a trap).
- Dispatch.StepEffects: the intended dispatch makes the opcodes without a case label (0, 1, 2) unknown, as the code does. It does not model the open reading that `CEASE` halts.
- Registers.Mul32: its contract states congruence modulo 2^32 rather than the exact remainder, which is what the wrap-around proofs need.
- Properties.DivisionDispatched: the division identity at the level of a whole instruction word is stated through `Transitions.RRDiv`'s contract. It is not restated over `Step`'s result.

## Findings

In each row the corrected behaviour is that of `Dispatch.Step`. The
corrected-member column names the lemma that proves the intended property
of `Step`.

| source | as written | input that shows it | evidently intended | confidence | as-written member | corrected member |
|---|---|---|---|---|---|---|
| BlueVM/main.c:336 | the destination of RRADD/RRSUB/RRMUX/RRDIV is `instr % 0xFF`, the byte sum modulo 255 | 0x04000102 writes R_07, not R_02; no such word whose fields name registers writes the register of its low byte | the low byte, `instr & 0xFF`, per the layout comment at line 333 | high (not executed) | Defects.AsWrittenMissesDestination | Properties.ArithmeticAtStep |
| BlueVM/main.c:426 | the RRGTX case calls DO_RRGTE | RRGTX with equal operands sets R_COND to 1 | DO_RRGTX, strict "greater than" as the enum comment at line 71 says | high (not executed) | Defects.AsWrittenRrgtxIsGte | Properties.ComparisonAtStep |
| BlueVM/main.c:445-471 | the register-jump cases have no `break` and fall through each other into `default` | RJMPF through R_00 ends with PC equal to R_00 and reports an unknown opcode | each case ends with `break` after its own handler | high (not executed) | Defects.AsWrittenRegisterJumpsFallThrough | Properties.RegisterJumpForwardAtStep |
| BlueVM/main.c:458 | the RJMPB case calls DO_RJMPF | RJMPB through PC doubles PC | DO_RJMPB, a backward jump | high (not executed) | Defects.AsWrittenRjmpbAdds | Properties.RegisterJumpBackAtStep |
| BlueVM/main.c:470 | opcodes 21 (JUMPQ) and 22 (JUMPN) have no case label although DO_JUMPQ and DO_JUMPN exist | JUMPQ with R_COND = 1 leaves PC unchanged and reports an unknown opcode | case labels calling DO_JUMPQ and DO_JUMPN | high (not executed) | Defects.AsWrittenOffsetJumpsIgnored | Properties.OffsetJumpIfSetAtStep |
| BlueVM/main.c:132-134 | DO_RRDIV stores the quotient, then reads `registers[reg1]` again for the remainder | 0x070001F7 with R_00 = 7, R_01 = 3 leaves R_RMDR at 2 | the remainder of the original dividend, 1 | medium (not executed) | Defects.AsWrittenDivisionAliasing | Transitions.RRDiv |
| BlueVM/main.c:132-134 | DO_RRDIV stores the quotient, then divides by `registers[reg2]` again | 0x070001F8 with R_00 = 1, R_01 = 2 computes a remainder modulo 0 | the remainder by the original divisor, 1 | medium (not executed) | Defects.AsWrittenRemainderDividesByZero | Transitions.RRDiv |
