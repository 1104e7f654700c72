/** The register file of the machine: twenty unsigned 32-bit slots,
    sixteen general-purpose ones followed by four special-purpose ones.
    Values are integers in [0, 2^32); every wrap-around of C's `uint32_t`
    arithmetic is written out below. */
module Registers {

  /** 2^32: the number of distinct `uint32_t` values. */
  const WORD_MOD: int := 0x1_0000_0000

  /** An unsigned 32-bit value (`uint32_t`). */
  type Word = x: int | 0 <= x < 0x1_0000_0000

  /** An unsigned 8-bit value (`uint8_t`, one byte of an instruction word). */
  type Byte = x: int | 0 <= x < 0x100

  /** An unsigned 16-bit value (`uint16_t`, the immediate of an instruction word). */
  type Imm16 = x: int | 0 <= x < 0x1_0000

  // Register numbers, in the order of the register enum.
  const R_00: int := 0
  const R_01: int := 1
  const R_02: int := 2
  const R_07: int := 7
  /** Program counter. */
  const R_PC: int := 16
  /** Remainder of the most recent division. */
  const R_RMDR: int := 17
  /** Conditional flag, written by the two-operand comparisons. */
  const R_COND: int := 18
  /** Three-way comparison result. */
  const R_COMP: int := 19
  /** Number of registers. */
  const R_COUNT: int := 20

  /** A register number that indexes the register file. */
  type RegIndex = r: int | 0 <= r < 20

  /** The whole register file. */
  type Regs = s: seq<Word> | |s| == 20 witness [0, 0, 0, 0, 0, 0, 0, 0, 0, 0, 0, 0, 0, 0, 0, 0, 0, 0, 0, 0]

  /** An operand field names a register only when it is below R_COUNT. */
  predicate IsReg(field: int) {
    0 <= field < R_COUNT
  }

  /** The register file as the program starts: every slot zero. */
  function Zeros(): (s: Regs)
    ensures forall k :: 0 <= k < R_COUNT ==> s[k] == 0
  {
    seq(20, _ => 0)
  }

  /** `t` agrees with `s` on every register outside `written`. */
  predicate UnchangedExcept(s: Regs, t: Regs, written: set<int>) {
    forall k :: 0 <= k < R_COUNT && k !in written ==> t[k] == s[k]
  }

  /** Zero-extension of a 16-bit value to 32 bits: the low half carries the
      value, the high half is zero. */
  function ZExt16(x: Imm16): (r: Word)
    ensures r % 0x1_0000 == x && r / 0x1_0000 == 0
  {
    x
  }

  /** Zero-extension of an 8-bit value to 32 bits: the low byte carries the
      value, the upper three bytes are zero. */
  function ZExt8(x: Byte): (r: Word)
    ensures r % 0x100 == x && r / 0x100 == 0
  {
    x
  }

  /** `uint32_t` addition: the sum wraps once past 2^32. */
  function Add32(a: Word, b: Word): (r: Word)
    ensures r == (a + b) % WORD_MOD
    ensures a + b < WORD_MOD ==> r == a + b
  {
    if a + b < WORD_MOD then a + b else a + b - WORD_MOD
  }

  /** `uint32_t` subtraction: a negative difference wraps once below zero. */
  function Sub32(a: Word, b: Word): (r: Word)
    ensures r == (a - b) % WORD_MOD
    ensures b <= a ==> r == a - b
  {
    if b <= a then a - b else a - b + WORD_MOD
  }

  /** `uint32_t` multiplication: the product modulo 2^32. */
  function Mul32(a: Word, b: Word): (r: Word)
    ensures (a * b - r) % WORD_MOD == 0
    ensures a * b < WORD_MOD ==> r == a * b
  {
    var p := a * b;
    WrapFacts(p);
    p % WORD_MOD
  }

  /** Reducing a natural number modulo 2^32 removes a multiple of 2^32 and
      changes nothing below 2^32. */
  lemma WrapFacts(p: nat)
    ensures (p - p % WORD_MOD) % WORD_MOD == 0
    ensures p < WORD_MOD ==> p % WORD_MOD == p
  {
    var q := p / WORD_MOD;
    assert p - p % WORD_MOD == q * WORD_MOD;
  }

  /** Euclidean division: quotient and remainder rebuild the dividend, and the
      remainder is below the divisor. */
  lemma DivMod(n: int, d: int)
    requires 0 <= n && 0 < d
    ensures (n / d) * d + n % d == n
    ensures 0 <= n % d < d
    ensures 0 <= n / d <= n
  {
    var q, r := n / d, n % d;
    assert q * d + r == n;
    AtMostProduct(q, d);
  }

  /** A natural number is at most its product with a positive factor. */
  lemma {:induction false} AtMostProduct(q: nat, d: int)
    requires 1 <= d
    ensures q <= q * d
  {
    assert q * d == q + q * (d - 1);
  }

  /** Subtracting what was added gives back the original value. */
  lemma SubUndoesAdd(a: Word, b: Word)
    ensures Sub32(Add32(a, b), b) == a
  {
  }
}
