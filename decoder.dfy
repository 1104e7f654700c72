/** Bit-field extraction from a 32-bit instruction word.

    | bits 31-24 | bits 23-16 | bits 15-8 | bits 7-0 |
    |   opcode   |  field A   |  field B  | field C  |

    The 16-bit immediate is the lower half, fields B and C together. A right
    shift of an unsigned value by n bits is division by 2^n; a mask of the
    low n bits is the remainder modulo 2^n. */
module Decoder {
  import opened Registers

  /** The fields of one instruction word. */
  datatype Decoded = Decoded(opcode: Byte, fieldA: Byte, fieldB: Byte, fieldC: Byte, imm16: Imm16)

  /** Decoding never fails: every word splits into four bytes that give it back,
      and the immediate is the lower two of them. */
  function Decode(instr: Word): (d: Decoded)
    ensures instr == d.opcode * 0x100_0000 + d.fieldA * 0x1_0000 + d.fieldB * 0x100 + d.fieldC
    ensures d.imm16 == d.fieldB * 0x100 + d.fieldC
  {
    Decoded(instr / 0x100_0000,          // instr >> 24
            instr / 0x1_0000 % 0x100,    // (instr >> 16) & 0xFF
            instr / 0x100 % 0x100,       // (instr >> 8) & 0xFF
            instr % 0x100,               // the low byte, the DR of the layout comments
            instr % 0x1_0000)            // instr & 0xFFFF
  }

  /** The word with the given four bytes, most significant first. */
  function Encode(opcode: Byte, a: Byte, b: Byte, c: Byte): (instr: Word) {
    opcode * 0x100_0000 + a * 0x1_0000 + b * 0x100 + c
  }

  /** The destination register as the three-register cases compute it:
      `instr % 0xFF`, the remainder modulo 255, not the low byte. */
  function DestAsWritten(instr: Word): (dr: int)
    ensures 0 <= dr < 0xFF
  {
    instr % 0xFF
  }

  /** Two base-256 digit strings denote the same number only when they are equal. */
  lemma DigitsUnique(o: Byte, a: Byte, b: Byte, c: Byte, o': Byte, a': Byte, b': Byte, c': Byte)
    requires o * 0x100_0000 + a * 0x1_0000 + b * 0x100 + c == o' * 0x100_0000 + a' * 0x1_0000 + b' * 0x100 + c'
    ensures o == o' && a == a' && b == b' && c == c'
  {
  }

  /** Decoding an encoded word gives back the bytes it was built from. */
  lemma DecodeEncode(opcode: Byte, a: Byte, b: Byte, c: Byte)
    ensures Decode(Encode(opcode, a, b, c)) == Decoded(opcode, a, b, c, b * 0x100 + c)
  {
    var d := Decode(Encode(opcode, a, b, c));
    DigitsUnique(d.opcode, d.fieldA, d.fieldB, d.fieldC, opcode, a, b, c);
  }

  /** Encoding the decoded bytes gives back the word. */
  lemma EncodeDecode(instr: Word)
    ensures var d := Decode(instr); Encode(d.opcode, d.fieldA, d.fieldB, d.fieldC) == instr
  {
  }

  /** Since 256 leaves remainder 1 modulo 255, `instr % 0xFF` is the sum of
      the word's four bytes modulo 255: it depends on every byte, the opcode
      included, and not on the low byte alone. */
  lemma DestAsWrittenIsByteSum(instr: Word)
    ensures var d := Decode(instr);
            DestAsWritten(instr) == (d.opcode + d.fieldA + d.fieldB + d.fieldC) % 0xFF
  {
    var d := Decode(instr);
    var k := d.opcode * 65793 + d.fieldA * 257 + d.fieldB;
    var sum := d.opcode + d.fieldA + d.fieldB + d.fieldC;
    assert instr == 0xFF * k + sum;
    ModOfMultiplePlus(k, sum);
  }

  /** Adding a multiple of 255 does not change the remainder modulo 255. */
  lemma ModOfMultiplePlus(k: nat, m: nat)
    ensures (0xFF * k + m) % 0xFF == m % 0xFF
  {
    var q, r := m / 0xFF, m % 0xFF;
    assert 0xFF * k + m == 0xFF * (k + q) + r;
  }
}
