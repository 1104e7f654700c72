/** The opcode enumeration and the status an execution reports. */
module Opcodes {
  import opened Registers

  datatype Option<T> = None | Some(value: T)

  /** One constructor per entry of the opcode enum, in its order. */
  datatype Opcode =
    | NTHNG | CEASE | ILEGL
    | RLOAD | RRADD | RRSUB | RRMUX | RRDIV
    | JUMPA | JUMPF | JUMPB | RJMPA | RJMPF | RJMPB
    | RREQL | RRNQL | RRGTE | RRLTE | RRCMP
    | RJMPQ | RJMPN | JUMPQ | JUMPN
    | RRGTX | RRLTX

  /** Number of enumerated opcodes (`OP_COUNT`). */
  const OP_COUNT: int := 25

  /** The numeric value the enum gives each opcode. */
  function Code(o: Opcode): (b: Byte)
    ensures b < OP_COUNT
  {
    match o
    case NTHNG => 0
    case CEASE => 1
    case ILEGL => 2
    case RLOAD => 3
    case RRADD => 4
    case RRSUB => 5
    case RRMUX => 6
    case RRDIV => 7
    case JUMPA => 8
    case JUMPF => 9
    case JUMPB => 10
    case RJMPA => 11
    case RJMPF => 12
    case RJMPB => 13
    case RREQL => 14
    case RRNQL => 15
    case RRGTE => 16
    case RRLTE => 17
    case RRCMP => 18
    case RJMPQ => 19
    case RJMPN => 20
    case JUMPQ => 21
    case JUMPN => 22
    case RRGTX => 23
    case RRLTX => 24
  }

  /** The enum entries in numeric order. */
  const Table: seq<Opcode> :=
    [NTHNG, CEASE, ILEGL, RLOAD, RRADD, RRSUB, RRMUX, RRDIV, JUMPA, JUMPF, JUMPB, RJMPA, RJMPF,
     RJMPB, RREQL, RRNQL, RRGTE, RRLTE, RRCMP, RJMPQ, RJMPN, JUMPQ, JUMPN, RRGTX, RRLTX]

  /** The enum entry with the given value, if the enum has one. */
  function OpcodeOf(b: Byte): (r: Option<Opcode>)
    ensures r.Some? <==> b < OP_COUNT
    ensures r.Some? ==> Code(r.value) == b
  {
    if b < OP_COUNT then Some(Table[b]) else None
  }

  /** Every opcode is found again from its value. */
  lemma OpcodeOfCode(o: Opcode)
    ensures OpcodeOf(Code(o)) == Some(o)
  {
  }

  /** What one execution reports. The source prints these conditions; the
      model returns them. */
  datatype Status =
    | Continue
    | UnknownOpcode(op: Byte)
    | DivisionByZero
    | InvalidRegister
}
