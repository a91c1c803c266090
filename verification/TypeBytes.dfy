/** The law behind the type bytes: direction, variant, operation and parity, each in bits of its own. */
module TypeBytes {
  import opened Bytes
  import opened Messages
  import opened Service

  predicate Posted(c: Command) {
    match c
    case WriteSingle(_, posted, _, _) => posted
    case WriteSeq(_, posted, _, _, _) => posted
    case WriteComp(_, posted, _) => posted
    case ReadModifyWrite(_, posted, _, _, _) => posted
    case _ => false
  }

  predicate CarriesStatus(r: Response) {
    r.ReadSingleNak? || r.WriteSingleNak? || r.ReadSeqNak? || r.WriteSeqNak? || r.ReadCompNak? || r.WriteCompNak?
    || r.ReadModifyWriteNak? || r.Interrupt?
  }

  /** A type byte: direction in bit 7, variant in bit 6, operation in bits 5 to 2, and bit 0 so that the number of ones
      is odd. The set holds the four-bit numbers with an odd number of ones. */
  function TypeByte(response: bool, variant: bool, operation: nat): nat {
    var odd := (response != variant) != (operation in {1, 2, 4, 7, 8, 11, 13, 14});
    128 * Bit(response) + 64 * Bit(variant) + 4 * operation + Bit(!odd)
  }

  function Bit(b: bool): nat {
    if b then 1 else 0
  }

  lemma Fields(d: nat, v: nat, op: nat, p: nat)
    requires d < 2 && v < 2 && op < 16 && p < 2
    ensures var t := 128 * d + 64 * v + 4 * op + p; t / 128 == d && t / 64 % 2 == v && t / 4 % 16 == op
  {
    var t := 128 * d + 64 * v + 4 * op + p;
    assert t / 64 == 2 * d + v && t / 4 == 16 * (2 * d + v) + op;
    ModUnique(t / 64, 2, d, v);
    ModUnique(t / 4, 16, 2 * d + v, op);
  }

  lemma TypeByteFields(response: bool, variant: bool, operation: nat)
    requires operation < 16
    ensures var t := TypeByte(response, variant, operation);
      t / 128 == Bit(response) && t / 64 % 2 == Bit(variant) && t / 4 % 16 == operation
  {
    var odd := (response != variant) != (operation in {1, 2, 4, 7, 8, 11, 13, 14});
    Fields(Bit(response), Bit(variant), operation, Bit(!odd));
  }

  /** The operation that a command asks for, as a number. */
  function Asked(c: Command): nat {
    match c
    case ReadSingle(_, _) => 0
    case ReadSeq(_, _, _, _) => 1
    case ReadComp(_, _) => 2
    case WriteSingle(_, _, _, _) => 4
    case WriteSeq(_, _, _, _, _) => 5
    case WriteComp(_, _, _) => 6
    case ReadModifyWrite(_, _, _, _, _) => 8
  }

  /** The operation that a response answers; no command asks for an interrupt. */
  function Answered(r: Response): nat {
    if r.ReadSingleAck? || r.ReadSingleNak? then 0
    else if r.ReadSeqAck? || r.ReadSeqNak? then 1
    else if r.ReadCompAck? || r.ReadCompNak? then 2
    else if r.WriteSingleAck? || r.WriteSingleNak? then 4
    else if r.WriteSeqAck? || r.WriteSeqNak? then 5
    else if r.WriteCompAck? || r.WriteCompNak? then 6
    else if r.ReadModifyWriteAck? || r.ReadModifyWriteNak? then 8
    else 12
  }

  /** A command's bit 7 is clear, and bit 6 says posted. */
  lemma CommandTypeLaw(c: Command)
    ensures CommandType(c) == TypeByte(false, Posted(c), Asked(c))
  {
  }

  /** A response's bit 7 is set, and bit 6 says NAK; its operation is that of the command it answers. */
  lemma ResponseTypeLaw(r: Response)
    ensures ResponseType(r) == TypeByte(true, CarriesStatus(r) && !r.Interrupt?, Answered(r))
  {
  }

  lemma TakenByKind(c: Command, r: Response)
    ensures IsAck(c, r) <==> Answered(r) == Asked(c) && !CarriesStatus(r)
    ensures IsNak(c, r) <==> Answered(r) == Asked(c) && CarriesStatus(r)
  {
  }

  /** How the client takes any response, by its type byte: an error unless the ids agree and the operation is the
      command's; then bit 6 tells data from the status of a NAK, which is cut to 32 bits. */
  lemma TakenByType(c: Command, r: Response)
    ensures var t := ResponseType(r);
      && (c.txn != r.txn ==> Classify(c, r) == Err(ProtocolError))
      && (c.txn == r.txn && t / 4 % 16 != CommandType(c) / 4 % 16 ==> Classify(c, r) == Err(UnexpectedMessageType))
      && (c.txn == r.txn && t / 4 % 16 == CommandType(c) / 4 % 16 && t / 64 % 2 == 0 ==>
            Classify(c, r) == Ok(AckData(r)))
      && (c.txn == r.txn && t / 4 % 16 == CommandType(c) / 4 % 16 && t / 64 % 2 == 1 ==>
            CarriesStatus(r) && Classify(c, r) == Err(OperationNak(r.status % 0x1_0000_0000)))
  {
    CommandTypeLaw(c);
    ResponseTypeLaw(r);
    TypeByteFields(false, Posted(c), Asked(c));
    TypeByteFields(true, CarriesStatus(r) && !r.Interrupt?, Answered(r));
    TakenByKind(c, r);
  }
}
