/** The messages of the protocol and the wire format that every other module refers to. */
module Messages {
  import opened Bytes
  import Crc

  /** What can go wrong in the codec, the transport and the client. */
  datatype Error =
    | Malformed
    | CrcMismatch(expected: nat, actual: nat)
    | UnexpectedMessageType
    | BufferSizeError
    | MessageSizeError
    | ConstructorSizeError
    | TransportTimeout
    | ProtocolError
    | OperationNak(status: nat)

  datatype Result<+T> = Ok(value: T) | Err(error: Error) {
    predicate IsFailure() { Err? }
    function PropagateFailure<U>(): Result<U>
      requires Err?
    {
      Err(error)
    }
    function Extract(): T
      requires Ok?
    {
      value
    }
  }

  /** A configuration: bytes on the wire, the sizes of the C++ types behind them, and the feature flags. */
  datatype Config = Config(
    addrBytes: nat, addrSize: nat,
    dataBytes: nat, dataSize: nat,
    lenBytes: nat, lenSize: nat,
    crcBytes: nat,
    sequential: bool, fifo: bool, increment: bool, compressed: bool, rmw: bool)
  {
    predicate Valid() {
      && 1 <= addrBytes <= addrSize && addrSize in {1, 2, 4, 8}
      && 1 <= dataBytes <= dataSize && dataSize in {1, 2, 4, 8}
      && 1 <= lenBytes <= lenSize && lenSize in {1, 2}
      && 1 <= crcBytes <= 4
    }
  }

  datatype Command =
    | ReadSingle(txn: byte, addr: nat)
    | WriteSingle(txn: byte, posted: bool, addr: nat, data: nat)
    | ReadSeq(txn: byte, addr: nat, increment: nat, count: nat)
    | WriteSeq(txn: byte, posted: bool, addr: nat, increment: nat, values: seq<nat>)
    | ReadComp(txn: byte, addresses: seq<nat>)
    | WriteComp(txn: byte, posted: bool, pairs: seq<(nat, nat)>)
    | ReadModifyWrite(txn: byte, posted: bool, addr: nat, data: nat, mask: nat)

  datatype Response =
    | ReadSingleAck(txn: byte, data: nat)
    | WriteSingleAck(txn: byte)
    | ReadSeqAck(txn: byte, values: seq<nat>)
    | WriteSeqAck(txn: byte)
    | ReadCompAck(txn: byte, values: seq<nat>)
    | WriteCompAck(txn: byte)
    | ReadSingleNak(txn: byte, status: nat)
    | WriteSingleNak(txn: byte, status: nat)
    | ReadSeqNak(txn: byte, status: nat)
    | WriteSeqNak(txn: byte, status: nat)
    | ReadCompNak(txn: byte, status: nat)
    | WriteCompNak(txn: byte, status: nat)
    | ReadModifyWriteAck(txn: byte)
    | ReadModifyWriteNak(txn: byte, status: nat)
    | Interrupt(txn: byte, status: nat)

  function CommandType(c: Command): byte {
    match c
    case ReadSingle(_, _) => 0x01
    case WriteSingle(_, posted, _, _) => if posted then 0x51 else 0x10
    case ReadSeq(_, _, _, _) => 0x04
    case WriteSeq(_, posted, _, _, _) => if posted then 0x54 else 0x15
    case ReadComp(_, _) => 0x08
    case WriteComp(_, posted, _) => if posted then 0x58 else 0x19
    case ReadModifyWrite(_, posted, _, _, _) => if posted then 0x61 else 0x20
  }

  function ResponseType(r: Response): byte {
    match r
    case ReadSingleAck(_, _) => 0x80
    case ReadSingleNak(_, _) => 0xC1
    case WriteSingleAck(_) => 0x91
    case WriteSingleNak(_, _) => 0xD0
    case ReadSeqAck(_, _) => 0x85
    case ReadSeqNak(_, _) => 0xC4
    case WriteSeqAck(_) => 0x94
    case WriteSeqNak(_, _) => 0xD5
    case ReadCompAck(_, _) => 0x89
    case ReadCompNak(_, _) => 0xC8
    case WriteCompAck(_) => 0x98
    case WriteCompNak(_, _) => 0xD9
    case ReadModifyWriteAck(_) => 0xA1
    case ReadModifyWriteNak(_, _) => 0xE0
    case Interrupt(_, _) => 0xB0
  }

  // ---------------------------------------------------------------- fields

  datatype Kind = Addr | Data | Mask | Status | Incr | Count
  datatype Field = Field(kind: Kind, value: nat)

  function Width(cfg: Config, k: Kind): nat {
    match k
    case Addr => cfg.addrBytes
    case Data => cfg.dataBytes
    case Mask => cfg.dataBytes
    case Status => cfg.dataBytes
    case Incr => cfg.lenBytes
    case Count => cfg.lenBytes
  }

  function Each(k: Kind, vs: seq<nat>): (fs: seq<Field>)
    ensures |fs| == |vs|
  {
    if vs == [] then [] else [Field(k, vs[0])] + Each(k, vs[1..])
  }

  function EachPair(ps: seq<(nat, nat)>): (fs: seq<Field>)
    ensures |fs| == 2 * |ps|
  {
    if ps == [] then [] else [Field(Addr, ps[0].0), Field(Data, ps[0].1)] + EachPair(ps[1..])
  }

  /** The payload of a command, field by field in wire order. */
  function CommandFields(c: Command): seq<Field> {
    match c
    case ReadSingle(_, a) => [Field(Addr, a)]
    case WriteSingle(_, _, a, d) => [Field(Addr, a), Field(Data, d)]
    case ReadSeq(_, a, incr, n) => [Field(Addr, a), Field(Incr, incr), Field(Count, n)]
    case WriteSeq(_, _, a, incr, vs) => [Field(Addr, a), Field(Incr, incr), Field(Count, |vs|)] + Each(Data, vs)
    case ReadComp(_, addrs) => [Field(Count, |addrs|)] + Each(Addr, addrs)
    case WriteComp(_, _, ps) => [Field(Count, |ps|)] + EachPair(ps)
    case ReadModifyWrite(_, _, a, d, m) => [Field(Addr, a), Field(Data, d), Field(Mask, m)]
  }

  function ResponseFields(r: Response): seq<Field> {
    match r
    case ReadSingleAck(_, d) => [Field(Data, d)]
    case ReadSeqAck(_, vs) => [Field(Count, |vs|)] + Each(Data, vs)
    case ReadCompAck(_, vs) => [Field(Count, |vs|)] + Each(Data, vs)
    case WriteSingleAck(_) => []
    case WriteSeqAck(_) => []
    case WriteCompAck(_) => []
    case ReadModifyWriteAck(_) => []
    case ReadSingleNak(_, s) => [Field(Status, s)]
    case WriteSingleNak(_, s) => [Field(Status, s)]
    case ReadSeqNak(_, s) => [Field(Status, s)]
    case WriteSeqNak(_, s) => [Field(Status, s)]
    case ReadCompNak(_, s) => [Field(Status, s)]
    case WriteCompNak(_, s) => [Field(Status, s)]
    case ReadModifyWriteNak(_, s) => [Field(Status, s)]
    case Interrupt(_, s) => [Field(Status, s)]
  }

  // ---------------------------------------------------------------- frames

  function Ser(cfg: Config, fs: seq<Field>): seq<byte> {
    if fs == [] then [] else LE(fs[0].value, Width(cfg, fs[0].kind)) + Ser(cfg, fs[1..])
  }

  /** A frame: transaction id, type, payload, and the CRC of all of them. */
  function Frame(cfg: Config, txn: byte, msgType: byte, payload: seq<byte>): seq<byte>
    requires cfg.Valid()
  {
    Sealed(cfg, [txn, msgType] + payload)
  }

  function Sealed(cfg: Config, body: seq<byte>): seq<byte>
    requires cfg.Valid()
  {
    body + LE(Crc.Calculate(cfg.crcBytes, body), cfg.crcBytes)
  }

  function CommandWire(cfg: Config, c: Command): seq<byte>
    requires cfg.Valid()
  {
    Frame(cfg, c.txn, CommandType(c), Ser(cfg, CommandFields(c)))
  }

  function ResponseWire(cfg: Config, r: Response): seq<byte>
    requires cfg.Valid()
  {
    Frame(cfg, r.txn, ResponseType(r), Ser(cfg, ResponseFields(r)))
  }

  predicate InRange(cfg: Config, fs: seq<Field>) {
    forall i :: 0 <= i < |fs| ==> fs[i].value < Pow256(Width(cfg, fs[i].kind))
  }

  // ---------------------------------------------------------------- truncation

  function Cut(cfg: Config, k: Kind, v: nat): nat {
    v % Pow256(Width(cfg, k))
  }

  function CutAll(cfg: Config, k: Kind, vs: seq<nat>): (r: seq<nat>)
    ensures |r| == |vs|
  {
    if vs == [] then [] else [Cut(cfg, k, vs[0])] + CutAll(cfg, k, vs[1..])
  }

  function CutPairs(cfg: Config, ps: seq<(nat, nat)>): (r: seq<(nat, nat)>)
    ensures |r| == |ps|
  {
    if ps == [] then [] else [(Cut(cfg, Addr, ps[0].0), Cut(cfg, Data, ps[0].1))] + CutPairs(cfg, ps[1..])
  }

  /** The command that the bytes of `c` stand for: every value reduced to its wire width. */
  function Truncated(cfg: Config, c: Command): Command {
    match c
    case ReadSingle(t, a) => ReadSingle(t, Cut(cfg, Addr, a))
    case WriteSingle(t, p, a, d) => WriteSingle(t, p, Cut(cfg, Addr, a), Cut(cfg, Data, d))
    case ReadSeq(t, a, incr, n) => ReadSeq(t, Cut(cfg, Addr, a), Cut(cfg, Incr, incr), Cut(cfg, Count, n))
    case WriteSeq(t, p, a, incr, vs) => WriteSeq(t, p, Cut(cfg, Addr, a), Cut(cfg, Incr, incr), CutAll(cfg, Data, vs))
    case ReadComp(t, addrs) => ReadComp(t, CutAll(cfg, Addr, addrs))
    case WriteComp(t, p, ps) => WriteComp(t, p, CutPairs(cfg, ps))
    case ReadModifyWrite(t, p, a, d, m) => ReadModifyWrite(t, p, Cut(cfg, Addr, a), Cut(cfg, Data, d), Cut(cfg, Mask, m))
  }

  function TruncatedResponse(cfg: Config, r: Response): Response {
    match r
    case ReadSingleAck(t, d) => ReadSingleAck(t, Cut(cfg, Data, d))
    case ReadSeqAck(t, vs) => ReadSeqAck(t, CutAll(cfg, Data, vs))
    case ReadCompAck(t, vs) => ReadCompAck(t, CutAll(cfg, Data, vs))
    case ReadSingleNak(t, s) => ReadSingleNak(t, Cut(cfg, Status, s))
    case WriteSingleNak(t, s) => WriteSingleNak(t, Cut(cfg, Status, s))
    case ReadSeqNak(t, s) => ReadSeqNak(t, Cut(cfg, Status, s))
    case WriteSeqNak(t, s) => WriteSeqNak(t, Cut(cfg, Status, s))
    case ReadCompNak(t, s) => ReadCompNak(t, Cut(cfg, Status, s))
    case WriteCompNak(t, s) => WriteCompNak(t, Cut(cfg, Status, s))
    case ReadModifyWriteNak(t, s) => ReadModifyWriteNak(t, Cut(cfg, Status, s))
    case Interrupt(t, s) => Interrupt(t, Cut(cfg, Status, s))
    case WriteSingleAck(_) => r
    case WriteSeqAck(_) => r
    case WriteCompAck(_) => r
    case ReadModifyWriteAck(_) => r
  }

  /** The length of the array a command carries; 0 when it carries none. */
  function ArrayCount(c: Command): nat {
    match c
    case WriteSeq(_, _, _, _, vs) => |vs|
    case ReadComp(_, addrs) => |addrs|
    case WriteComp(_, _, ps) => |ps|
    case _ => 0
  }

  function ResponseCount(r: Response): nat {
    match r
    case ReadSeqAck(_, vs) => |vs|
    case ReadCompAck(_, vs) => |vs|
    case _ => 0
  }
}
