/** What one command does: to the target, on the server, and back at the client. */
module Service {
  import opened Bytes
  import opened Messages
  import opened Codec
  import opened Limits
  import opened RoundTrip

  /** The register target interface, one operation per method that the server calls. */
  datatype Op =
    | OpRead(addr: nat)
    | OpWrite(addr: nat, data: nat)
    | OpSeqRead(start: nat, count: nat, increment: nat)
    | OpSeqWrite(start: nat, values: seq<nat>, increment: nat)
    | OpCompRead(addresses: seq<nat>)
    | OpCompWrite(pairs: seq<(nat, nat)>)
    | OpReadModifyWrite(addr: nat, data: nat, mask: nat)

  /** A target operation returns, having written some values into its output span, or throws. */
  datatype TargetResult = Done(written: seq<nat>) | Threw

  /** A configured pair of endpoints and a target that may do anything: change state, return data, throw. */
  datatype Setup<!S> = Setup(cfg: Config, max: nat, exec: (S, Op) -> (S, TargetResult))

  function OpOf(c: Command): Op {
    match c
    case ReadSingle(_, a) => OpRead(a)
    case WriteSingle(_, _, a, d) => OpWrite(a, d)
    case ReadSeq(_, a, incr, n) => OpSeqRead(a, n, incr)
    case WriteSeq(_, _, a, incr, vs) => OpSeqWrite(a, vs, incr)
    case ReadComp(_, addrs) => OpCompRead(addrs)
    case WriteComp(_, _, ps) => OpCompWrite(ps)
    case ReadModifyWrite(_, _, a, d, m) => OpReadModifyWrite(a, d, m)
  }

  /** How many values the answer to a command carries. */
  function ReadCount(c: Command): nat {
    match c
    case ReadSingle(_, _) => 1
    case ReadSeq(_, _, _, n) => n
    case ReadComp(_, addrs) => |addrs|
    case _ => 0
  }

  /** A zero-initialised span of `n` elements after the target wrote to it. */
  function Filled(n: nat, written: seq<nat>): (r: seq<nat>)
    ensures |r| == n
  {
    seq(n, i requires 0 <= i => if i < |written| then written[i] else 0)
  }

  function AckFor(c: Command, data: seq<nat>): Response
    requires |data| == ReadCount(c)
  {
    match c
    case ReadSingle(t, _) => ReadSingleAck(t, data[0])
    case WriteSingle(t, _, _, _) => WriteSingleAck(t)
    case ReadSeq(t, _, _, _) => ReadSeqAck(t, data)
    case WriteSeq(t, _, _, _, _) => WriteSeqAck(t)
    case ReadComp(t, _) => ReadCompAck(t, data)
    case WriteComp(t, _, _) => WriteCompAck(t)
    case ReadModifyWrite(t, _, _, _, _) => ReadModifyWriteAck(t)
  }

  lemma AckCarries(c: Command, data: seq<nat>)
    requires |data| == ReadCount(c)
    ensures var r := AckFor(c, data); IsAck(c, r) && r.txn == c.txn && AckData(r) == data
  {
    if c.ReadSingle? { assert data == [data[0]]; }
  }

  function NakFor(c: Command, status: nat): Response {
    match c
    case ReadSingle(t, _) => ReadSingleNak(t, status)
    case WriteSingle(t, _, _, _) => WriteSingleNak(t, status)
    case ReadSeq(t, _, _, _) => ReadSeqNak(t, status)
    case WriteSeq(t, _, _, _, _) => WriteSeqNak(t, status)
    case ReadComp(t, _) => ReadCompNak(t, status)
    case WriteComp(t, _, _) => WriteCompNak(t, status)
    case ReadModifyWrite(t, _, _, _, _) => ReadModifyWriteNak(t, status)
  }

  const TARGET_EXCEPTION: nat := 0xFD

  /** handleCmd inside its try block. */
  function Handle<S>(exec: (S, Op) -> (S, TargetResult), s: S, c: Command): (S, Response) {
    var (s', r) := exec(s, OpOf(c));
    (s', match r
         case Done(written) => AckFor(c, Filled(ReadCount(c), written))
         case Threw => NakFor(c, TARGET_EXCEPTION))
  }

  /** One round of the worker loop on a received buffer; an error escapes the loop. */
  function Serve<S>(p: Setup<S>, s: S, b: seq<byte>): (S, Result<seq<byte>>)
    requires ValidCodec(p.cfg, p.max)
  {
    match DecodedCommand(p.cfg, b)
    case Err(e) => (s, Err(e))
    case Ok(c) =>
      var (s', r) := Handle(p.exec, s, c);
      (s', EncodedResponse(p.cfg, p.max, r))
  }

  function AckData(r: Response): seq<nat> {
    match r
    case ReadSingleAck(_, d) => [d]
    case ReadSeqAck(_, vs) => vs
    case ReadCompAck(_, vs) => vs
    case _ => []
  }

  predicate IsAck(c: Command, r: Response) {
    match c
    case ReadSingle(_, _) => r.ReadSingleAck?
    case WriteSingle(_, _, _, _) => r.WriteSingleAck?
    case ReadSeq(_, _, _, _) => r.ReadSeqAck?
    case WriteSeq(_, _, _, _, _) => r.WriteSeqAck?
    case ReadComp(_, _) => r.ReadCompAck?
    case WriteComp(_, _, _) => r.WriteCompAck?
    case ReadModifyWrite(_, _, _, _, _) => r.ReadModifyWriteAck?
  }

  predicate IsNak(c: Command, r: Response) {
    match c
    case ReadSingle(_, _) => r.ReadSingleNak?
    case WriteSingle(_, _, _, _) => r.WriteSingleNak?
    case ReadSeq(_, _, _, _) => r.ReadSeqNak?
    case WriteSeq(_, _, _, _, _) => r.WriteSeqNak?
    case ReadComp(_, _) => r.ReadCompNak?
    case WriteComp(_, _, _) => r.WriteCompNak?
    case ReadModifyWrite(_, _, _, _, _) => r.ReadModifyWriteNak?
  }

  /** The visitor at the end of doCmdResp; a NAK status is narrowed to 32 bits. */
  function Classify(c: Command, r: Response): Result<seq<nat>> {
    if c.txn != r.txn then Err(ProtocolError)
    else if IsAck(c, r) then Ok(AckData(r))
    else if IsNak(c, r) then Err(OperationNak(r.status % 0x1_0000_0000))
    else Err(UnexpectedMessageType)
  }

  /** What doCmdResp makes of a received buffer. */
  function Received(cfg: Config, c: Command, b: seq<byte>): Result<seq<nat>>
    requires cfg.Valid()
  {
    var r :- DecodedResponse(cfg, b);
    Classify(c, r)
  }

  // ---------------------------------------------------------------- the reference: no wire at all

  /** Run the command directly on the target. */
  function Direct<S>(exec: (S, Op) -> (S, TargetResult), s: S, c: Command): (S, Result<seq<nat>>) {
    var (s', r) := exec(s, OpOf(c));
    (s', match r
         case Done(written) => Ok(Filled(ReadCount(c), written))
         case Threw => Err(OperationNak(TARGET_EXCEPTION)))
  }

  /** A result as it survives the data width of the wire. */
  function CutResult(cfg: Config, r: Result<seq<nat>>): Result<seq<nat>> {
    if r.Ok? then Ok(CutAll(cfg, Data, r.value)) else r
  }

  /** The command's array, if it has one, can state its length on the wire. */
  predicate CountFits(cfg: Config, c: Command) {
    ArrayCount(c) < Pow256(cfg.lenBytes)
  }

  /** Every array that an encoder accepts can state its length on the wire. */
  ghost predicate CountsFit(cfg: Config, max: nat)
    requires ValidCodec(cfg, max)
  {
    && MaxSeqWriteCount(cfg, max) < Pow256(cfg.lenBytes)
    && MaxCompReadCount(cfg, max) < Pow256(cfg.lenBytes)
    && MaxCompWriteCount(cfg, max) < Pow256(cfg.lenBytes)
  }

  /** It holds for every transport when the length field is as wide as its type. */
  lemma FullLengthFits(cfg: Config, max: nat)
    requires ValidCodec(cfg, max) && cfg.lenBytes == cfg.lenSize
    ensures CountsFit(cfg, max)
  {
  }

  lemma GuardedFits(cfg: Config, max: nat, c: Command)
    requires ValidCodec(cfg, max) && CountsFit(cfg, max) && CommandGuard(cfg, max, c)
    ensures CountFits(cfg, c)
  {
  }

  /** When a client's encoder accepts a command: its count fits LengthType, and both the command and the acknowledge
      that would answer it fit the transport. */
  lemma AcceptedExactly(cfg: Config, max: nat, c: Command, data: seq<nat>)
    requires ValidCodec(cfg, max) && |data| == ReadCount(c)
    ensures EncodedCommand(cfg, max, c).Ok?
            <==> && ReadCount(c) < Pow256(cfg.lenSize) && ArrayCount(c) < Pow256(cfg.lenSize)
                 && |CommandWire(cfg, c)| <= max && |ResponseWire(cfg, AckFor(c, data))| <= max
    ensures EncodedCommand(cfg, max, c).Err? ==> EncodedCommand(cfg, max, c).error == MessageSizeError
  {
    Pow256Mono(1, cfg.lenSize);
    CommandEncodableExactly(cfg, max, c);
    ResponseWireSize(cfg, AckFor(c, data));
  }

  function Reply<S>(p: Setup<S>, s: S, c: Command): Response {
    Handle(p.exec, s, Truncated(p.cfg, c)).1
  }

  function After<S>(p: Setup<S>, s: S, c: Command): S {
    Handle(p.exec, s, Truncated(p.cfg, c)).0
  }

  lemma CutCountBound(cfg: Config, c: Command)
    ensures ReadCount(Truncated(cfg, c)) <= ReadCount(c)
    ensures c.ReadSeq? ==> ReadCount(Truncated(cfg, c)) < Pow256(cfg.lenBytes)
    ensures !c.ReadSeq? ==> ReadCount(Truncated(cfg, c)) == ReadCount(c)
  {
    if c.ReadSeq? {
      var m, n := Pow256(cfg.lenBytes), c.count;
      if n < m { ModUnique(n, m, 0, n); }
    }
  }

  /** The reply to any command that the client's encoder accepted can be encoded, and its count fits the wire. */
  lemma ReplyEncodable<S>(p: Setup<S>, s: S, c: Command)
    requires ValidCodec(p.cfg, p.max) && CommandGuard(p.cfg, p.max, c) && CountFits(p.cfg, c)
    ensures ResponseGuard(p.cfg, p.max, Reply(p, s, c))
    ensures ResponseCount(Reply(p, s, c)) < Pow256(p.cfg.lenBytes)
    ensures Reply(p, s, c).txn == c.txn
  {
    CutCountBound(p.cfg, c);
  }

  /** Answerability: the worker loop survives every command that an equally configured client can send. */
  lemma ServeEncoded<S>(p: Setup<S>, s: S, c: Command)
    requires ValidCodec(p.cfg, p.max) && CommandGuard(p.cfg, p.max, c) && CountFits(p.cfg, c)
    ensures Serve(p, s, CommandWire(p.cfg, c)) == (After(p, s, c), Ok(ResponseWire(p.cfg, Reply(p, s, c))))
  {
    CommandRoundTrip(p.cfg, c);
    ReplyEncodable(p, s, c);
  }

  /** Without that condition the loop dies on an array whose count is cut on the wire. */
  lemma ServeOverflow<S>(p: Setup<S>, s: S, c: Command)
    requires ValidCodec(p.cfg, p.max) && !CountFits(p.cfg, c)
    ensures Serve(p, s, CommandWire(p.cfg, c)) == (s, Err(BufferSizeError))
  {
    CommandRoundTrip(p.cfg, c);
  }

  lemma StatusSurvives(cfg: Config)
    requires cfg.Valid()
    ensures Cut(cfg, Status, TARGET_EXCEPTION) % 0x1_0000_0000 == TARGET_EXCEPTION
  {
    Pow256Mono(1, cfg.dataBytes);
    assert Pow256(1) == 256;
    CutIsInRange(cfg, Status, TARGET_EXCEPTION);
  }

  lemma CutOne(cfg: Config, d: nat)
    ensures CutAll(cfg, Data, [d]) == [Cut(cfg, Data, d)]
  {
    assert [d][1..] == [];
  }

  /** The client's reading of a reply to `c'`: a protocol error unless the 8-bit ids agree. */
  lemma ReceivedId<S>(p: Setup<S>, s: S, c: Command, c': Command)
    requires ValidCodec(p.cfg, p.max) && CommandGuard(p.cfg, p.max, c') && CountFits(p.cfg, c')
    ensures Received(p.cfg, c, ResponseWire(p.cfg, Reply(p, s, c'))) == Err(ProtocolError) <==> c.txn != c'.txn
  {
    ReplyEncodable(p, s, c');
    ResponseRoundTrip(p.cfg, Reply(p, s, c'));
    TruncatedResponseCutsFields(p.cfg, Reply(p, s, c'));
  }

  /** A reply to the client's own command is read as the result of running it directly, cut to the wire width. */
  lemma ReceivedOwn<S>(p: Setup<S>, s: S, c: Command)
    requires ValidCodec(p.cfg, p.max) && CommandGuard(p.cfg, p.max, c) && CountFits(p.cfg, c)
    ensures After(p, s, c) == Direct(p.exec, s, Truncated(p.cfg, c)).0
    ensures Received(p.cfg, c, ResponseWire(p.cfg, Reply(p, s, c)))
         == CutResult(p.cfg, Direct(p.exec, s, Truncated(p.cfg, c)).1)
  {
    var c', r := Truncated(p.cfg, c), Reply(p, s, c);
    ReplyEncodable(p, s, c);
    ResponseRoundTrip(p.cfg, r);
    StatusSurvives(p.cfg);
    match p.exec(s, OpOf(c')).1
    case Done(written) =>
      var data := Filled(ReadCount(c'), written);
      ClassifyAck(p.cfg, c, c', data);
    case Threw =>
      ClassifyNak(p.cfg, c, c');
  }

  lemma ClassifyAck(cfg: Config, c: Command, c': Command, data: seq<nat>)
    requires c' == Truncated(cfg, c) && |data| == ReadCount(c')
    ensures Classify(c, TruncatedResponse(cfg, AckFor(c', data))) == Ok(CutAll(cfg, Data, data))
  {
    if c.ReadSingle? {
      CutOne(cfg, data[0]);
      assert data == [data[0]];
    }
  }

  lemma ClassifyNak(cfg: Config, c: Command, c': Command)
    requires cfg.Valid() && c' == Truncated(cfg, c)
    ensures Classify(c, TruncatedResponse(cfg, NakFor(c', TARGET_EXCEPTION))) == Err(OperationNak(TARGET_EXCEPTION))
  {
    StatusSurvives(cfg);
  }

  // ---------------------------------------------------------------- reading any reply

  predicate SameKind(c: Command, c': Command) {
    match c
    case ReadSingle(_, _) => c'.ReadSingle?
    case WriteSingle(_, _, _, _) => c'.WriteSingle?
    case ReadSeq(_, _, _, _) => c'.ReadSeq?
    case WriteSeq(_, _, _, _, _) => c'.WriteSeq?
    case ReadComp(_, _) => c'.ReadComp?
    case WriteComp(_, _, _) => c'.WriteComp?
    case ReadModifyWrite(_, _, _, _, _) => c'.ReadModifyWrite?
  }

  /** What the sender of `c` takes the reply to `c'` for: refused when the 8-bit ids differ or the kinds do, and
      otherwise the result of `c'`. */
  function Reading<S>(p: Setup<S>, s: S, c: Command, c': Command): Result<seq<nat>> {
    if c.txn != c'.txn then Err(ProtocolError)
    else if SameKind(c, c') then CutResult(p.cfg, Direct(p.exec, s, Truncated(p.cfg, c')).1)
    else Err(UnexpectedMessageType)
  }

  lemma SameReading(c: Command, c': Command, r: Response)
    requires c.txn == c'.txn && SameKind(c, c')
    ensures Classify(c, r) == Classify(c', r)
  {
  }

  lemma OtherReading(c: Command, c': Command, r: Response)
    requires c.txn == r.txn && !SameKind(c, c') && (IsAck(c', r) || IsNak(c', r))
    ensures Classify(c, r) == Err(UnexpectedMessageType)
  {
  }

  lemma ReplyKind<S>(p: Setup<S>, s: S, c: Command)
    ensures var r := TruncatedResponse(p.cfg, Reply(p, s, c)); (IsAck(c, r) || IsNak(c, r)) && r.txn == c.txn
  {
  }

  /** How any thread reads any reply. */
  lemma ReceivedAny<S>(p: Setup<S>, s: S, c: Command, c': Command)
    requires ValidCodec(p.cfg, p.max) && CommandGuard(p.cfg, p.max, c') && CountFits(p.cfg, c')
    ensures Received(p.cfg, c, ResponseWire(p.cfg, Reply(p, s, c'))) == Reading(p, s, c, c')
  {
    ReceivedId(p, s, c, c');
    if c.txn == c'.txn {
      ReplyEncodable(p, s, c');
      ResponseRoundTrip(p.cfg, Reply(p, s, c'));
      var r := TruncatedResponse(p.cfg, Reply(p, s, c'));
      ReplyKind(p, s, c');
      if SameKind(c, c') {
        SameReading(c, c', r);
        ReceivedOwn(p, s, c');
      } else {
        OtherReading(c, c', r);
      }
    }
  }

  // ---------------------------------------------------------------- the protocol as three functions

  /** All that the queues, the threads and the loop need to know of the codec, the handlers and the visitor: the bytes
      of a command or a refusal; what a round of the worker makes of a buffer; what a client makes of one. */
  datatype Protocol<!S> = Protocol(
    encode: Command -> Result<seq<byte>>,
    serve: (S, seq<byte>) -> (S, Result<seq<byte>>),
    read: (Command, seq<byte>) -> Result<seq<nat>>)

  ghost function Rap<S>(p: Setup<S>): Protocol<S>
    requires ValidCodec(p.cfg, p.max)
  {
    Protocol((c: Command) => EncodedCommand(p.cfg, p.max, c),
             (s: S, b: seq<byte>) => Serve(p, s, b),
             (c: Command, b: seq<byte>) => Received(p.cfg, c, b))
  }

  /** What a round of the worker makes of the bytes of an accepted command. */
  lemma RapServes<S>(p: Setup<S>, s: S, c: Command)
    requires ValidCodec(p.cfg, p.max) && Rap(p).encode(c).Ok?
    ensures CommandGuard(p.cfg, p.max, c) && Rap(p).encode(c).value == CommandWire(p.cfg, c)
    ensures Rap(p).serve(s, CommandWire(p.cfg, c))
         == if CountFits(p.cfg, c) then (Direct(p.exec, s, Truncated(p.cfg, c)).0, Ok(ResponseWire(p.cfg, Reply(p, s, c))))
            else (s, Err(BufferSizeError))
  {
    if CountFits(p.cfg, c) { ServeEncoded(p, s, c); } else { ServeOverflow(p, s, c); }
  }

  lemma RapEncodes<S>(p: Setup<S>, c: Command)
    requires ValidCodec(p.cfg, p.max)
    ensures Rap(p).encode(c) == if CommandGuard(p.cfg, p.max, c) then Ok(CommandWire(p.cfg, c)) else Err(MessageSizeError)
  {
  }

  lemma RapReads<S>(p: Setup<S>, c: Command, b: seq<byte>)
    requires ValidCodec(p.cfg, p.max)
    ensures Rap(p).read(c, b) == Received(p.cfg, c, b)
  {
  }
}
