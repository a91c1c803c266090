/** The client: ids, the exchange of one command for one response, and the nine operations built on it. */
module RegisterTarget {
  import opened Bytes
  import opened Messages
  import opened Codec
  import opened Limits
  import opened Service
  import opened Transports
  import opened ServerAdapter
  import opened Client
  import opened Operations
  import Serdes

  // ---------------------------------------------------------------- the shape of a single read

  predicate One(r: Result<seq<nat>>) {
    r.Ok? ==> |r.value| == 1
  }

  lemma SingleValue(cfg: Config, c: Command, b: seq<byte>)
    requires cfg.Valid() && c.ReadSingle?
    ensures One(Received(cfg, c, b))
  {
    match DecodedResponse(cfg, b)
    case Ok(r) => SingleAck(c, r);
    case Err(_) =>
  }

  lemma SingleAck(c: Command, r: Response)
    requires c.ReadSingle?
    ensures One(Classify(c, r))
  {
  }

  lemma SingleExchange<S>(p: Setup<S>, w: World<S>, c: Command, turns: nat)
    requires ValidCodec(p.cfg, p.max) && c.ReadSingle?
    ensures One(Exchange(Rap(p), w, c, turns).1)
  {
    RapEncodes(p, c);
    SingleCollected(p, Rounds(Rap(p).serve, Arrive(w, [CommandWire(p.cfg, c)]), turns), c);
  }

  lemma SingleCollected<S>(p: Setup<S>, w: World<S>, c: Command)
    requires ValidCodec(p.cfg, p.max) && c.ReadSingle?
    ensures One(Collected(Rap(p), w, c).1)
  {
    if w.respQ != [] {
      SingleValue(p.cfg, c, w.respQ[0]);
      RapReads(p, c, w.respQ[0]);
    }
  }

  // ---------------------------------------------------------------- the client

  class RapRegisterTarget {
    const transport: PairedIpcTransport
    const serdes: Serdes.Serdes
    var nextTxnId: byte

    constructor (t: PairedIpcTransport, s: Serdes.Serdes)
      requires s.Valid() && s.maxMessageSize == t.GetMaxMessageSize()
      ensures transport == t && serdes == s && nextTxnId == 0
    {
      transport := t;
      serdes := s;
      nextTxnId := 0;
    }

    /** Construction as callers see it: the codec takes its size from the transport, and may throw. */
    static method Create(t: PairedIpcTransport, cfg: Config) returns (r: Result<RapRegisterTarget>)
      requires cfg.Valid()
      ensures r.Ok? <==> t.GetMaxMessageSize() >= 32
      ensures r.Ok? ==> fresh(r.value) && r.value.transport == t && r.value.nextTxnId == 0 && r.value.serdes.Valid()
      ensures r.Ok? ==> r.value.serdes.cfg == cfg && r.value.serdes.maxMessageSize == t.GetMaxMessageSize()
      ensures r.Err? ==> r.error == ConstructorSizeError
    {
      var s :- Serdes.Serdes.Create(cfg, t.GetMaxMessageSize());
      var client := new RapRegisterTarget(t, s);
      return Ok(client);
    }

    /** The two ends of one pair of queues, with one configuration. */
    ghost predicate Connected<S>(server: RapServerAdapter<S>) {
      && server.Valid() && serdes.Valid()
      && transport.txQueue == server.transport.rxQueue && transport.rxQueue == server.transport.txQueue
      && serdes.cfg == server.p.cfg && serdes.maxMessageSize == server.p.max
    }

    /** fetch_add on an 8-bit counter. */
    method GetNextTxnId() returns (id: byte)
      modifies this
      ensures id == old(nextTxnId) && nextTxnId == (old(nextTxnId) + 1) % 256
    {
      id := nextTxnId;
      nextTxnId := (nextTxnId + 1) % 256;
    }

    /** Which increments the far side supports. */
    predicate CheckIFS(increment: nat)
      ensures CheckIFS(increment) <==>
                serdes.cfg.increment || (serdes.cfg.fifo && increment == 0)
                || (serdes.cfg.sequential && increment == serdes.cfg.dataSize)
    {
      if serdes.cfg.increment then true
      else if increment == 0 && serdes.cfg.fifo then true
      else increment == serdes.cfg.dataSize && serdes.cfg.sequential
    }

    method DoCmdResp<S>(c: Command, server: RapServerAdapter<S>, turns: nat) returns (r: Result<seq<nat>>)
      requires Connected(server)
      modifies server, transport.txQueue, transport.rxQueue
      ensures (server.View(), r) == Exchange(Rap(server.p), old(server.View()), c, turns)
    {
      var b := serdes.EncodeCommand(c);
      if b.Err? { return Err(b.error); }
      transport.Send(b.value);
      server.WorkFor(turns);
      r := Collect(c, server);
    }

    method DoReadSingle<S>(c: Command, server: RapServerAdapter<S>, turns: nat) returns (r: Result<seq<nat>>)
      requires Connected(server) && c.ReadSingle?
      modifies server, transport.txQueue, transport.rxQueue
      ensures (server.View(), r) == Exchange(Rap(server.p), old(server.View()), c, turns) && One(r)
    {
      SingleExchange(server.p, server.View(), c, turns);
      r := DoCmdResp(c, server, turns);
    }

    /** Receive, decode, and visit the response. */
    method Collect<S>(c: Command, ghost server: RapServerAdapter<S>) returns (r: Result<seq<nat>>)
      requires Connected(server)
      modifies transport.rxQueue
      ensures (server.View(), r) == Collected(Rap(server.p), old(server.View()), c)
    {
      var b := transport.Recv();
      if b.Err? { return Err(TransportTimeout); }
      var resp := serdes.DecodeResponse(b.value);
      if resp.Err? { return Err(resp.error); }
      r := Visit(c, resp.value);
    }

    method Visit(c: Command, resp: Response) returns (r: Result<seq<nat>>)
      ensures r == Classify(c, resp)
    {
      if c.txn != resp.txn {
        return Err(ProtocolError);
      }
      if IsAck(c, resp) {
        return Ok(AckData(resp));
      } else if IsNak(c, resp) {
        return Err(OperationNak(resp.status % 0x1_0000_0000));
      }
      return Err(UnexpectedMessageType);
    }

    method Write<S>(addr: nat, data: nat, server: RapServerAdapter<S>, turns: nat)
      returns (r: Ending<()>)
      requires Connected(server)
      modifies this, server, transport.txQueue, transport.rxQueue
      ensures nextTxnId == (old(nextTxnId) + 1) % 256
      ensures var c := WriteSingle(old(nextTxnId), false, addr, data);
              var (w, res) := Exchange(Rap(server.p), old(server.View()), c, turns);
              server.View() == w && (res.Ok? ==> r == Returned(())) && (res.Err? ==> r == Raised(res.error))
      ensures old(AtRest(server.View())) && turns >= 1 ==>
                var op := OpWrite(addr % Pow256(server.p.cfg.addrBytes), data % Pow256(server.p.cfg.dataBytes));
                var (target, d) := server.p.exec(old(server.target), op);
                && server.View() == World([], [], target, true)
                && r == if d.Done? then Returned(()) else Raised(OperationNak(0xFD))
    {
      ghost var w := server.View();
      var txn := GetNextTxnId();
      var res := DoCmdResp(WriteSingle(txn, false, addr, data), server, turns);
      ghost var op := OpWrite(addr % Pow256(server.p.cfg.addrBytes), data % Pow256(server.p.cfg.dataBytes));
      ghost var (target, d) := server.p.exec(w.target, op);
      if AtRest(w) && turns >= 1 {
        WriteReaches(server.p, w, txn, addr, data, turns);
      }
      if res.Err? { return Raised(res.error); }
      return Returned(());
    }

    method Read<S>(addr: nat, server: RapServerAdapter<S>, turns: nat) returns (r: Ending<nat>)
      requires Connected(server)
      modifies this, server, transport.txQueue, transport.rxQueue
      ensures nextTxnId == (old(nextTxnId) + 1) % 256
      ensures var (w, res) := Exchange(Rap(server.p), old(server.View()), ReadSingle(old(nextTxnId), addr), turns);
              server.View() == w && (res.Ok? <==> r.Returned?) && (res.Ok? ==> res.value == [r.value])
              && (res.Err? ==> r == Raised(res.error))
      ensures old(AtRest(server.View())) && turns >= 1 ==>
                var (target, d) := server.p.exec(old(server.target), OpRead(addr % Pow256(server.p.cfg.addrBytes)));
                && server.View() == World([], [], target, true)
                && r == if d.Threw? then Raised(OperationNak(0xFD))
                        else Returned((if d.written == [] then 0 else d.written[0]) % Pow256(server.p.cfg.dataBytes))
    {
      ghost var w := server.View();
      var txn := GetNextTxnId();
      var res := DoReadSingle(ReadSingle(txn, addr), server, turns);
      ghost var op := OpRead(addr % Pow256(server.p.cfg.addrBytes));
      ghost var (target, d) := server.p.exec(w.target, op);
      if AtRest(w) && turns >= 1 { ReadReaches(server.p, w, txn, addr, turns); }
      if res.Err? { return Raised(res.error); }
      return Returned(res.value[0]);
    }

    method ReadModifyWrite<S>(addr: nat, data: nat, mask: nat, server: RapServerAdapter<S>, turns: nat)
      returns (r: Ending<()>)
      requires Connected(server)
      modifies this, server, transport.txQueue, transport.rxQueue
      ensures !serdes.cfg.rmw ==>
                r == Delegated && nextTxnId == old(nextTxnId) && server.View() == old(server.View())
      ensures serdes.cfg.rmw ==> nextTxnId == (old(nextTxnId) + 1) % 256
      ensures var c := Command.ReadModifyWrite(old(nextTxnId), false, addr, data, mask);
              var (w, res) := Exchange(Rap(server.p), old(server.View()), c, turns);
              serdes.cfg.rmw ==>
                server.View() == w && (res.Ok? ==> r == Returned(())) && (res.Err? ==> r == Raised(res.error))
      ensures serdes.cfg.rmw && old(AtRest(server.View())) && turns >= 1 ==>
                var op := OpReadModifyWrite(addr % Pow256(server.p.cfg.addrBytes),
                                    data % Pow256(server.p.cfg.dataBytes), mask % Pow256(server.p.cfg.dataBytes));
                var (target, d) := server.p.exec(old(server.target), op);
                && server.View() == World([], [], target, true)
                && r == if d.Done? then Returned(()) else Raised(OperationNak(0xFD))
    {
      if !serdes.cfg.rmw {
        return Delegated;
      }
      ghost var w := server.View();
      var txn := GetNextTxnId();
      var res := DoCmdResp(Command.ReadModifyWrite(txn, false, addr, data, mask), server, turns);
      ghost var op := OpReadModifyWrite(addr % Pow256(server.p.cfg.addrBytes),
                          data % Pow256(server.p.cfg.dataBytes), mask % Pow256(server.p.cfg.dataBytes));
      ghost var (target, d) := server.p.exec(w.target, op);
      if AtRest(w) && turns >= 1 {
        ReadModifyWriteReaches(server.p, w, txn, addr, data, mask, turns);
      }
      if res.Err? { return Raised(res.error); }
      return Returned(());
    }

    method SeqWrite<S>(addr: nat, data: seq<nat>, increment: nat, server: RapServerAdapter<S>, turns: nat)
      returns (r: Ending<()>)
      requires Connected(server)
      modifies this, server, transport.txQueue, transport.rxQueue
      ensures !CheckIFS(increment) ==>
                r == Delegated && nextTxnId == old(nextTxnId) && server.View() == old(server.View())
      ensures CheckIFS(increment) ==> nextTxnId == (old(nextTxnId) + 1) % 256
      ensures var c := WriteSeq(old(nextTxnId), false, addr, Narrow(serdes.cfg, increment), data);
              var (w, res) := Exchange(Rap(server.p), old(server.View()), c, turns);
              CheckIFS(increment) ==>
                server.View() == w && (res.Ok? ==> r == Returned(())) && (res.Err? ==> r == Raised(res.error))
      ensures CheckIFS(increment) && old(AtRest(server.View())) && turns >= 1
              && |data| <= MaxSeqWriteCount(server.p.cfg, server.p.max)
              && |data| < Pow256(server.p.cfg.lenBytes) ==>
                var vs := seq(|data|, i requires 0 <= i < |data| => Cut(server.p.cfg, Data, data[i]));
                var op := OpSeqWrite(addr % Pow256(server.p.cfg.addrBytes), vs,
                                     increment % Pow256(server.p.cfg.lenBytes));
                var (target, d) := server.p.exec(old(server.target), op);
                && server.View() == World([], [], target, true)
                && r == if d.Done? then Returned(()) else Raised(OperationNak(0xFD))
    {
      if !CheckIFS(increment) {
        return Delegated;
      }
      ghost var w := server.View();
      var txn := GetNextTxnId();
      var res := DoCmdResp(WriteSeq(txn, false, addr, Narrow(serdes.cfg, increment), data), server, turns);
      ghost var vs := seq(|data|, i requires 0 <= i < |data| => Cut(server.p.cfg, Data, data[i]));
      ghost var op := OpSeqWrite(addr % Pow256(server.p.cfg.addrBytes), vs, increment % Pow256(server.p.cfg.lenBytes));
      ghost var (target, d) := server.p.exec(w.target, op);
      if AtRest(w) && turns >= 1 && |data| <= MaxSeqWriteCount(server.p.cfg, server.p.max)
         && |data| < Pow256(server.p.cfg.lenBytes)
      {
        SeqWriteReaches(server.p, w, txn, addr, increment, data, turns);
      }
      if res.Err? { return Raised(res.error); }
      return Returned(());
    }

    method FifoWrite<S>(addr: nat, data: seq<nat>, server: RapServerAdapter<S>, turns: nat)
      returns (r: Ending<()>)
      requires Connected(server)
      modifies this, server, transport.txQueue, transport.rxQueue
      ensures !serdes.cfg.fifo ==>
                r == Delegated && nextTxnId == old(nextTxnId) && server.View() == old(server.View())
      ensures serdes.cfg.fifo ==> nextTxnId == (old(nextTxnId) + 1) % 256
      ensures var c := WriteSeq(old(nextTxnId), false, addr, 0, data);
              var (w, res) := Exchange(Rap(server.p), old(server.View()), c, turns);
              serdes.cfg.fifo ==>
                server.View() == w && (res.Ok? ==> r == Returned(())) && (res.Err? ==> r == Raised(res.error))
      ensures serdes.cfg.fifo && old(AtRest(server.View())) && turns >= 1
              && |data| <= MaxSeqWriteCount(server.p.cfg, server.p.max)
              && |data| < Pow256(server.p.cfg.lenBytes) ==>
                var vs := seq(|data|, i requires 0 <= i < |data| => Cut(server.p.cfg, Data, data[i]));
                var op := OpSeqWrite(addr % Pow256(server.p.cfg.addrBytes), vs, 0);
                var (target, d) := server.p.exec(old(server.target), op);
                && server.View() == World([], [], target, true)
                && r == if d.Done? then Returned(()) else Raised(OperationNak(0xFD))
    {
      if !serdes.cfg.fifo {
        return Delegated;
      }
      ghost var w := server.View();
      var txn := GetNextTxnId();
      var res := DoCmdResp(WriteSeq(txn, false, addr, 0, data), server, turns);
      ghost var vs := seq(|data|, i requires 0 <= i < |data| => Cut(server.p.cfg, Data, data[i]));
      ghost var op := OpSeqWrite(addr % Pow256(server.p.cfg.addrBytes), vs, 0);
      ghost var (target, d) := server.p.exec(w.target, op);
      if AtRest(w) && turns >= 1 && |data| <= MaxSeqWriteCount(server.p.cfg, server.p.max)
         && |data| < Pow256(server.p.cfg.lenBytes)
      {
        SeqWriteReaches(server.p, w, txn, addr, 0, data, turns);
      }
      if res.Err? { return Raised(res.error); }
      return Returned(());
    }

    method CompWrite<S>(pairs: seq<(nat, nat)>, server: RapServerAdapter<S>, turns: nat)
      returns (r: Ending<()>)
      requires Connected(server)
      modifies this, server, transport.txQueue, transport.rxQueue
      ensures !serdes.cfg.compressed ==>
                r == Delegated && nextTxnId == old(nextTxnId) && server.View() == old(server.View())
      ensures serdes.cfg.compressed ==> nextTxnId == (old(nextTxnId) + 1) % 256
      ensures var c := WriteComp(old(nextTxnId), false, pairs);
              var (w, res) := Exchange(Rap(server.p), old(server.View()), c, turns);
              serdes.cfg.compressed ==>
                server.View() == w && (res.Ok? ==> r == Returned(())) && (res.Err? ==> r == Raised(res.error))
      ensures serdes.cfg.compressed && old(AtRest(server.View())) && turns >= 1
              && |pairs| <= MaxCompWriteCount(server.p.cfg, server.p.max)
              && |pairs| < Pow256(server.p.cfg.lenBytes) ==>
                var ps := seq(|pairs|, i requires 0 <= i < |pairs| =>
                             (Cut(server.p.cfg, Addr, pairs[i].0), Cut(server.p.cfg, Data, pairs[i].1)));
                var op := OpCompWrite(ps);
                var (target, d) := server.p.exec(old(server.target), op);
                && server.View() == World([], [], target, true)
                && r == if d.Done? then Returned(()) else Raised(OperationNak(0xFD))
    {
      if !serdes.cfg.compressed {
        return Delegated;
      }
      ghost var w := server.View();
      var txn := GetNextTxnId();
      var res := DoCmdResp(WriteComp(txn, false, pairs), server, turns);
      ghost var ps := seq(|pairs|, i requires 0 <= i < |pairs| =>
        (Cut(server.p.cfg, Addr, pairs[i].0), Cut(server.p.cfg, Data, pairs[i].1)));
      ghost var op := OpCompWrite(ps);
      ghost var (target, d) := server.p.exec(w.target, op);
      if AtRest(w) && turns >= 1 && |pairs| <= MaxCompWriteCount(server.p.cfg, server.p.max)
         && |pairs| < Pow256(server.p.cfg.lenBytes)
      {
        CompWriteReaches(server.p, w, txn, pairs, turns);
      }
      if res.Err? { return Raised(res.error); }
      return Returned(());
    }

    /** std::copy of a response's data into the caller's span. */
    method CopyOut(res: Result<seq<nat>>, out: array<nat>) returns (r: Ending<()>)
      modifies out
      ensures res.Err? ==> r == Raised(res.error) && out[..] == old(out[..])
      ensures res.Ok? && |res.value| <= out.Length ==>
                r == Returned(()) && out[..] == res.value + old(out[..])[|res.value|..]
      ensures res.Ok? && |res.value| > out.Length ==> r == Overrun && out[..] == old(out[..])
    {
      if res.Err? { return Raised(res.error); }
      if |res.value| > out.Length { return Overrun; }
      var i := 0;
      while i < |res.value|
        invariant i <= |res.value|
        invariant forall k :: 0 <= k < out.Length ==> out[k] == if k < i then res.value[k] else old(out[k])
      {
        out[i] := res.value[i];
        i := i + 1;
      }
      return Returned(());
    }

    method SeqRead<S>(addr: nat, out: array<nat>, increment: nat, server: RapServerAdapter<S>, turns: nat)
      returns (r: Ending<()>)
      requires Connected(server)
      modifies this, server, transport.txQueue, transport.rxQueue, out
      ensures !CheckIFS(increment) ==>
                r == Delegated && nextTxnId == old(nextTxnId) && server.View() == old(server.View())
      ensures !CheckIFS(increment) ==> out[..] == old(out[..])
      ensures CheckIFS(increment) ==> nextTxnId == (old(nextTxnId) + 1) % 256
      ensures var c := ReadSeq(old(nextTxnId), addr, Narrow(serdes.cfg, increment), Narrow(serdes.cfg, out.Length));
              var (w, res) := Exchange(Rap(server.p), old(server.View()), c, turns);
              CheckIFS(increment) ==>
                && server.View() == w
                && (res.Err? ==> r == Raised(res.error) && out[..] == old(out[..]))
                && (res.Ok? && |res.value| <= out.Length ==>
                      r == Returned(()) && out[..] == res.value + old(out[..])[|res.value|..])
                && (res.Ok? && |res.value| > out.Length ==> r == Overrun && out[..] == old(out[..]))
      ensures CheckIFS(increment) && old(AtRest(server.View())) && turns >= 1
              && Narrow(server.p.cfg, out.Length) <= MaxSeqReadCount(server.p.cfg, server.p.max) ==>
                var m := out.Length % Pow256(server.p.cfg.lenBytes);
                var op := OpSeqRead(addr % Pow256(server.p.cfg.addrBytes), m,
                                    increment % Pow256(server.p.cfg.lenBytes));
                var (target, d) := server.p.exec(old(server.target), op);
                && server.View() == World([], [], target, true)
                && r == (if d.Done? then Returned(()) else Raised(OperationNak(0xFD)))
                && forall k :: 0 <= k < out.Length ==>
                     out[k] == if d.Done? && k < m
                               then (if k < |d.written| then d.written[k] else 0) % Pow256(server.p.cfg.dataBytes)
                               else old(out[k])
    {
      if !CheckIFS(increment) {
        return Delegated;
      }
      ghost var w := server.View();
      var txn := GetNextTxnId();
      var c := ReadSeq(txn, addr, Narrow(serdes.cfg, increment), Narrow(serdes.cfg, out.Length));
      var res := DoCmdResp(c, server, turns);
      ghost var m := out.Length % Pow256(server.p.cfg.lenBytes);
      ghost var op := OpSeqRead(addr % Pow256(server.p.cfg.addrBytes), m, increment % Pow256(server.p.cfg.lenBytes));
      ghost var (target, d) := server.p.exec(w.target, op);
      if AtRest(w) && turns >= 1 && Narrow(server.p.cfg, out.Length) <= MaxSeqReadCount(server.p.cfg, server.p.max) {
        SeqReadReaches(server.p, w, txn, addr, increment, out.Length, turns);
      }
      r := CopyOut(res, out);
    }

    /** No feature check here, unlike FifoWrite. */
    method FifoRead<S>(addr: nat, out: array<nat>, server: RapServerAdapter<S>, turns: nat)
      returns (r: Ending<()>)
      requires Connected(server)
      modifies this, server, transport.txQueue, transport.rxQueue, out
      ensures nextTxnId == (old(nextTxnId) + 1) % 256
      ensures var c := ReadSeq(old(nextTxnId), addr, 0, Narrow(serdes.cfg, out.Length));
              var (w, res) := Exchange(Rap(server.p), old(server.View()), c, turns);
              && server.View() == w
              && (res.Err? ==> r == Raised(res.error) && out[..] == old(out[..]))
              && (res.Ok? && |res.value| <= out.Length ==>
                    r == Returned(()) && out[..] == res.value + old(out[..])[|res.value|..])
              && (res.Ok? && |res.value| > out.Length ==> r == Overrun && out[..] == old(out[..]))
      ensures old(AtRest(server.View())) && turns >= 1
              && Narrow(server.p.cfg, out.Length) <= MaxSeqReadCount(server.p.cfg, server.p.max) ==>
                var m := out.Length % Pow256(server.p.cfg.lenBytes);
                var op := OpSeqRead(addr % Pow256(server.p.cfg.addrBytes), m, 0);
                var (target, d) := server.p.exec(old(server.target), op);
                && server.View() == World([], [], target, true)
                && r == (if d.Done? then Returned(()) else Raised(OperationNak(0xFD)))
                && forall k :: 0 <= k < out.Length ==>
                     out[k] == if d.Done? && k < m
                               then (if k < |d.written| then d.written[k] else 0) % Pow256(server.p.cfg.dataBytes)
                               else old(out[k])
    {
      ghost var w := server.View();
      var txn := GetNextTxnId();
      var res := DoCmdResp(ReadSeq(txn, addr, 0, Narrow(serdes.cfg, out.Length)), server, turns);
      ghost var m := out.Length % Pow256(server.p.cfg.lenBytes);
      ghost var op := OpSeqRead(addr % Pow256(server.p.cfg.addrBytes), m, 0);
      ghost var (target, d) := server.p.exec(w.target, op);
      if AtRest(w) && turns >= 1 && Narrow(server.p.cfg, out.Length) <= MaxSeqReadCount(server.p.cfg, server.p.max) {
        SeqReadReaches(server.p, w, txn, addr, 0, out.Length, turns);
      }
      r := CopyOut(res, out);
    }

    method CompRead<S>(addresses: seq<nat>, out: array<nat>, server: RapServerAdapter<S>, turns: nat)
      returns (r: Ending<()>)
      requires Connected(server) && |addresses| == out.Length
      modifies this, server, transport.txQueue, transport.rxQueue, out
      ensures !serdes.cfg.compressed ==>
                r == Delegated && nextTxnId == old(nextTxnId) && server.View() == old(server.View())
      ensures !serdes.cfg.compressed ==> out[..] == old(out[..])
      ensures serdes.cfg.compressed ==> nextTxnId == (old(nextTxnId) + 1) % 256
      ensures var c := ReadComp(old(nextTxnId), addresses);
              var (w, res) := Exchange(Rap(server.p), old(server.View()), c, turns);
              serdes.cfg.compressed ==>
                && server.View() == w
                && (res.Err? ==> r == Raised(res.error) && out[..] == old(out[..]))
                && (res.Ok? && |res.value| <= out.Length ==>
                      r == Returned(()) && out[..] == res.value + old(out[..])[|res.value|..])
                && (res.Ok? && |res.value| > out.Length ==> r == Overrun && out[..] == old(out[..]))
      ensures serdes.cfg.compressed && old(AtRest(server.View())) && turns >= 1
              && out.Length <= MaxCompReadCount(server.p.cfg, server.p.max)
              && out.Length < Pow256(server.p.cfg.lenBytes) ==>
                var cut := seq(|addresses|, i requires 0 <= i < |addresses| => Cut(server.p.cfg, Addr, addresses[i]));
                var op := OpCompRead(cut);
                var (target, d) := server.p.exec(old(server.target), op);
                && server.View() == World([], [], target, true)
                && r == (if d.Done? then Returned(()) else Raised(OperationNak(0xFD)))
                && forall k :: 0 <= k < out.Length ==>
                     out[k] == if d.Done?
                               then (if k < |d.written| then d.written[k] else 0) % Pow256(server.p.cfg.dataBytes)
                               else old(out[k])
    {
      if !serdes.cfg.compressed {
        return Delegated;
      }
      ghost var w := server.View();
      var txn := GetNextTxnId();
      var res := DoCmdResp(ReadComp(txn, addresses), server, turns);
      ghost var cut := seq(|addresses|, i requires 0 <= i < |addresses| => Cut(server.p.cfg, Addr, addresses[i]));
      ghost var op := OpCompRead(cut);
      ghost var (target, d) := server.p.exec(w.target, op);
      if AtRest(w) && turns >= 1 && out.Length <= MaxCompReadCount(server.p.cfg, server.p.max)
         && out.Length < Pow256(server.p.cfg.lenBytes)
      {
        CompReadReaches(server.p, w, txn, addresses, turns);
      }
      r := CopyOut(res, out);
    }
  }

  /** The loop closed in software: two endpoints of one pair of queues, a client on one and a server on the other. It
      can be built exactly when the message size, cut to 16 bits, is at least 32; 65536 is cut to 0. */
  method MakeSoftwareLoop<S>(cfg: Config, max: nat, timeout: nat, exec: (S, Op) -> (S, TargetResult), target: S)
    returns (r: Result<(RapRegisterTarget, RapServerAdapter<S>)>)
    requires cfg.Valid()
    ensures r.Ok? <==> max % 0x1_0000 >= 32
    ensures r.Err? ==> r.error == ConstructorSizeError
    ensures r.Ok? ==> r.value.0.Connected(r.value.1) && r.value.0.nextTxnId == 0
    ensures r.Ok? ==> r.value.0.transport.timeout == timeout
    ensures r.Ok? ==> r.value.1.p == Setup(cfg, max % 0x1_0000, exec) && r.value.1.View() == World([], [], target, true)
  {
    var clientEnd, serverEnd := MakeSyncPairedIpcTransport(max);
    clientEnd.SetTimeout(timeout);
    var client :- RapRegisterTarget.Create(clientEnd, cfg);
    var server := RapServerAdapter.Create(serverEnd, cfg, exec, target);
    if server.Err? { return Err(ConstructorSizeError); }
    return Ok((client, server.value));
  }
}
