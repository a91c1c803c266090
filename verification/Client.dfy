/** What the client makes of one command and one response, as functions. */
module Client {
  import opened Bytes
  import opened Messages
  import opened Service
  import opened ServerAdapter

  /** Nothing in flight and a live worker. */
  ghost predicate AtRest<S>(w: World<S>) {
    w.cmdQ == [] && w.respQ == [] && w.alive
  }

  /** doCmdResp when the worker completes `turns` rounds before the wait for the response ends. */
  function Exchange<S>(f: Protocol<S>, w: World<S>, c: Command, turns: nat): (World<S>, Result<seq<nat>>) {
    match f.encode(c)
    case Err(e) => (w, Err(e))
    case Ok(b) => Collected(f, Rounds(f.serve, Arrive(w, [b]), turns), c)
  }

  /** The receiving half: the oldest response, whatever it answers, or a timeout. */
  function Collected<S>(f: Protocol<S>, w: World<S>, c: Command): (World<S>, Result<seq<nat>>) {
    if w.respQ == [] then (w, Err(TransportTimeout)) else (w.(respQ := w.respQ[1..]), f.read(c, w.respQ[0]))
  }

  /** What an operation does for its caller. Delegated: it hands over to its base class. Overrun: the values received
      exceed the caller's span, and the copy has no defined effect. */
  datatype Ending<T> = Delegated | Returned(value: T) | Raised(error: Error) | Overrun

  /** static_cast<LengthType>. */
  function Narrow(cfg: Config, n: nat): nat {
    n % Pow256(cfg.lenSize)
  }
}
