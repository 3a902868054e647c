/// Two hosts running the whole stack, joined by a network that may lose, duplicate and
/// reorder segments: uIP below, the buffered client above, `xtcpd_appcall` between them.
/// One connection is started by host A towards the listening host B.

module TcpSystem {
  import opened Basics
  import opened UipTcp
  import opened BufferedSend
  import PacketSplit

  /// The requests `uip_xtcpd_handle_poll` looks at, and `ack_recv_mode`.
  datatype Server = Server(
    sendRequests: nat, ackRequest: bool, closeRequest: bool, abortRequest: bool, ackRecvMode: bool)

  const IDLE := Server(0, false, false, false, false)

  /// One end of the connection. `delivered` collects what the application received; `started`
  /// says that the connection record was filled, `connected` that the client was told.
  datatype Host = Host(
    conn: Conn, iss: int, started: bool, connected: bool,
    tx: Tx, server: Server, delivered: seq<Byte>)

  // ------------------------------------------------------------ application

  /// Does the client's send handler fetch a new segment during event `e`?
  predicate Fetches(h: Host, e: AppEvent) {
    e.acked || (e.poll && !h.server.abortRequest && !h.server.closeRequest && h.server.sendRequests > 0)
  }

  /// `xtcpd_appcall`, seen from uIP.
  function Reply(h: Host, e: AppEvent): AppReply
    requires h.tx.Ok()
  {
    var send := if e.rexmit then LastSegment(h.tx)
                else if Fetches(h, e) then NextSegment(h.tx, e.mss)
                else [];
    var request := if e.poll && h.server.abortRequest then Abort
                   else if e.poll && h.server.closeRequest then Close
                   else Carry;
    AppReply(send, request, e.newData && |e.data| > 0 && h.server.ackRecvMode,
             e.poll && h.server.ackRequest)
  }

  /// `xtcpd_appcall`, seen from the client: bytes received, segments fetched, requests done.
  function AfterEvent(h: Host, e: AppEvent): (r: Host)
    requires h.tx.Ok()
    ensures r.tx.Ok()
  {
    var server := if e.connected then IDLE else h.server;
    var server := if !e.poll then server
                  else if server.abortRequest then server.(ackRequest := false, abortRequest := false)
                  else if server.closeRequest then server.(ackRequest := false, closeRequest := false)
                  else server.(ackRequest := false,
                               sendRequests := if server.sendRequests > 0 then server.sendRequests - 1 else 0);
    h.(connected := h.connected || e.connected,
       server := server,
       tx := if Fetches(h, e) then Fetch(h.tx, e.mss) else h.tx,
       delivered := if e.newData then h.delivered + e.data else h.delivered)
  }

  // ------------------------------------------------------------------ hosts

  datatype Effect = Effect(host: Host, out: seq<Segment>)

  /// `uip_split_output`
  function SplitSegment(modulus: nat, s: Segment): seq<Segment> {
    if |s.data| > PacketSplit.SPLIT_THRESHOLD then
      var n := PacketSplit.FirstLength(|s.data|);
      [s.(data := s.data[..n]), s.(seqno := Advance(modulus, s.seqno, n), data := s.data[n..])]
    else
      [s]
  }

  function Apply(modulus: nat, h: Host, r: StepOut): (f: Effect)
    requires h.tx.Ok()
    ensures f.host.tx.Ok()
  {
    var g := h.(conn := r.conn);
    Effect(if r.event.Some? then AfterEvent(g, r.event.value) else g,
           if r.out.Some? then SplitSegment(modulus, r.out.value) else [])
  }

  function AppOf(h: Host): App
    requires h.tx.Ok()
  {
    e => Reply(h, e)
  }

  /// A segment arrives. A host whose connection is gone answers with a reset; one that still
  /// waits for its connection accepts a SYN.
  function Receive(modulus: nat, h: Host, s: Segment): (f: Effect)
    requires h.tx.Ok()
    ensures f.host.tx.Ok()
  {
    if h.conn.Live() then
      Apply(modulus, h, Input(modulus, h.conn, s, AppOf(h)))
    else if !h.started && s.flags == SYN then
      var c := Accepted(modulus, h.conn, h.conn.lport, h.conn.rport, h.conn.ripaddr, s, h.iss);
      Effect(h.(conn := c, started := true), [Sends(c, SYN_ACK, [])])
    else
      var r := ResetFor(modulus, s);
      Effect(h, if r.Some? then [r.value] else [])
  }

  /// What the client of a connected host may ask for at any time.
  datatype Command = Queue(data: seq<Byte>) | AskClose | AskAbort | Pause | Unpause | AckRecvMode

  function Obey(h: Host, c: Command): (r: Host)
    requires h.tx.Ok()
    ensures r.tx.Ok()
  {
    if !h.connected then h
    else
      match c
      case Queue(data) =>
        h.(tx := Enqueue(h.tx, data),
           server := h.server.(sendRequests :=
             h.server.sendRequests + (if EnqueueResult(h.tx, data).initSend then 1 else 0)))
      case AskClose => h.(server := h.server.(closeRequest := true))
      case AskAbort => h.(server := h.server.(abortRequest := true))
      case Pause => h.(conn := h.conn.(stopped := true))
      case Unpause => h.(conn := h.conn.(stopped := false), server := h.server.(ackRequest := true))
      case AckRecvMode => h.(server := h.server.(ackRecvMode := true))
  }

  // ----------------------------------------------------------------- system

  /// `toA` and `toB` hold every segment ever sent: delivering index i twice is duplication,
  /// never delivering it is loss, any order is reordering.
  datatype System = System(a: Host, b: Host, toA: seq<Segment>, toB: seq<Segment>) {
    predicate Ok() {
      a.tx.Ok() && b.tx.Ok()
    }
  }

  datatype Local = Pulse | PollRequest | Do(command: Command)

  datatype Step = DeliverToA(i: nat) | DeliverToB(i: nat) | AtA(local: Local) | AtB(local: Local)

  function Act(modulus: nat, h: Host, l: Local): (f: Effect)
    requires h.tx.Ok()
    ensures f.host.tx.Ok()
  {
    match l
    case Pulse => Apply(modulus, h, Timer(h.conn, AppOf(h)))
    case PollRequest => Apply(modulus, h, Poll(h.conn, AppOf(h)))
    case Do(c) => Effect(Obey(h, c), [])
  }

  function Next(modulus: nat, s: System, t: Step): (r: System)
    requires s.Ok()
    ensures r.Ok()
  {
    match t
    case DeliverToA(i) =>
      if i < |s.toA| then
        var f := Receive(modulus, s.a, s.toA[i]);
        s.(a := f.host, toB := s.toB + f.out)
      else s
    case DeliverToB(i) =>
      if i < |s.toB| then
        var f := Receive(modulus, s.b, s.toB[i]);
        s.(b := f.host, toA := s.toA + f.out)
      else s
    case AtA(l) =>
      var f := Act(modulus, s.a, l);
      s.(a := f.host, toB := s.toB + f.out)
    case AtB(l) =>
      var f := Act(modulus, s.b, l);
      s.(b := f.host, toA := s.toA + f.out)
  }

  function Run(modulus: nat, s: System, steps: seq<Step>): (r: System)
    requires s.Ok()
    ensures r.Ok()
    decreases |steps|
  {
    if steps == [] then s else Run(modulus, Next(modulus, s, steps[0]), steps[1..])
  }

  /// A has just called `uip_connect`, B listens; slots and initial sequence numbers are
  /// arbitrary, as are the client buffers.
  predicate Initial(s: System) {
    && s.toA == [] && s.toB == []
    && s.a.started && !s.a.connected && s.a.conn.Is(SynSent)
    && s.a.conn.len == 1 && s.a.conn.sndNxt == s.a.iss
    && !s.b.started && !s.b.connected && s.b.conn.Is(Closed)
    && FreshClient(s.a) && FreshClient(s.b)
  }

  predicate FreshClient(h: Host) {
    h.tx == Tx([], 0, 0, h.tx.cap, h.tx.lowmark) && h.delivered == [] && h.server == IDLE
  }
}
