/// One host against any peer that follows the sequence rules of TCP: it may cut its stream into
/// segments as it likes, send them in any order and as often as it likes, put its FIN on data, and
/// acknowledge what it likes.

module TcpAnyPeer {
  import opened Basics
  import opened UipTcp
  import opened BufferedSend
  import opened TcpSystem
  import opened TcpAnswers
  import TcpStreamSafety
  import TcpHalfClose

  datatype Peer = Peer(iss: int, stream: seq<Byte>)

  /// A segment the peer may send: its data are the bytes its sequence number names, and its FIN
  /// comes behind the last byte of the stream.
  predicate FromPeer(p: Peer, s: Segment) {
    var at := s.seqno - p.iss - 1;
    || s.flags.rst
    || (s.flags.syn && s.seqno == p.iss && s.data == [] && !s.flags.fin)
    || (!s.flags.syn && s.data == [] && !s.flags.fin)
    || (&& !s.flags.syn && 0 <= at && at + |s.data| <= |p.stream|
        && s.data == p.stream[at..at + |s.data|]
        && (s.flags.fin ==> at + |s.data| == |p.stream|))
  }

  /// A host, and whether its application has been told, while established, that the peer closed.
  datatype Listener = Listener(host: Host, ended: bool)

  datatype Step = Arrive(s: Segment) | Own(local: Local)

  function Event(h: Host, s: Segment): Option<AppEvent>
    requires h.tx.Ok()
  {
    if h.conn.Live() then Input(0, h.conn, s, AppOf(h)).event else None
  }

  function Next(l: Listener, t: Step): (r: Listener)
    requires l.host.tx.Ok()
    ensures r.host.tx.Ok()
  {
    match t
    case Arrive(s) =>
      var e := Event(l.host, s);
      Listener(Receive(0, l.host, s).host,
               l.ended || (l.host.conn.st == Established && e.Some? && e.value.closed))
    case Own(local) => l.(host := Act(0, l.host, local).host)
  }

  function Run(l: Listener, steps: seq<Step>): (r: Listener)
    requires l.host.tx.Ok()
    ensures r.host.tx.Ok()
    decreases |steps|
  {
    if steps == [] then l else Run(Next(l, steps[0]), steps[1..])
  }

  predicate Receiving(st: TcpState) {
    st == SynRcvd || st == Established
  }

  predicate Ok(p: Peer, l: Listener) {
    var h := l.host;
    && h.tx.Ok() && h.delivered <= p.stream
    && (Receiving(h.conn.st) ==> h.conn.rcvNxt == p.iss + 1 + |h.delivered|)
    && (h.conn.st == SynSent || !h.started ==> h.delivered == [])
    && (!h.started ==> h.conn.st == Closed)
    && (l.ended ==> h.delivered == p.stream && !Receiving(h.conn.st) && h.conn.st != SynSent && h.started)
  }

  /// The bytes an in-order segment brings are the next of the stream.
  lemma NextBytes(p: Peer, h: Host, s: Segment)
    requires h.delivered <= p.stream && FromPeer(p, s) && !s.flags.rst && InOrder(h.conn, s)
    requires Receiving(h.conn.st) && h.conn.rcvNxt == p.iss + 1 + |h.delivered|
    ensures h.delivered + s.data <= p.stream
    ensures s.flags.fin ==> h.delivered + s.data == p.stream
  {
    if s.data != [] || s.flags.fin {
      var at := |h.delivered|;
      assert p.stream[..at + |s.data|] == p.stream[..at] + p.stream[at..at + |s.data|];
    } else {
      assert h.delivered + [] == h.delivered;
    }
  }

  lemma DeliveredGrows(h: Host, r: StepOut)
    requires h.tx.Ok()
    ensures var g := Apply(0, h, r).host;
            g.delivered == h.delivered + Handed(r.event) && g.conn == r.conn && g.started == h.started
  {
    assert h.delivered + [] == h.delivered;
  }

  lemma SynSentDelivers(c: Conn, s: Segment, app: App)
    requires c.st == SynSent
    ensures var r := Input(0, c, s, app);
            && Handed(r.event) == [] && r.conn.st != SynRcvd
            && (r.conn.st == Established ==> s.flags == SYN_ACK && r.conn.rcvNxt == s.seqno + 1)
  {
    if !s.flags.rst && InOrder(c, s) && AcksOutstanding(0, c, s) && s.flags == SYN_ACK {
      var d := AckProcessed(0, c, s);
      assert Input(0, c, s, app) == InputSynSent(0, d, s, true, app);
      OpensBySynAck(d, s, app);
    }
  }

  lemma OpensBySynAck(c: Conn, s: Segment, app: App)
    requires c.st == SynSent && s.flags == SYN_ACK
    ensures var r := InputSynSent(0, c, s, true, app);
            r.conn.rcvNxt == s.seqno + 1 && Handed(r.event) == [] && r.conn.st != SynRcvd
  {
  }

  lemma ArrivalKeepsOk(p: Peer, l: Listener, s: Segment)
    requires Ok(p, l) && FromPeer(p, s) && l.host.conn.Live()
    ensures Ok(p, Next(l, Arrive(s)))
  {
    var h := l.host;
    var r := Input(0, h.conn, s, AppOf(h));
    DeliveredGrows(h, r);
    if h.conn.st == SynSent {
      SynSentDelivers(h.conn, s, AppOf(h));
    } else if s.flags.rst {
    } else if !InOrder(h.conn, s) {
      OutOfOrderIsAnswered(0, h.conn, s, AppOf(h));
    } else if h.conn.st == Established {
      EstablishedKeepsOk(p, l, s);
    } else {
      OtherStatesDeliver(h.conn, s, AppOf(h));
      LateStaysLate(h.conn, s, AppOf(h));
      if h.conn.st == SynRcvd {
        NextBytes(p, h, s);
      }
    }
  }

  lemma EstablishedKeepsOk(p: Peer, l: Listener, s: Segment)
    requires Ok(p, l) && FromPeer(p, s) && l.host.conn.st == Established && InOrder(l.host.conn, s) && !s.flags.rst
    ensures Ok(p, Next(l, Arrive(s)))
  {
    var h := l.host;
    DeliveredGrows(h, Input(0, h.conn, s, AppOf(h)));
    if h.conn.stopped {
      PausedTakesNothing(h.conn, s, AppOf(h));
    } else {
      NextBytes(p, h, s);
      EstablishedDelivers(h.conn, s, AppOf(h));
    }
    EstablishedMoves(h.conn, s, AppOf(h));
  }

  lemma EstablishedMoves(c: Conn, s: Segment, app: App)
    requires c.st == Established
    ensures Input(0, c, s, app).conn.st in {Established, FinWait1, LastAck, Closed}
  {
  }

  lemma LateStaysLate(c: Conn, s: Segment, app: App)
    requires c.st != Established && c.st != SynSent && !s.flags.rst
    ensures var r := Input(0, c, s, app);
            && r.conn.st != SynSent && (!Receiving(c.st) ==> !Receiving(r.conn.st))
  {
  }

  lemma OwnStepKeepsOk(p: Peer, l: Listener, local: Local)
    requires Ok(p, l)
    ensures Ok(p, Next(l, Own(local)))
  {
    var h := l.host;
    if local.Pulse? {
      TcpStreamSafety.TimerOutcome(h.conn, AppOf(h));
      TcpHalfClose.TimerConnectsNothing(h.conn, AppOf(h));
    } else if local.PollRequest? && h.conn.st == Established && h.conn.len == 0 {
      var e := NO_EVENT.(poll := true, mss := h.conn.mss);
      TcpStreamSafety.AppSendOutcome(h.conn, e, Reply(h, e));
    }
  }

  predicate AllFromPeer(p: Peer, steps: seq<Step>) {
    forall i :: 0 <= i < |steps| && steps[i].Arrive? ==> FromPeer(p, steps[i].s)
  }

  lemma {:induction false} RunKeepsOk(p: Peer, l: Listener, steps: seq<Step>)
    requires Ok(p, l) && AllFromPeer(p, steps)
    ensures Ok(p, Run(l, steps))
    decreases |steps|
  {
    if steps != [] {
      match steps[0] {
        case Arrive(s) =>
          if l.host.conn.Live() {
            ArrivalKeepsOk(p, l, s);
          }
        case Own(local) => OwnStepKeepsOk(p, l, local);
      }
      RunKeepsOk(p, Next(l, steps[0]), steps[1..]);
    }
  }

  /// A host about to open or to be opened.
  predicate Fresh(h: Host) {
    && FreshClient(h) && !h.connected
    && ((h.started && h.conn.Is(SynSent)) || (!h.started && h.conn.Is(Closed)))
  }

  /// In every state of every run the application has received a prefix of the peer's stream; once
  /// it is told, while established, that the peer closed, it has received all of it.
  lemma AnyPeerIsHeardInOrder(p: Peer, h: Host, steps: seq<Step>)
    requires Fresh(h) && AllFromPeer(p, steps)
    ensures h.tx.Ok() && var l := Run(Listener(h, false), steps);
            l.host.delivered <= p.stream && (l.ended ==> l.host.delivered == p.stream)
  {
    RunKeepsOk(p, Listener(h, false), steps);
  }
}
