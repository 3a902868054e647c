/// What an acknowledgement means. An end that is established acknowledges exactly what its
/// application has received; one whose client has closed acknowledges data and drops it.

module TcpHalfClose {
  import opened Basics
  import opened UipTcp
  import opened BufferedSend
  import opened TcpSystem
  import opened TcpStreamSafety
  import PacketSplit
  import TcpEndToEnd

  /// What `to` acknowledges of the stream of `from` is what it has delivered. Once `from` has
  /// sent its FIN, which is acknowledged too, this says nothing.
  predicate Level(from: Host, to: Host) {
    to.connected && Early(from.conn.st) ==> to.conn.rcvNxt == from.iss + 1 + |to.delivered|
  }

  /// New data reaches an end that has sent its FIN and not yet seen the one of its peer.
  predicate Discards(from: Host, to: Host, s: Segment) {
    && to.connected && (to.conn.st == FinWait1 || to.conn.st == FinWait2)
    && Early(from.conn.st) && !s.flags.rst && s.data != [] && s.seqno == to.conn.rcvNxt
  }

  predicate LevelTowards(s: System, b: bool) {
    if b then Level(s.a, s.b) else Level(s.b, s.a)
  }

  predicate StepDiscards(s: System, t: Step, b: bool) {
    match t
    case DeliverToA(i) => !b && i < |s.toA| && Discards(s.b, s.a, s.toA[i])
    case DeliverToB(i) => b && i < |s.toB| && Discards(s.a, s.b, s.toB[i])
    case _ => false
  }

  // ---------------------------------------------------------------- one step

  /// Pulses, polls and commands.
  lemma LocalKeepsLevel(from: Host, to: Host, l: Local)
    requires SenderOk(to) && ReceiverOk(to, from) && Level(from, to)
    ensures Level(from, Act(0, to, l).host)
  {
    LocalDelivers(to, from, l);
    LocalHearsNothing(to, l);
  }

  lemma LocalHearsNothing(h: Host, l: Local)
    requires SenderOk(h)
    ensures var g := Act(0, h, l).host;
            g.delivered == h.delivered && g.connected == h.connected
  {
    if l.Pulse? {
      TimerConnectsNothing(h.conn, AppOf(h));
    } else if l.PollRequest? && h.conn.st == Established && h.conn.len == 0 {
      var e := NO_EVENT.(poll := true, mss := h.conn.mss);
      AppSendOutcome(h.conn, e, Reply(h, e));
    }
  }

  lemma TimerConnectsNothing(c: Conn, app: App)
    ensures var r := Timer(c, app);
            r.event.Some? ==> !r.event.value.newData && !r.event.value.connected
  {
    if c.st == Established {
      var e := NO_EVENT.(poll := true, mss := c.mss);
      AppSendOutcome(c, e, app(e));
    }
  }

  /// A segment without FIN leaves an end that has sent none open, or closes it on the spot.
  lemma EarlyOutcome(h: Host, s: Segment)
    requires SenderOk(h) && h.started && h.conn.Live() && Early(h.conn.st) && !s.flags.fin
    ensures var g := Receive(0, h, s).host;
            || g.conn.st == SynRcvd || g.conn.st == Established
            || (g.conn.rcvNxt == h.conn.rcvNxt && g.delivered == h.delivered && g.connected == h.connected)
  {
    var r := Input(0, h.conn, s, AppOf(h));
    if !s.flags.rst && r != Answers(h.conn, ACK) {
      var c, acked := AckProcessed(0, h.conn, s), AcksOutstanding(0, h.conn, s);
      assert r == ByState(0, c, s, acked, AppOf(h));
      EarlyByState(h, c, s, acked);
    }
  }

  lemma EarlyByState(h: Host, c: Conn, s: Segment, acked: bool)
    requires h.tx.Ok() && Early(c.st) && c.rcvNxt == h.conn.rcvNxt && !s.flags.fin
    ensures var r := ByState(0, c, s, acked, AppOf(h));
            || r.conn.st == SynRcvd || r.conn.st == Established
            || (r.conn.rcvNxt == h.conn.rcvNxt && r.event.Some?
                && !r.event.value.newData && !r.event.value.connected)
  {
  }

  /// An end that has sent its FIN passes nothing on.
  lemma LateOutcomeIff(h: Host, s: Segment)
    requires h.tx.Ok() && h.conn.Live() && !Early(h.conn.st) && !s.flags.fin
    ensures var g := Receive(0, h, s).host;
            && g.delivered == h.delivered && g.connected == h.connected
            && (g.conn.rcvNxt != h.conn.rcvNxt <==>
                  && (h.conn.st == FinWait1 || h.conn.st == FinWait2)
                  && !s.flags.rst && s.data != [] && s.seqno == h.conn.rcvNxt)
  {
    var r := Input(0, h.conn, s, AppOf(h));
    if !s.flags.rst && r != Answers(h.conn, ACK) {
      var c, acked := AckProcessed(0, h.conn, s), AcksOutstanding(0, h.conn, s);
      assert r == ByState(0, c, s, acked, AppOf(h));
      LateByState(c, s, acked, AppOf(h));
    }
  }

  lemma LateByState(c: Conn, s: Segment, acked: bool, app: App)
    requires !Early(c.st) && !s.flags.fin
    ensures var r := ByState(0, c, s, acked, app);
            && (r.event.Some? ==> !r.event.value.newData && !r.event.value.connected)
            && r.conn.rcvNxt ==
               c.rcvNxt + if c.st == FinWait1 || c.st == FinWait2 then |s.data| else 0
  {
  }

  /// A received segment keeps the two level exactly unless it is discarded.
  lemma ReceiveKeepsLevelIff(from: Host, to: Host, s: Segment)
    requires SenderOk(to) && ReceiverOk(to, from) && SegmentOk(from, s) && Expected(to, s)
    requires Level(from, to)
    ensures Level(from, Receive(0, to, s).host) <==> !Discards(from, to, s)
  {
    if Early(from.conn.st) && to.conn.Live() && !s.flags.rst {
      if to.started && Early(to.conn.st) {
        ReceiveIsGood(to, from, s);
        EarlyOutcome(to, s);
      } else {
        LateOutcomeIff(to, s);
      }
    }
  }

  lemma SenderMoveKeepsLevel(from: Host, to: Host, g: Host)
    requires Level(from, to) && Evolves(from, g) && (from.started || !to.connected)
    ensures Level(g, to)
  {
  }

  lemma NextKeepsLevelIff(s: System, t: Step, b: bool)
    requires Invariant(s) && LevelTowards(s, b)
    ensures LevelTowards(Next(0, s, t), b) <==> !StepDiscards(s, t, b)
  {
    match t {
      case DeliverToA(i) =>
        if i < |s.toA| {
          ReceiveIsGood(s.a, s.b, s.toA[i]);
          if b {
            SenderMoveKeepsLevel(s.a, s.b, Receive(0, s.a, s.toA[i]).host);
          } else {
            ReceiveKeepsLevelIff(s.b, s.a, s.toA[i]);
          }
        }
      case DeliverToB(i) =>
        if i < |s.toB| {
          ReceiveIsGood(s.b, s.a, s.toB[i]);
          if b {
            ReceiveKeepsLevelIff(s.a, s.b, s.toB[i]);
          } else {
            SenderMoveKeepsLevel(s.b, s.a, Receive(0, s.b, s.toB[i]).host);
          }
        }
      case AtA(l) =>
        ActIsGood(s.a, s.b, l);
        if b {
          SenderMoveKeepsLevel(s.a, s.b, Act(0, s.a, l).host);
        } else {
          LocalKeepsLevel(s.b, s.a, l);
        }
      case AtB(l) =>
        ActIsGood(s.b, s.a, l);
        if b {
          LocalKeepsLevel(s.a, s.b, l);
        } else {
          SenderMoveKeepsLevel(s.b, s.a, Act(0, s.b, l).host);
        }
    }
  }

  // -------------------------------------------------------------------- runs

  predicate LevelThroughout(s: System, steps: seq<Step>, b: bool)
    requires s.Ok()
    decreases |steps|
  {
    LevelTowards(s, b) && (steps == [] || LevelThroughout(Next(0, s, steps[0]), steps[1..], b))
  }

  predicate NothingDiscarded(s: System, steps: seq<Step>, b: bool)
    requires s.Ok()
    decreases |steps|
  {
    steps == [] || (!StepDiscards(s, steps[0], b) && NothingDiscarded(Next(0, s, steps[0]), steps[1..], b))
  }

  lemma {:induction false} InvariantRunIsLevelIff(s: System, steps: seq<Step>, b: bool)
    requires Invariant(s) && LevelTowards(s, b)
    ensures LevelThroughout(s, steps, b) <==> NothingDiscarded(s, steps, b)
    decreases |steps|
  {
    if steps != [] {
      NextKeepsInvariant(s, steps[0]);
      NextKeepsLevelIff(s, steps[0], b);
      if LevelTowards(Next(0, s, steps[0]), b) {
        InvariantRunIsLevelIff(Next(0, s, steps[0]), steps[1..], b);
      }
    }
  }

  /// In each direction of every run, what is acknowledged is at all times exactly what was
  /// delivered if and only if no new data reaches an end in FIN-WAIT-1 or FIN-WAIT-2.
  lemma AcknowledgedIsDeliveredIff(s: System, steps: seq<Step>, b: bool)
    requires s.Ok() && Initial(s)
    ensures LevelThroughout(s, steps, b) <==> NothingDiscarded(s, steps, b)
  {
    InvariantRunIsLevelIff(s, steps, b);
  }

  lemma {:induction false} LevelAtTheEnd(s: System, steps: seq<Step>, b: bool)
    requires s.Ok() && LevelThroughout(s, steps, b)
    ensures LevelTowards(Run(0, s, steps), b)
    decreases |steps|
  {
    if steps != [] {
      LevelAtTheEnd(Next(0, s, steps[0]), steps[1..], b);
    }
  }

  /// In such a run no byte leaves the buffer of an established sender undelivered, whatever
  /// state the receiver is in.
  lemma BytesLeaveAfterDelivery(s: System, steps: seq<Step>, b: bool)
    requires s.Ok() && Initial(s) && NothingDiscarded(s, steps, b)
    ensures var r := Run(0, s, steps);
            var from, to := if b then r.a else r.b, if b then r.b else r.a;
            from.conn.st == Established && to.connected ==> from.tx.prev <= |to.delivered|
  {
    RunKeepsInvariant(s, steps);
    AcknowledgedIsDeliveredIff(s, steps, b);
    LevelAtTheEnd(s, steps, b);
  }

  // ------------------------------------------------ a run that does lose bytes

  /// The client of B closes.
  lemma ClientCloses(s: System) returns (r: System)
    requires s.Ok() && TcpEndToEnd.Reachable(s)
    requires s.b.connected && s.b.conn.st == Established && s.b.conn.len == 0 && s.b.server == IDLE
    ensures r.Ok() && TcpEndToEnd.Reachable(r) && r.a == s.a && r.toB == s.toB
    ensures r.b == s.b.(conn := s.b.conn.Enter(FinWait1).(len := 1, nrtx := 0), server := r.b.server)
    ensures r.toA == s.toA + [Sends(r.b.conn, FIN_ACK, [])]
  {
    TcpEndToEnd.ReachableNext(s, AtB(Do(AskClose)));
    var q := Next(0, s, AtB(Do(AskClose)));
    TcpEndToEnd.ReachableNext(q, AtB(PollRequest));
    r := Next(0, q, AtB(PollRequest));
    var e := NO_EVENT.(poll := true, mss := q.b.conn.mss);
    assert Reply(q.b, e).request == Close;
    assert Poll(q.b.conn, AppOf(q.b)) == AppSend(q.b.conn, e, Reply(q.b, e));
  }

  /// B, in FIN-WAIT-1, acknowledges the data segment `s.toB[i]` and drops it.
  lemma DataIsDropped(s: System, i: nat, data: seq<Byte>) returns (r: System)
    requires s.Ok() && TcpEndToEnd.Reachable(s) && i < |s.toB| && data != []
    requires s.toB[i] == Sends(s.a.conn, ACK_PSH, data)
    requires s.b.conn.st == FinWait1 && !s.b.conn.stopped && s.b.conn.len == 1
    requires s.b.conn.rcvNxt == s.a.conn.sndNxt && s.b.conn.sndNxt == s.a.conn.rcvNxt
    ensures r.Ok() && TcpEndToEnd.Reachable(r) && r.a == s.a
    ensures r.b == s.b.(conn := s.b.conn.(rcvNxt := s.b.conn.rcvNxt + |data|))
    ensures r.toA == s.toA + [Sends(r.b.conn, ACK, [])]
  {
    TcpEndToEnd.ReachableNext(s, DeliverToB(i));
    r := Next(0, s, DeliverToB(i));
    var seg := s.toB[i];
    assert !AcksOutstanding(0, s.b.conn, seg);
    assert Input(0, s.b.conn, seg, AppOf(s.b)) == InputFinWait1(0, s.b.conn, seg, false, AppOf(s.b));
  }

  /// A learns that all it has in flight is acknowledged.
  lemma BytesAreReleased(s: System, i: nat, c: Conn) returns (r: System)
    requires s.Ok() && TcpEndToEnd.Reachable(s) && i < |s.toA|
    requires s.toA[i] == Sends(c, ACK, []) && c.rcvNxt == s.a.conn.sndNxt + s.a.conn.len
    requires s.a.conn.st == Established && s.a.conn.len == s.a.tx.rd == |s.a.tx.accepted| && s.a.conn.len > 0
    ensures TcpEndToEnd.Reachable(r) && r.b == s.b && r.a.conn.st == Established
    ensures r.a.tx == s.a.tx.(prev := s.a.tx.rd)
  {
    TcpEndToEnd.ReachableNext(s, DeliverToA(i));
    r := Next(0, s, DeliverToA(i));
    var seg := s.toA[i];
    var d := AckProcessed(0, s.a.conn, seg);
    assert AcksOutstanding(0, s.a.conn, seg);
    assert Input(0, s.a.conn, seg, AppOf(s.a)) == InputEstablished(0, d, seg, true, AppOf(s.a));
    var mss := if seg.wnd > d.initialMss || seg.wnd == 0 then d.initialMss else seg.wnd;
    var e := NO_EVENT.(acked := true, mss := mss);
    assert NextSegment(s.a.tx, mss) == [];
    assert Reply(s.a, e) == AppReply([], Carry, false, false);
    assert InputEstablished(0, d, seg, true, AppOf(s.a)) == AppSend(d.(mss := mss), e, Reply(s.a, e));
    assert Fetch(s.a.tx, mss) == s.a.tx.(prev := s.a.tx.rd);
  }

  /// For any bytes that fit into one packet there is a run, with both clients connected and the
  /// sender established to the end, in which they leave the buffer and are never delivered: the
  /// other client closes while they are on their way.
  lemma BytesMayLeaveUndelivered(data: seq<Byte>) returns (s: System)
    requires 0 < |data| <= PacketSplit.SPLIT_THRESHOLD
    ensures TcpEndToEnd.Reachable(s) && s.a.conn.st == Established && s.b.connected
    ensures s.a.tx.accepted == data && s.a.tx.prev == |data| && s.b.delivered == []
  {
    var s1 := TcpEndToEnd.ConnectionOpens(|data|);
    FlattenOne(data);
    var s2 := TcpEndToEnd.SegmentOut(s1, |data|, [data]);
    assert data[..|data|] == data;
    var s3 := ClientCloses(s2);
    assert Sends(s3.a.conn, ACK_PSH, data) == Sends(s1.a.conn, ACK_PSH, data);
    var s4 := DataIsDropped(s3, |s1.toB|, data);
    s := BytesAreReleased(s4, |s3.toA|, s4.b.conn);
  }

  // ------------------------------------------------------------- a lost FIN

  function PulsesAtB(n: nat): seq<Step> {
    if n == 0 then [] else [AtB(Pulse)] + PulsesAtB(n - 1)
  }

  /// The timer of B runs down and its FIN goes out once more.
  lemma {:induction false} FinGoesOutAgain(s: System)
    requires s.Ok() && s.b.conn.st == FinWait1 && !s.b.conn.stopped && s.b.conn.len == 1 && s.b.conn.nrtx == 0
    ensures var r := Run(0, s, PulsesAtB(s.b.conn.timer + 1));
            && r.a == s.a && r.toB == s.toB && r.b.conn.st == FinWait1
            && r.toA == s.toA + [Sends(s.b.conn, FIN_ACK, [])]
    decreases s.b.conn.timer
  {
    var n := s.b.conn.timer;
    var t := Next(0, s, AtB(Pulse));
    assert PulsesAtB(n + 1)[0] == AtB(Pulse) && PulsesAtB(n + 1)[1..] == PulsesAtB(n);
    if n == 0 {
      var c := s.b.conn;
      assert Timer(c, AppOf(s.b)) == Answers(c.(timer := Backoff(0), nrtx := 1), FIN_ACK);
    } else {
      assert t == s.(b := s.b.(conn := s.b.conn.(timer := n - 1)));
      FinGoesOutAgain(t);
    }
  }

  lemma {:induction false} RunOfConcat(s: System, x: seq<Step>, y: seq<Step>)
    requires s.Ok()
    ensures Run(0, s, x + y) == Run(0, Run(0, s, x), y)
    decreases |x|
  {
    if x == [] {
      assert x + y == y;
    } else {
      assert (x + y)[1..] == x[1..] + y;
      RunOfConcat(Next(0, s, x[0]), x[1..], y);
    }
  }

  lemma {:induction false} OnlyPulses(n: nat)
    ensures forall t :: t in PulsesAtB(n) ==> t == AtB(Pulse)
  {
    if n > 0 {
      OnlyPulses(n - 1);
    }
  }

  /// The FIN of B takes an established A with nothing outstanding to LAST-ACK.
  lemma FinIsTaken(s: System, i: nat)
    requires s.Ok() && i < |s.toA| && s.a.conn.Is(Established) && s.a.conn.len == 0
    requires s.toA[i].flags == FIN_ACK && s.toA[i].seqno == s.a.conn.rcvNxt
    ensures Next(0, s, DeliverToA(i)).a.conn.st == LastAck
  {
    var seg := s.toA[i];
    assert Input(0, s.a.conn, seg, AppOf(s.a)) == InputEstablished(0, s.a.conn, seg, false, AppOf(s.a));
  }

  /// From a state some run reaches, in which B's client has just closed: the first FIN, number
  /// `i`, is lost, the timer repeats it, and the peer closes too.
  lemma LostFinIsRepeated(cap: nat) returns (s: System, i: nat, steps: seq<Step>)
    ensures s.Ok() && TcpEndToEnd.Reachable(s) && s.b.conn.st == FinWait1 && s.a.conn.st == Established
    ensures i < |s.toA| && s.toA[i].flags == FIN_ACK && DeliverToA(i) !in steps
    ensures Run(0, s, steps).a.conn.st == LastAck
  {
    var s0 := TcpEndToEnd.ConnectionOpens(cap);
    s := ClientCloses(s0);
    i := |s.toA| - 1;
    var n := s.b.conn.timer + 1;
    FinGoesOutAgain(s);
    var r := Run(0, s, PulsesAtB(n));
    steps := PulsesAtB(n) + [DeliverToA(i + 1)];
    RunOfConcat(s, PulsesAtB(n), [DeliverToA(i + 1)]);
    assert Run(0, r, [DeliverToA(i + 1)]) == Run(0, Next(0, r, DeliverToA(i + 1)), []);
    FinIsTaken(r, i + 1);
    OnlyPulses(n);
  }
}
