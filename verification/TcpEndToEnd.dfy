/// What an application may rely on, from end to end: stream safety over every run, on unbounded
/// and on 32-bit sequence numbers, and a run from a fresh start to the first data segment (module
/// TcpDelivery goes on from there).

module TcpEndToEnd {
  import opened Basics
  import opened UipTcp
  import opened BufferedSend
  import opened TcpSystem
  import PacketSplit
  import TcpStreamSafety
  import TcpWraparound

  // ---------------------------------------------------------------- safety

  /// In every reachable state of every run, both applications have received a prefix of what
  /// the other side's client was accepted for, each byte once and in order.
  lemma StreamSafety(s: System, steps: seq<Step>)
    requires s.Ok() && Initial(s)
    ensures var r := Run(0, s, steps);
            r.b.delivered <= r.a.tx.accepted && r.a.delivered <= r.b.tx.accepted
  {
    TcpStreamSafety.RunKeepsInvariant(s, steps);
  }

  /// The receiver is never ahead of the segment in flight. As long as it has not sent a FIN, a
  /// byte leaves the buffer of an established sender only after the other application received
  /// it; module TcpHalfClose has the exact condition and what happens otherwise.
  lemma BuffersAreInLockStep(s: System, steps: seq<Step>)
    requires s.Ok() && Initial(s)
    ensures var r := Run(0, s, steps);
            && |r.b.delivered| <= r.a.tx.rd && |r.a.delivered| <= r.b.tx.rd
            && (r.a.conn.st == Established && (r.b.conn.st == SynRcvd || r.b.conn.st == Established) ==>
                  r.a.tx.prev <= |r.b.delivered|)
            && (r.b.conn.st == Established && r.a.conn.st == Established ==>
                  r.b.tx.prev <= |r.a.delivered|)
  {
    TcpStreamSafety.RunKeepsInvariant(s, steps);
  }

  /// Stream safety of the machine as built.
  lemma StreamSafety32(s: System, steps: seq<Step>)
    requires s.Ok() && Initial(s) && TcpWraparound.FreshRun(s, steps)
    ensures var r := Run(SEQ_MODULUS, TcpWraparound.WrapSystem(s), steps);
            r.b.delivered <= r.a.tx.accepted && r.a.delivered <= r.b.tx.accepted
  {
    TcpWraparound.RunWraps(s, steps);
    StreamSafety(s, steps);
  }

  // -------------------------------------------------------------- progress

  ghost predicate Reachable(s: System) {
    exists s0: System, steps :: s0.Ok() && Initial(s0) && Run(0, s0, steps) == s
  }

  lemma {:induction false} RunThenStep(s: System, steps: seq<Step>, t: Step)
    requires s.Ok()
    ensures Run(0, s, steps + [t]) == Next(0, Run(0, s, steps), t)
    decreases |steps|
  {
    if steps == [] {
      assert Run(0, Next(0, s, t), []) == Next(0, s, t);
    } else {
      RunThenStep(Next(0, s, steps[0]), steps[1..], t);
      assert (steps + [t])[1..] == steps[1..] + [t];
    }
  }

  lemma ReachableNext(s: System, t: Step)
    requires s.Ok() && Reachable(s)
    ensures Reachable(Next(0, s, t))
  {
    var s0: System, steps :| s0.Ok() && Initial(s0) && Run(0, s0, steps) == s;
    RunThenStep(s0, steps, t);
  }

  /// A connection of A to B just started; the SYN is due.
  function Opening(cap: nat): (s: System)
    ensures s.Ok() && Initial(s)
  {
    var tx := Tx([], 0, 0, cap, 0);
    var a := Conn(4096, 80, 2, 0, 100, 1, UIP_TCP_MSS, UIP_TCP_MSS, 0, 16, UIP_RTO, SynSent, false, 0, 0);
    var b := Conn(80, 4096, 1, 0, 0, 0, UIP_TCP_MSS, UIP_TCP_MSS, 0, 0, 0, Closed, false, 0, 0);
    System(Host(a, 100, true, false, tx, IDLE, []), Host(b, 500, false, false, tx, IDLE, []), [], [])
  }

  /// Both ends are connected, nothing is in flight that matters.
  predicate Open(s: System, cap: nat) {
    && s.Ok()
    && s.a.connected && s.a.conn.st == Established && !s.a.conn.stopped && s.a.conn.len == 0
    && s.a.conn.mss == s.a.conn.initialMss == UIP_TCP_MSS
    && s.a.server == IDLE && s.a.tx == Tx([], 0, 0, cap, 0)
    && s.b.conn.st == Established && !s.b.conn.stopped && s.b.delivered == [] && s.b.connected
    && s.b.conn.len == 0 && s.b.server == IDLE
    && s.b.conn.rcvNxt == s.a.conn.sndNxt && s.b.conn.sndNxt == s.a.conn.rcvNxt
  }

  lemma SynSentOut(cap: nat) returns (s: System)
    ensures s.Ok() && Reachable(s) && s.toA == []
    ensures s.b == Opening(cap).b && s.a == Opening(cap).a.(conn := Opening(cap).a.conn.(timer := 3, nrtx := 1))
    ensures s.toB == [Segment(SYN, 100, 0, UIP_RECEIVE_WINDOW, Some(UIP_TCP_MSS), [])]
  {
    var s0 := Opening(cap);
    assert Run(0, s0, []) == s0;
    ReachableNext(s0, AtA(Pulse));
    s := Next(0, s0, AtA(Pulse));
  }

  lemma SynAckOut(cap: nat) returns (s: System)
    ensures s.Ok() && Reachable(s) && |s.toB| == 1
    ensures s.a == Opening(cap).a.(conn := Opening(cap).a.conn.(timer := 3, nrtx := 1))
    ensures s.toA == [Segment(SYN_ACK, 500, 101, UIP_RECEIVE_WINDOW, Some(UIP_TCP_MSS), [])]
    ensures var c := s.b.conn;
            && c.st == SynRcvd && !c.stopped && c.sndNxt == 500 && c.rcvNxt == 101 && c.len == 1
            && s.b.started && s.b.delivered == [] && s.b.tx == Opening(cap).b.tx
  {
    var s1 := SynSentOut(cap);
    ReachableNext(s1, DeliverToB(0));
    s := Next(0, s1, DeliverToB(0));
  }

  lemma AckOut(cap: nat) returns (s: System)
    ensures s.Ok() && Reachable(s) && |s.toB| == 2
    ensures s.toB[1] == Segment(ACK, 101, 501, UIP_RECEIVE_WINDOW, None, [])
    ensures var c := s.a.conn;
            && s.a.connected && c.st == Established && !c.stopped && c.len == 0
            && c.mss == c.initialMss == UIP_TCP_MSS && c.sndNxt == 101 && c.rcvNxt == 501
            && s.a.server == IDLE && s.a.tx == Tx([], 0, 0, cap, 0)
    ensures var c := s.b.conn;
            && c.st == SynRcvd && !c.stopped && c.sndNxt == 500 && c.rcvNxt == 101 && c.len == 1
            && s.b.started && s.b.delivered == [] && s.b.tx == Opening(cap).b.tx
  {
    var s1 := SynAckOut(cap);
    ReachableNext(s1, DeliverToA(0));
    s := Next(0, s1, DeliverToA(0));
  }

  lemma ConnectionOpens(cap: nat) returns (s: System)
    ensures Reachable(s) && Open(s, cap)
  {
    var s1 := AckOut(cap);
    ReachableNext(s1, DeliverToB(1));
    s := Next(0, s1, DeliverToB(1));
  }

  /// The client of A writes once or more often before the first poll.
  lemma {:induction false} DataQueued(s: System, before: seq<Byte>, cap: nat, n: nat, writes: seq<seq<Byte>>)
      returns (q: System, m: nat)
    requires s.Ok() && Reachable(s) && s.a.connected && |before| + |Flatten(writes)| <= cap
    requires s.a.tx == Tx(before, 0, 0, cap, 0) && s.a.server == IDLE.(sendRequests := n)
    ensures q.Ok() && Reachable(q) && m >= n && (before == [] && writes != [] ==> m > n)
    ensures q == s.(a := s.a.(tx := Tx(before + Flatten(writes), 0, 0, cap, 0), server := IDLE.(sendRequests := m)))
    decreases |writes|
  {
    if writes == [] {
      assert before + [] == before;
      q, m := s, n;
    } else {
      var w := writes[0];
      ReachableNext(s, AtA(Do(Queue(w))));
      q := Next(0, s, AtA(Do(Queue(w))));
      var k := n + if before == [] then 1 else 0;
      WriteIsAcceptedIff(s.a.tx, w);
      assert q == s.(a := s.a.(tx := Tx(before + w, 0, 0, cap, 0), server := IDLE.(sendRequests := k)));
      Associative(before, w, Flatten(writes[1..]));
      q, m := DataQueued(q, before + w, cap, k, writes[1..]);
    }
  }

  /// The first segment leaves, split in two if it is long.
  lemma SegmentOut(s: System, cap: nat, writes: seq<seq<Byte>>) returns (r: System)
    requires Reachable(s) && Open(s, cap) && 0 < |Flatten(writes)| <= cap
    ensures var data := Flatten(writes); var n := Min(|data|, UIP_TCP_MSS);
            && r.Ok() && Reachable(r) && r.b == s.b
            && r.a == s.a.(conn := s.a.conn.(len := n, nrtx := 0), tx := Tx(data, 0, n, cap, 0), server := r.a.server)
            && r.toB == s.toB + SplitSegment(0, Sends(s.a.conn, ACK_PSH, data[..n]))
  {
    var data := Flatten(writes);
    var q, m := DataQueued(s, [], cap, 0, writes);
    assert [] + data == data;
    ReachableNext(q, AtA(PollRequest));
    r := Next(0, q, AtA(PollRequest));
    PolledSend(q.a, data);
    var n := Min(|data|, UIP_TCP_MSS);
    assert Sends(q.a.conn.(nrtx := 0, len := n), ACK_PSH, data[..n]) == Sends(s.a.conn, ACK_PSH, data[..n]);
  }

  lemma PolledSend(h: Host, data: seq<Byte>)
    requires h.conn.st == Established && h.conn.len == 0 && h.conn.mss == UIP_TCP_MSS && !h.conn.stopped
    requires h.tx == Tx(data, 0, 0, h.tx.cap, 0) && 0 < |data| <= h.tx.cap
    requires h.server == IDLE.(sendRequests := h.server.sendRequests) && h.server.sendRequests > 0 && h.connected
    ensures var n := Min(|data|, UIP_TCP_MSS);
            var d := h.conn.(nrtx := 0, len := n);
            Act(0, h, PollRequest) == Effect(
              h.(conn := d, tx := h.tx.(rd := n), server := IDLE.(sendRequests := h.server.sendRequests - 1)),
              SplitSegment(0, Sends(d, ACK_PSH, data[..n])))
  {
    var e := NO_EVENT.(poll := true, mss := UIP_TCP_MSS);
    var n := Min(|data|, UIP_TCP_MSS);
    assert NextSegment(h.tx, UIP_TCP_MSS) == data[..n];
    assert Reply(h, e) == AppReply(data[..n], Carry, false, false);
    TcpStreamSafety.AppSendCarries(h.conn, e, Reply(h, e));
    var d := h.conn.(nrtx := 0, len := n);
    assert Poll(h.conn, AppOf(h)) == StepOut(d, Some(Sends(d, ACK_PSH, data[..n])), Some(e));
    assert AfterEvent(h.(conn := d), e)
        == h.(conn := d, tx := h.tx.(rd := n), server := IDLE.(sendRequests := h.server.sendRequests - 1));
  }
}
