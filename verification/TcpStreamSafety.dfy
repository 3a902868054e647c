/// End-to-end safety with unbounded sequence numbers: whatever the network does, each
/// application receives a prefix of what the other queued, and a sender moves on only past what
/// the receiver has acknowledged. While the receiver is not in FIN-WAIT that is what it has
/// delivered (module TcpHalfClose).

module TcpStreamSafety {
  import opened Basics
  import opened UipTcp
  import opened BufferedSend
  import opened TcpSystem

  // ------------------------------------------------------------- invariants

  /// States in which this end has not sent a FIN and may still pass data on.
  predicate Early(st: TcpState) {
    st == SynSent || st == SynRcvd || st == Established
  }

  /// The connection record agrees with the client's cursors.
  predicate SenderOk(h: Host) {
    && h.tx.Ok()
    && (h.started || (h.conn.Is(Closed) && !h.connected && h.tx.prev == h.tx.rd == 0))
    && match h.conn.st
       case SynSent => Unsynchronised(h)
       case SynRcvd => Unsynchronised(h)
       case Established => h.connected && h.conn.sndNxt == h.iss + 1 + h.tx.prev && h.conn.len == h.tx.rd - h.tx.prev
       case _ => true
  }

  predicate Unsynchronised(h: Host) {
    h.started && !h.connected && !h.conn.stopped
    && h.conn.sndNxt == h.iss && h.conn.len == 1 && h.tx.prev == h.tx.rd == 0
  }

  /// A segment once sent by host `h` and possibly still under way.
  predicate SegmentOk(h: Host, s: Segment) {
    if s.flags.rst then s.data == []
    else
      && (s.flags.syn ==> s.data == [] && s.seqno == h.iss && !s.flags.fin)
      && (s.flags.fin ==> s.data == [] && !Early(h.conn.st))
      && (s.flags.ack ==> h.conn.st != SynSent && s.ackno <= h.conn.rcvNxt)
      && (s.data != [] ==> Carries(h, s))
  }

  /// The data of a segment is what its sequence number says.
  predicate Carries(h: Host, s: Segment) {
    var at := s.seqno - h.iss - 1;
    && 0 <= at && at + |s.data| <= h.tx.rd <= |h.tx.accepted|
    && s.data == h.tx.accepted[at..at + |s.data|]
  }

  /// What `to` has delivered is a prefix of what the client of `from` handed over.
  predicate ReceiverOk(to: Host, from: Host) {
    && |to.delivered| <= from.tx.rd <= |from.tx.accepted|
    && to.delivered == from.tx.accepted[..|to.delivered|]
    && (to.conn.st == SynRcvd || to.conn.st == Established ==>
          to.conn.rcvNxt == from.iss + 1 + |to.delivered|)
    && (to.conn.st == SynSent || !to.started ==> to.delivered == [])
  }

  /// A sender moves on only past what the receiver has acknowledged.
  predicate LockStep(from: Host, to: Host) {
    from.started ==> from.conn.sndNxt == from.iss || from.conn.sndNxt <= to.conn.rcvNxt
  }

  /// While A has not heard from B.
  predicate Handshake(s: System) {
    s.a.started
    && (s.a.conn.st == SynSent ==>
      && (s.b.conn.st == Closed || s.b.conn.st == SynRcvd)
      && (s.b.started ==> s.b.conn.sndNxt == s.b.iss)
      && (forall t :: t in s.toA ==> t.flags.rst || (t.data == [] && !t.flags.fin && (t.flags.syn ==> t.flags == SYN_ACK)))
      && (forall t :: t in s.toB ==> t.flags.rst || t.flags == SYN))
  }

  /// While B has not even seen a SYN.
  predicate Alone(s: System) {
    && s.toA == []
    && (s.a.conn.st == SynSent || s.a.conn.Is(Closed)) && !s.a.connected && s.a.conn.sndNxt == s.a.iss
    && forall t :: t in s.toB ==> t.flags.rst || t.flags == SYN
  }

  ghost predicate Invariant(s: System) {
    && SenderOk(s.a) && SenderOk(s.b)
    && ReceiverOk(s.b, s.a) && ReceiverOk(s.a, s.b)
    && LockStep(s.a, s.b) && LockStep(s.b, s.a)
    && Handshake(s)
    && s.b.conn.st != SynSent
    && (!s.b.started ==> Alone(s))
    && (forall t :: t in s.toB ==> SegmentOk(s.a, t))
    && (forall t :: t in s.toA ==> SegmentOk(s.b, t))
  }

  // ---------------------------------------------------------------- sending

  /// How a host may change in one step.
  predicate Evolves(h: Host, g: Host) {
    && g.iss == h.iss && (h.started ==> g.started)
    && h.tx.accepted <= g.tx.accepted && h.tx.rd <= g.tx.rd <= |g.tx.accepted|
    && (h.conn.st != SynSent ==> g.conn.st != SynSent)
    && (h.started && h.conn.st != SynSent ==>
          && h.conn.rcvNxt <= g.conn.rcvNxt
          && (!Early(h.conn.st) ==> !Early(g.conn.st)))
  }

  lemma SegmentStaysOk(h: Host, g: Host, s: Segment)
    requires h.tx.Ok() && h.started && Evolves(h, g) && SegmentOk(h, s)
    ensures SegmentOk(g, s)
  {
    if s.data != [] && !s.flags.rst {
      var at := s.seqno - h.iss - 1;
      assert g.tx.accepted[at..at + |s.data|] == h.tx.accepted[at..at + |s.data|];
    }
  }

  /// Splitting a correct segment gives correct segments.
  lemma SplitStaysOk(h: Host, s: Segment)
    requires SegmentOk(h, s)
    ensures forall t :: t in SplitSegment(0, s) ==> SegmentOk(h, t)
  {
    if |s.data| > PacketSplit.SPLIT_THRESHOLD && !s.flags.rst {
      var n := PacketSplit.FirstLength(|s.data|);
      var at := s.seqno - h.iss - 1;
      assert s.data[..n] == h.tx.accepted[at..at + n];
      assert s.data[n..] == h.tx.accepted[at + n..at + |s.data|];
    }
  }

  /// A step of uIP and its application that keeps the sending side in order.
  predicate GoodStep(h: Host, r: StepOut)
    requires h.tx.Ok()
  {
    var g := Apply(0, h, r).host;
    && SenderOk(g) && Evolves(h, g)
    && (r.out.Some? ==> SegmentOk(g, r.out.value))
  }

  /// `appsend` with bytes to send and nothing left outstanding.
  lemma AppSendCarries(c: Conn, e: AppEvent, r: AppReply)
    requires r.request == Carry && 0 < |r.send| <= c.mss && (c.len == 0 || e.acked)
    ensures var out := AppSend(c, e, r);
            && out.conn == c.(nrtx := 0, stopped := c.stopped || r.stop, len := |r.send|)
            && out.out == Some(Sends(out.conn, ACK_PSH, r.send))
            && out.event == Some(e)
  {
    assert r.send[..|r.send|] == r.send;
  }

  /// `appsend` with nothing to send.
  lemma AppSendIdle(c: Conn, e: AppEvent, r: AppReply)
    requires r.request == Carry && r.send == []
    ensures var out := AppSend(c, e, r);
            && out.conn == c.(nrtx := 0, stopped := c.stopped || r.stop)
            && (out.out == None || out.out == Some(Sends(out.conn, ACK, [])))
            && out.event == Some(e)
  {
  }

  predicate AppCall(h: Host, c: Conn, e: AppEvent) {
    && h.tx.Ok() && h.started && c.st == Established && e.mss == c.mss && !e.rexmit
    && c.sndNxt == h.iss + 1 + (if e.acked then h.tx.rd else h.tx.prev)
    && c.len == (if e.acked then 0 else h.tx.rd - h.tx.prev)
    && (e.poll ==> h.tx.prev == h.tx.rd)
    && (h.connected || e.connected)
    && Early(h.conn.st) && (h.conn.st != SynSent ==> h.conn.rcvNxt <= c.rcvNxt)
  }

  /// The application's answer to event `e` on the established record `c`.
  lemma AppSendIsGood(h: Host, c: Conn, e: AppEvent)
    requires AppCall(h, c, e)
    ensures var r := AppSend(c, e, Reply(h, e));
            GoodStep(h, r) && r.conn.rcvNxt == c.rcvNxt && r.conn.sndNxt == c.sndNxt
  {
    var reply := Reply(h, e);
    if reply.request == Carry {
      if reply.send != [] {
        AppSendFetchedIsGood(h, c, e);
      } else {
        AppSendIdle(c, e, reply);
        AppSendIdleIsGood(h, c, e);
      }
    } else {
      AppSendEndsIsGood(h, c, e);
    }
  }

  lemma AppSendFetchedIsGood(h: Host, c: Conn, e: AppEvent)
    requires AppCall(h, c, e) && Reply(h, e).request == Carry && Reply(h, e).send != []
    ensures var r := AppSend(c, e, Reply(h, e));
            GoodStep(h, r) && r.conn.rcvNxt == c.rcvNxt && r.conn.sndNxt == c.sndNxt
  {
    var reply := Reply(h, e);
    assert reply.send == NextSegment(h.tx, e.mss);
    AppSendCarries(c, e, reply);
    var r := AppSend(c, e, reply);
    var g := Apply(0, h, r).host;
    assert g.tx == Fetch(h.tx, e.mss);
    assert Carries(g, r.out.value);
  }

  lemma AppSendIdleIsGood(h: Host, c: Conn, e: AppEvent)
    requires AppCall(h, c, e) && Reply(h, e).request == Carry && Reply(h, e).send == []
    ensures var r := AppSend(c, e, Reply(h, e));
            GoodStep(h, r) && r.conn.rcvNxt == c.rcvNxt && r.conn.sndNxt == c.sndNxt
  {
    AppSendIdle(c, e, Reply(h, e));
  }

  lemma AppSendEndsIsGood(h: Host, c: Conn, e: AppEvent)
    requires AppCall(h, c, e) && Reply(h, e).request != Carry
    ensures var r := AppSend(c, e, Reply(h, e));
            GoodStep(h, r) && r.conn.rcvNxt == c.rcvNxt && r.conn.sndNxt == c.sndNxt
  {
  }

  /// What A may see before it is synchronised.
  predicate Expected(h: Host, s: Segment) {
    h.conn.st == SynSent ==>
      s.flags.rst || (s.data == [] && !s.flags.fin && (s.flags.syn ==> s.flags == SYN_ACK))
  }

  /// The record after acknowledgement processing.
  lemma AckedRecord(h: Host, s: Segment)
    requires SenderOk(h)
    ensures var c := AckProcessed(0, h.conn, s);
            && c == h.conn.(sndNxt := c.sndNxt, len := c.len, timer := c.timer, sa := c.sa, sv := c.sv, rto := c.rto)
            && if AcksOutstanding(0, h.conn, s) then
                 c.len == 0 && c.sndNxt == h.conn.sndNxt + h.conn.len == s.ackno
               else c == h.conn
  {
  }

  lemma InputIsGood(h: Host, s: Segment)
    requires SenderOk(h) && h.started && h.conn.Live() && Expected(h, s)
    ensures GoodStep(h, Input(0, h.conn, s, AppOf(h)))
  {
    var r := Input(0, h.conn, s, AppOf(h));
    if s.flags.rst || r == Answers(h.conn, ACK) {
    } else {
      AckedRecord(h, s);
      var c := AckProcessed(0, h.conn, s);
      var acked := AcksOutstanding(0, h.conn, s);
      assert r == ByState(0, c, s, acked, AppOf(h));
      match c.st {
        case SynRcvd => SynRcvdIsGood(h, c, s, acked);
        case SynSent => SynSentIsGood(h, c, s, acked);
        case Established => EstablishedIsGood(h, c, s, acked);
        case _ => LateIsGood(h, c, s, acked);
      }
    }
  }

  /// `c` is the record of `h` with acknowledgement `acked` taken into account.
  predicate After(h: Host, c: Conn, acked: bool) {
    && SenderOk(h) && h.started && c.st == h.conn.st && c.stopped == h.conn.stopped
    && c.rcvNxt == h.conn.rcvNxt && c.mss == h.conn.mss
    && if acked then c.len == 0 && c.sndNxt == h.conn.sndNxt + h.conn.len
       else c.len == h.conn.len && c.sndNxt == h.conn.sndNxt
  }

  lemma SynRcvdIsGood(h: Host, c: Conn, s: Segment, acked: bool)
    requires After(h, c, acked) && c.st == SynRcvd
    ensures GoodStep(h, InputSynRcvd(0, c, s, acked, AppOf(h)))
  {
    if acked {
      var d := c.Enter(Established).(len := 0, rcvNxt := Advance(0, c.rcvNxt, |s.data|));
      var e := NO_EVENT.(connected := true, newData := |s.data| > 0, mss := c.mss, data := s.data);
      AppSendIsGood(h, d, e);
    }
  }

  lemma SynSentIsGood(h: Host, c: Conn, s: Segment, acked: bool)
    requires After(h, c, acked) && c.st == SynSent && !s.flags.rst
    ensures GoodStep(h, InputSynSent(0, c, s, acked, AppOf(h)))
  {
    if acked && s.flags == SYN_ACK {
      var mss := if s.mssOption.Some? then Min(s.mssOption.value, UIP_TCP_MSS) else c.mss;
      var initialMss := if s.mssOption.Some? then mss else c.initialMss;
      var d := c.Enter(Established).(len := 0, rcvNxt := Advance(0, s.seqno, 1), mss := mss, initialMss := initialMss);
      var e := NO_EVENT.(connected := true, newData := true, mss := d.mss);
      AppSendIsGood(h, d, e);
    }
  }

  lemma EstablishedIsGood(h: Host, c: Conn, s: Segment, acked: bool)
    requires After(h, c, acked) && c.st == Established
    ensures GoodStep(h, InputEstablished(0, c, s, acked, AppOf(h)))
  {
    if !(s.flags.fin && !c.stopped) {
      var newData := |s.data| > 0 && !c.stopped;
      if newData || acked {
        var mss := if s.wnd > c.initialMss || s.wnd == 0 then c.initialMss else s.wnd;
        var d := c.(rcvNxt := if newData then Advance(0, c.rcvNxt, |s.data|) else c.rcvNxt, mss := mss);
        var e := NO_EVENT.(acked := acked, newData := newData, mss := mss, data := s.data);
        AppSendIsGood(h, d, e);
      }
    }
  }

  lemma LateIsGood(h: Host, c: Conn, s: Segment, acked: bool)
    requires After(h, c, acked) && !Early(c.st)
    ensures GoodStep(h, ByState(0, c, s, acked, AppOf(h)))
  {
    LateOutcome(c, s, acked, AppOf(h));
  }

  /// After the peers started to close, the application sends and receives no data.
  lemma LateOutcome(c: Conn, s: Segment, acked: bool, app: App)
    requires !Early(c.st)
    ensures var r := ByState(0, c, s, acked, app);
            && !Early(r.conn.st) && r.conn.rcvNxt >= c.rcvNxt && r.conn.sndNxt == c.sndNxt
            && (r.out == None || r.out == Some(Sends(r.conn, ACK, [])))
            && (r.event.Some? ==> r.event.value == NO_EVENT.(closed := true, mss := r.event.value.mss, data := r.event.value.data))
  {
  }

  lemma TimerIsGood(h: Host)
    requires SenderOk(h) && h.started
    ensures GoodStep(h, Timer(h.conn, AppOf(h)))
  {
    var c := h.conn;
    if c.st == Established && c.len != 0 && c.timer == 0 && !GivesUp(c) {
      RetransmitIsGood(h, c.(timer := Backoff(c.nrtx), nrtx := c.nrtx + 1));
    } else if c.st == Established && c.len == 0 {
      AppSendIsGood(h, c, NO_EVENT.(poll := true, mss := c.mss));
    } else {
      OtherTimerIsGood(h);
    }
  }

  lemma RetransmitIsGood(h: Host, c: Conn)
    requires SenderOk(h) && h.started && h.conn.st == Established && c.len != 0
    requires c == h.conn.(timer := c.timer, nrtx := c.nrtx)
    ensures GoodStep(h, Retransmit(c, AppOf(h)))
  {
    var e := NO_EVENT.(rexmit := true, mss := c.mss);
    var send := LastSegment(h.tx);
    assert send[..c.len] == send;
    var r := Retransmit(c, AppOf(h));
    assert r.out == Some(Sends(r.conn, ACK_PSH, send));
  }

  lemma OtherTimerIsGood(h: Host)
    requires SenderOk(h) && h.started
    requires !(h.conn.st == Established && (h.conn.len == 0 || (h.conn.timer == 0 && !GivesUp(h.conn))))
    ensures GoodStep(h, Timer(h.conn, AppOf(h)))
  {
    var c := h.conn;
    if c.Live() && !c.Is(TimeWait) && !c.Is(FinWait2) && c.len != 0 && c.timer == 0 {
      if GivesUp(c) {
        GiveUpIsGood(h);
      } else {
        ControlRetransmitIsGood(h, c.(timer := Backoff(c.nrtx), nrtx := c.nrtx + 1));
      }
    }
  }

  lemma GiveUpIsGood(h: Host)
    requires SenderOk(h) && h.started
    ensures var d := h.conn.Enter(Closed).(timer := 255);
            GoodStep(h, StepOut(d, Some(Sends(d, RST_ACK, [])), Some(NO_EVENT.(timedOut := true, mss := h.conn.mss))))
  {
  }

  lemma ControlRetransmitIsGood(h: Host, c: Conn)
    requires SenderOk(h) && h.started && h.conn.st != Established
    requires c == h.conn.(timer := c.timer, nrtx := c.nrtx)
    ensures GoodStep(h, Retransmit(c, AppOf(h)))
  {
  }

  lemma PollIsGood(h: Host)
    requires SenderOk(h) && h.started
    ensures GoodStep(h, Poll(h.conn, AppOf(h)))
  {
    var c := h.conn;
    if c.st == Established && c.len == 0 {
      AppSendIsGood(h, c, NO_EVENT.(poll := true, mss := c.mss));
    }
  }

  // -------------------------------------------------------------- receiving

  /// A step that keeps the receiving side of `h` in order with respect to its peer `x`, and
  /// advances the sending position of `h` no further than `x` has received.
  predicate Delivers(h: Host, x: Host, r: StepOut)
    requires h.tx.Ok()
  {
    var g := Apply(0, h, r).host;
    && ReceiverOk(g, x)
    && (g.conn.sndNxt == h.conn.sndNxt || g.conn.sndNxt <= x.conn.rcvNxt)
  }

  /// Bytes after event `e`.
  function Heard(h: Host, e: AppEvent): seq<Byte> {
    if e.newData then h.delivered + e.data else h.delivered
  }

  /// The event hands over the next bytes of the stream of `x`.
  predicate InOrder(h: Host, x: Host, e: AppEvent) {
    var d := Heard(h, e);
    |d| <= x.tx.rd <= |x.tx.accepted| && d == x.tx.accepted[..|d|]
  }

  lemma NextBytesInOrder(h: Host, x: Host, s: Segment, e: AppEvent)
    requires ReceiverOk(h, x) && SegmentOk(x, s) && !s.flags.rst
    requires h.conn.rcvNxt == x.iss + 1 + |h.delivered|
    requires e.newData ==> e.data == s.data && (s.data != [] ==> s.seqno == h.conn.rcvNxt)
    ensures InOrder(h, x, e)
  {
    if e.newData && s.data != [] {
      var at := |h.delivered|;
      assert x.tx.accepted[..at + |s.data|] == x.tx.accepted[..at] + x.tx.accepted[at..at + |s.data|];
    } else if e.newData {
      assert h.delivered + [] == h.delivered;
    }
  }

  lemma AppSendDelivers(h: Host, x: Host, c: Conn, e: AppEvent)
    requires AppCall(h, c, e) && InOrder(h, x, e)
    requires c.rcvNxt == x.iss + 1 + |Heard(h, e)|
    requires c.sndNxt == h.conn.sndNxt || c.sndNxt <= x.conn.rcvNxt
    ensures Delivers(h, x, AppSend(c, e, Reply(h, e)))
  {
    AppSendIsGood(h, c, e);
  }

  lemma InputDelivers(h: Host, x: Host, s: Segment)
    requires SenderOk(h) && h.started && h.conn.Live() && Expected(h, s)
    requires ReceiverOk(h, x) && SegmentOk(x, s)
    ensures Delivers(h, x, Input(0, h.conn, s, AppOf(h)))
  {
    var r := Input(0, h.conn, s, AppOf(h));
    if s.flags.rst || r == Answers(h.conn, ACK) {
    } else {
      AckedRecord(h, s);
      var c := AckProcessed(0, h.conn, s);
      var acked := AcksOutstanding(0, h.conn, s);
      assert r == ByState(0, c, s, acked, AppOf(h));
      match c.st {
        case SynRcvd => SynRcvdDelivers(h, x, c, s, acked);
        case SynSent => SynSentDelivers(h, x, c, s, acked);
        case Established => EstablishedDelivers(h, x, c, s, acked);
        case _ => LateDelivers(h, x, c, s, acked);
      }
    }
  }

  /// `After`, for an in-sequence segment `s` sent by `x`.
  predicate AfterFrom(h: Host, x: Host, c: Conn, s: Segment, acked: bool) {
    && After(h, c, acked) && ReceiverOk(h, x) && SegmentOk(x, s) && !s.flags.rst
    && (c.sndNxt == h.conn.sndNxt || c.sndNxt <= x.conn.rcvNxt)
    && (c.st != SynSent && (s.data != [] || s.flags.fin) ==> s.seqno == c.rcvNxt)
  }

  lemma SynRcvdDelivers(h: Host, x: Host, c: Conn, s: Segment, acked: bool)
    requires AfterFrom(h, x, c, s, acked) && c.st == SynRcvd
    ensures Delivers(h, x, InputSynRcvd(0, c, s, acked, AppOf(h)))
  {
    if acked {
      var d := c.Enter(Established).(len := 0, rcvNxt := Advance(0, c.rcvNxt, |s.data|));
      var e := NO_EVENT.(connected := true, newData := |s.data| > 0, mss := c.mss, data := s.data);
      NextBytesInOrder(h, x, s, e);
      AppSendDelivers(h, x, d, e);
    }
  }

  lemma SynSentDelivers(h: Host, x: Host, c: Conn, s: Segment, acked: bool)
    requires AfterFrom(h, x, c, s, acked) && c.st == SynSent
    ensures Delivers(h, x, InputSynSent(0, c, s, acked, AppOf(h)))
  {
    if acked && s.flags == SYN_ACK {
      var mss := if s.mssOption.Some? then Min(s.mssOption.value, UIP_TCP_MSS) else c.mss;
      var initialMss := if s.mssOption.Some? then mss else c.initialMss;
      var d := c.Enter(Established).(len := 0, rcvNxt := Advance(0, s.seqno, 1), mss := mss, initialMss := initialMss);
      var e := NO_EVENT.(connected := true, newData := true, mss := d.mss);
      AppSendDelivers(h, x, d, e);
    }
  }

  lemma EstablishedDelivers(h: Host, x: Host, c: Conn, s: Segment, acked: bool)
    requires AfterFrom(h, x, c, s, acked) && c.st == Established
    ensures Delivers(h, x, InputEstablished(0, c, s, acked, AppOf(h)))
  {
    var newData := |s.data| > 0 && !c.stopped;
    if s.flags.fin && !c.stopped {
    } else if newData || acked {
      var mss := if s.wnd > c.initialMss || s.wnd == 0 then c.initialMss else s.wnd;
      var d := c.(rcvNxt := if newData then Advance(0, c.rcvNxt, |s.data|) else c.rcvNxt, mss := mss);
      var e := NO_EVENT.(acked := acked, newData := newData, mss := mss, data := s.data);
      NextBytesInOrder(h, x, s, e);
      AppSendDelivers(h, x, d, e);
    }
  }

  lemma LateDelivers(h: Host, x: Host, c: Conn, s: Segment, acked: bool)
    requires AfterFrom(h, x, c, s, acked) && !Early(c.st)
    ensures Delivers(h, x, ByState(0, c, s, acked, AppOf(h)))
  {
    LateOutcome(c, s, acked, AppOf(h));
  }

  /// Pulses, polls and commands deliver nothing and acknowledge nothing.
  lemma LocalDelivers(h: Host, x: Host, l: Local)
    requires SenderOk(h) && ReceiverOk(h, x)
    ensures var g := Act(0, h, l).host;
            ReceiverOk(g, x) && g.conn.sndNxt == h.conn.sndNxt && g.conn.rcvNxt == h.conn.rcvNxt
  {
    if l.Pulse? {
      TimerOutcome(h.conn, AppOf(h));
    } else if l.PollRequest? && h.conn.st == Established && h.conn.len == 0 {
      var e := NO_EVENT.(poll := true, mss := h.conn.mss);
      AppSendOutcome(h.conn, e, Reply(h, e));
    }
  }

  lemma AppSendOutcome(c: Conn, e: AppEvent, r: AppReply)
    requires c.st == Established
    ensures var out := AppSend(c, e, r);
            && out.conn.st in {Established, FinWait1, Closed}
            && out.conn.rcvNxt == c.rcvNxt && out.conn.sndNxt == c.sndNxt && out.event == Some(e)
  {
  }

  lemma TimerOutcome(c: Conn, app: App)
    ensures var r := Timer(c, app);
            && (r.conn.st == c.st || r.conn.st in {FinWait1, Closed})
            && r.conn.rcvNxt == c.rcvNxt && r.conn.sndNxt == c.sndNxt
            && (r.event.Some? ==> !r.event.value.newData)
  {
    if c.st == Established {
      var e := NO_EVENT.(poll := true, mss := c.mss);
      AppSendOutcome(c, e, app(e));
    }
  }

  // ------------------------------------------------------------- the system

  /// What one step of host `h`, whose peer is `x`, guarantees.
  ghost predicate GoodEffect(h: Host, x: Host, f: Effect) {
    var g := f.host;
    && SenderOk(g) && ReceiverOk(g, x) && Evolves(h, g)
    && (forall t :: t in f.out ==> SegmentOk(g, t))
    && (g.started ==>
          || (h.started && g.conn.sndNxt == h.conn.sndNxt)
          || g.conn.sndNxt == g.iss || g.conn.sndNxt <= x.conn.rcvNxt)
  }

  lemma ReceiveIsGood(h: Host, x: Host, s: Segment)
    requires SenderOk(h) && ReceiverOk(h, x) && SegmentOk(x, s) && Expected(h, s)
    ensures GoodEffect(h, x, Receive(0, h, s))
  {
    if h.conn.Live() {
      var r := Input(0, h.conn, s, AppOf(h));
      InputIsGood(h, s);
      InputDelivers(h, x, s);
      if r.out.Some? {
        SplitStaysOk(Apply(0, h, r).host, r.out.value);
      }
    }
  }

  lemma ActIsGood(h: Host, x: Host, l: Local)
    requires SenderOk(h) && ReceiverOk(h, x)
    ensures GoodEffect(h, x, Act(0, h, l))
  {
    LocalDelivers(h, x, l);
    if l.Do? {
      ObeyIsGood(h, l.command);
    } else if h.started {
      var r := if l.Pulse? then Timer(h.conn, AppOf(h)) else Poll(h.conn, AppOf(h));
      TimerIsGood(h);
      PollIsGood(h);
      if r.out.Some? {
        SplitStaysOk(Apply(0, h, r).host, r.out.value);
      }
    }
  }

  lemma ObeyIsGood(h: Host, c: Command)
    requires SenderOk(h)
    ensures SenderOk(Obey(h, c)) && Evolves(h, Obey(h, c))
  {
  }

  lemma PeerStaysOk(x: Host, h: Host, g: Host)
    requires ReceiverOk(x, h) && Evolves(h, g)
    ensures ReceiverOk(x, g)
  {
  }

  /// Host `h` becomes `g` while its peer `x` stands still.
  lemma LinkStaysOk(h: Host, x: Host, f: Effect, sent: seq<Segment>)
    requires SenderOk(h) && GoodEffect(h, x, f) && ReceiverOk(x, h)
    requires LockStep(h, x) && LockStep(x, h)
    requires forall t :: t in sent ==> SegmentOk(h, t)
    requires !h.started ==> sent == []
    requires !h.started || h.conn.st == SynSent ==> x.started ==> x.conn.sndNxt == x.iss
    ensures ReceiverOk(x, f.host) && LockStep(x, f.host) && LockStep(f.host, x)
    ensures forall t :: t in sent + f.out ==> SegmentOk(f.host, t)
  {
    PeerStaysOk(x, h, f.host);
    forall t | t in sent
      ensures SegmentOk(f.host, t)
    {
      SegmentStaysOk(h, f.host, t);
    }
  }

  lemma HandshakeKept(s: System, t: Step)
    requires Invariant(s) && s.a.conn.st == SynSent
    ensures Handshake(Next(0, s, t))
  {
    match t {
      case DeliverToA(i) => HandshakeKeptByDelivery(s, t);
      case DeliverToB(i) => HandshakeKeptByDelivery(s, t);
      case AtA(l) => WaitingAlone(s.a, l);
      case AtB(l) => WaitingPeerAlone(s.b, l);
    }
  }

  /// A repeats its SYN or gives up.
  lemma WaitingAlone(h: Host, l: Local)
    requires SenderOk(h) && h.conn.st == SynSent
    ensures var f := Act(0, h, l);
            f.host.started && forall t :: t in f.out ==> t.flags.rst || t.flags == SYN
  {
    if l.Pulse? {
      var c := h.conn;
      if c.len != 0 && c.timer == 0 && !GivesUp(c) {
        var d := c.(timer := Backoff(c.nrtx), nrtx := c.nrtx + 1);
        assert Timer(c, AppOf(h)) == Answers(d, SYN);
      }
    }
  }

  /// B, not yet open, repeats its SYN-ACK or gives up.
  lemma WaitingPeerAlone(h: Host, l: Local)
    requires SenderOk(h) && (h.conn.st == Closed || h.conn.st == SynRcvd)
    ensures var f := Act(0, h, l);
            && (f.host.conn.st == Closed || f.host.conn.st == SynRcvd)
            && f.host.conn.sndNxt == h.conn.sndNxt && f.host.started == h.started && f.host.iss == h.iss
            && forall t :: t in f.out ==> t.flags.rst || (t.data == [] && t.flags == SYN_ACK)
  {
    if l.Pulse? {
      var c := h.conn;
      if h.conn.st == SynRcvd && c.len != 0 && c.timer == 0 && !GivesUp(c) {
        var d := c.(timer := Backoff(c.nrtx), nrtx := c.nrtx + 1);
        assert Timer(c, AppOf(h)) == Answers(d, SYN_ACK);
      }
    }
  }

  lemma HandshakeKeptByDelivery(s: System, t: Step)
    requires Invariant(s) && s.a.conn.st == SynSent && (t.DeliverToA? || t.DeliverToB?)
    ensures Handshake(Next(0, s, t))
  {
    if t.DeliverToA? && t.i < |s.toA| {
      WhileWaiting(s.a, s.toA[t.i]);
    } else if t.DeliverToB? && t.i < |s.toB| {
      WaitingPeer(s.a, s.b, s.toB[t.i]);
    }
  }

  /// Any segment takes A out of SYN-SENT.
  lemma WhileWaiting(h: Host, s: Segment)
    requires SenderOk(h) && h.conn.st == SynSent && Expected(h, s)
    ensures Receive(0, h, s).host.conn.st != SynSent
  {
  }

  /// B answers what A sends in SYN-SENT.
  lemma WaitingPeer(a: Host, b: Host, s: Segment)
    requires SenderOk(b) && ReceiverOk(b, a) && (b.conn.st == Closed || b.conn.st == SynRcvd)
    requires (s.flags.rst || s.flags == SYN) && SegmentOk(a, s)
    requires b.started ==> b.conn.sndNxt == b.iss
    ensures var f := Receive(0, b, s);
            && (f.host.conn.st == Closed || f.host.conn.st == SynRcvd)
            && (f.host.started ==> f.host.conn.sndNxt == b.iss)
            && forall t :: t in f.out ==>
                 t.flags.rst || (t.data == [] && !t.flags.fin && (t.flags.syn ==> t.flags == SYN_ACK))
  {
  }

  lemma AMoves(s: System, f: Effect)
    requires Invariant(s) && GoodEffect(s.a, s.b, f) && Handshake(s.(a := f.host, toB := s.toB + f.out))
    ensures Invariant(s.(a := f.host, toB := s.toB + f.out))
    requires !s.b.started ==> Alone(s.(a := f.host, toB := s.toB + f.out))
  {
    LinkStaysOk(s.a, s.b, f, s.toB);
  }

  lemma BMoves(s: System, f: Effect)
    requires Invariant(s) && GoodEffect(s.b, s.a, f) && Handshake(s.(b := f.host, toA := s.toA + f.out))
    requires !f.host.started ==> f.out == []
    ensures Invariant(s.(b := f.host, toA := s.toA + f.out))
  {
    LinkStaysOk(s.b, s.a, f, s.toA);
  }

  lemma AloneKept(s: System, l: Local)
    requires s.Ok() && SenderOk(s.a) && Alone(s)
    ensures Alone(Next(0, s, AtA(l)))
  {
  }

  lemma DeliveryKeepsInvariant(s: System, i: nat, toA: bool)
    requires Invariant(s)
    requires s.a.conn.st == SynSent ==> Handshake(Next(0, s, if toA then DeliverToA(i) else DeliverToB(i)))
    ensures Invariant(Next(0, s, if toA then DeliverToA(i) else DeliverToB(i)))
  {
    if toA && i < |s.toA| {
      ReceiveIsGood(s.a, s.b, s.toA[i]);
      AMoves(s, Receive(0, s.a, s.toA[i]));
    } else if !toA && i < |s.toB| {
      ReceiveIsGood(s.b, s.a, s.toB[i]);
      BMoves(s, Receive(0, s.b, s.toB[i]));
    }
  }

  lemma LocalAKeepsInvariant(s: System, l: Local)
    requires Invariant(s) && (s.a.conn.st == SynSent ==> Handshake(Next(0, s, AtA(l))))
    ensures Invariant(Next(0, s, AtA(l)))
  {
    ActIsGood(s.a, s.b, l);
    if !s.b.started {
      AloneKept(s, l);
    }
    AMoves(s, Act(0, s.a, l));
  }

  lemma LocalBKeepsInvariant(s: System, l: Local)
    requires Invariant(s) && (s.a.conn.st == SynSent ==> Handshake(Next(0, s, AtB(l))))
    ensures Invariant(Next(0, s, AtB(l)))
  {
    ActIsGood(s.b, s.a, l);
    BMoves(s, Act(0, s.b, l));
  }

  lemma NextKeepsInvariant(s: System, t: Step)
    requires Invariant(s)
    ensures Invariant(Next(0, s, t))
  {
    if s.a.conn.st == SynSent {
      HandshakeKept(s, t);
    }
    match t {
      case DeliverToA(i) => DeliveryKeepsInvariant(s, i, true);
      case DeliverToB(i) => DeliveryKeepsInvariant(s, i, false);
      case AtA(l) => LocalAKeepsInvariant(s, l);
      case AtB(l) => LocalBKeepsInvariant(s, l);
    }
  }

  lemma {:induction false} RunKeepsInvariant(s: System, steps: seq<Step>)
    requires Invariant(s)
    ensures Invariant(Run(0, s, steps))
    decreases |steps|
  {
    if steps != [] {
      NextKeepsInvariant(s, steps[0]);
      RunKeepsInvariant(Next(0, s, steps[0]), steps[1..]);
    }
  }
}
