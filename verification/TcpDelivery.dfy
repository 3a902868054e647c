/// Runs that get everything through: whatever a client queues, in as many segments as it takes,
/// split or not, can be sent, received and acknowledged.

module TcpDelivery {
  import opened Basics
  import opened UipTcp
  import opened BufferedSend
  import opened TcpSystem
  import opened TcpEndToEnd
  import opened TcpStreamSafety
  import PacketSplit
  import TcpAnswers

  /// An established host with a segment of `data` in flight.
  predicate Sending(h: Host, data: seq<Byte>) {
    && h.conn.st == Established && !h.conn.stopped && h.conn.initialMss == UIP_TCP_MSS
    && h.tx.Ok() && h.tx.accepted == data && h.conn.len == h.tx.rd - h.tx.prev > 0
  }

  /// An established host with nothing to say itself.
  predicate Listening(h: Host) {
    && h.tx.Ok() && h.conn.st == Established && !h.conn.stopped && h.conn.len == 0 && h.server == IDLE
  }

  /// The segment in flight from A is on its way, from index `i` on, and B awaits it.
  ghost predicate Streaming(s: System, data: seq<Byte>, i: nat) {
    && s.Ok() && Reachable(s) && Sending(s.a, data) && Listening(s.b)
    && s.b.conn.rcvNxt == s.a.conn.sndNxt && s.b.delivered == data[..s.a.tx.prev]
    && i <= |s.toB| && s.toB[i..] == SplitSegment(0, Sends(s.a.conn, ACK_PSH, LastSegment(s.a.tx)))
  }

  /// The next bytes in order are delivered and acknowledged.
  lemma PieceHeard(s: System, i: nat) returns (r: System)
    requires s.Ok() && Reachable(s) && Listening(s.b) && i < |s.toB|
    requires var seg := s.toB[i]; seg.flags == ACK_PSH && seg.data != [] && seg.seqno == s.b.conn.rcvNxt
    ensures r.Ok() && Reachable(r) && r.a == s.a && r.toB == s.toB && Listening(r.b)
    ensures r.b.delivered == s.b.delivered + s.toB[i].data
    ensures r.b.conn.rcvNxt == s.b.conn.rcvNxt + |s.toB[i].data|
    ensures r.toA == s.toA + [Sends(r.b.conn, ACK, [])]
  {
    ReachableNext(s, DeliverToB(i));
    r := Next(0, s, DeliverToB(i));
    var seg, h := s.toB[i], s.b;
    assert Input(0, h.conn, seg, AppOf(h)) == InputEstablished(0, h.conn, seg, false, AppOf(h));
    HeardInOrder(h, seg);
  }

  lemma HeardInOrder(h: Host, seg: Segment)
    requires Listening(h) && seg.flags == ACK_PSH && seg.data != []
    ensures var f := Apply(0, h, InputEstablished(0, h.conn, seg, false, AppOf(h)));
            && Listening(f.host) && f.host.delivered == h.delivered + seg.data
            && f.host.conn.rcvNxt == h.conn.rcvNxt + |seg.data|
            && f.out == [Sends(f.host.conn, ACK, [])]
  {
    var c := h.conn;
    var mss := if seg.wnd > c.initialMss || seg.wnd == 0 then c.initialMss else seg.wnd;
    var d := c.(rcvNxt := c.rcvNxt + |seg.data|, mss := mss);
    var e := NO_EVENT.(newData := true, mss := mss, data := seg.data);
    assert Reply(h, e) == AppReply([], Carry, false, false);
    var g := d.(nrtx := 0);
    assert InputEstablished(0, c, seg, false, AppOf(h)) == StepOut(g, Some(Sends(g, ACK, [])), Some(e));
  }

  /// The acknowledgement of everything in flight reaches A, which sends the next segment.
  lemma NextSegmentOut(s: System, i: nat, data: seq<Byte>, c: Conn) returns (r: System)
    requires s.Ok() && Reachable(s) && Sending(s.a, data) && i < |s.toA|
    requires s.toA[i] == Sends(c, ACK, []) && !c.stopped && c.rcvNxt == s.a.conn.sndNxt + s.a.conn.len
    ensures r.Ok() && Reachable(r) && r.b == s.b && r.toA == s.toA
    ensures r.a.tx == Fetch(s.a.tx, UIP_TCP_MSS) && r.a.conn.sndNxt == c.rcvNxt
    ensures var next := NextSegment(s.a.tx, UIP_TCP_MSS);
            next != [] ==>
              && Sending(r.a, data)
              && r.toB == s.toB + SplitSegment(0, Sends(r.a.conn, ACK_PSH, next))
  {
    ReachableNext(s, DeliverToA(i));
    r := Next(0, s, DeliverToA(i));
    var seg, h := s.toA[i], s.a;
    var d := AckProcessed(0, h.conn, seg);
    assert AcksOutstanding(0, h.conn, seg);
    assert Input(0, h.conn, seg, AppOf(h)) == InputEstablished(0, d, seg, true, AppOf(h));
    assert d.len == 0 && d.sndNxt == c.rcvNxt && d.st == Established && !d.stopped && d.initialMss == UIP_TCP_MSS;
    AnswersAck(h, d, seg);
  }

  lemma AnswersAck(h: Host, d: Conn, seg: Segment)
    requires h.tx.Ok() && d.st == Established && !d.stopped && d.initialMss == UIP_TCP_MSS && d.len == 0
    requires seg.flags == ACK && seg.data == [] && seg.wnd == UIP_RECEIVE_WINDOW
    ensures var next := NextSegment(h.tx, UIP_TCP_MSS);
            var f := Apply(0, h, InputEstablished(0, d, seg, true, AppOf(h)));
            && f.host.tx == Fetch(h.tx, UIP_TCP_MSS)
            && f.host.conn == d.(mss := UIP_TCP_MSS, nrtx := 0, len := |next|)
            && (next != [] ==> f.out == SplitSegment(0, Sends(f.host.conn, ACK_PSH, next)))
  {
    var c := d.(mss := UIP_TCP_MSS);
    var e := NO_EVENT.(acked := true, mss := UIP_TCP_MSS);
    var reply := Reply(h, e);
    assert reply == AppReply(NextSegment(h.tx, UIP_TCP_MSS), Carry, false, false);
    assert InputEstablished(0, d, seg, true, AppOf(h)) == AppSend(c, e, reply);
    if reply.send == [] {
      AppSendIdle(c, e, reply);
    } else {
      AppSendCarries(c, e, reply);
    }
  }

  /// Two packets that follow each other.
  lemma BothHeard(s: System, i: nat) returns (r: System)
    requires s.Ok() && Reachable(s) && Listening(s.b) && i + 1 < |s.toB|
    requires var x, y := s.toB[i], s.toB[i + 1];
             && x.flags == y.flags == ACK_PSH && x.data != [] && y.data != []
             && x.seqno == s.b.conn.rcvNxt && y.seqno == x.seqno + |x.data|
    ensures r.Ok() && Reachable(r) && r.a == s.a && Listening(r.b)
    ensures r.b.delivered == s.b.delivered + (s.toB[i].data + s.toB[i + 1].data)
    ensures r.b.conn.rcvNxt == s.b.conn.rcvNxt + |s.toB[i].data| + |s.toB[i + 1].data|
    ensures r.toA != [] && r.toA[|r.toA| - 1] == Sends(r.b.conn, ACK, [])
  {
    var x, y := s.toB[i].data, s.toB[i + 1].data;
    var t := PieceHeard(s, i);
    r := PieceHeard(t, i + 1);
    Associative(s.b.delivered, x, y);
  }

  lemma PacketsHeard(s: System, i: nat, bytes: seq<Byte>) returns (r: System)
    requires s.Ok() && Reachable(s) && Listening(s.b) && bytes != [] && i <= |s.toB|
    requires !s.a.conn.stopped && s.b.conn.rcvNxt == s.a.conn.sndNxt
    requires s.toB[i..] == SplitSegment(0, Sends(s.a.conn, ACK_PSH, bytes))
    ensures r.Ok() && Reachable(r) && r.a == s.a && Listening(r.b)
    ensures r.b.delivered == s.b.delivered + bytes && r.b.conn.rcvNxt == s.a.conn.sndNxt + |bytes|
    ensures r.toA != [] && r.toA[|r.toA| - 1] == Sends(r.b.conn, ACK, [])
  {
    var parts := SplitSegment(0, Sends(s.a.conn, ACK_PSH, bytes));
    assert s.toB[i] == s.toB[i..][0] == parts[0];
    if |bytes| > PacketSplit.SPLIT_THRESHOLD {
      assert s.toB[i + 1] == s.toB[i..][1] == parts[1];
      PartsOfSegment(s.a.conn, bytes);
      r := BothHeard(s, i);
    } else {
      r := PieceHeard(s, i);
    }
  }

  /// One segment, in one packet or two, arrives as a whole.
  lemma SegmentHeard(s: System, data: seq<Byte>, i: nat) returns (r: System)
    requires Streaming(s, data, i)
    ensures r.Ok() && Reachable(r) && r.a == s.a && Listening(r.b)
    ensures r.b.delivered == data[..s.a.tx.rd] && r.b.conn.rcvNxt == s.a.conn.sndNxt + s.a.conn.len
    ensures r.toA != [] && r.toA[|r.toA| - 1] == Sends(r.b.conn, ACK, [])
  {
    var bytes := LastSegment(s.a.tx);
    r := PacketsHeard(s, i, bytes);
    assert data[..s.a.tx.prev] + bytes == data[..s.a.tx.rd];
  }

  lemma PartsOfSegment(c: Conn, bytes: seq<Byte>)
    requires |bytes| > PacketSplit.SPLIT_THRESHOLD
    ensures var parts := SplitSegment(0, Sends(c, ACK_PSH, bytes));
            && |parts| == 2 && parts[0].data != [] && parts[1].data != []
            && parts[0].data + parts[1].data == bytes
            && parts[1].seqno == parts[0].seqno + |parts[0].data|
  {
    var n := PacketSplit.FirstLength(|bytes|);
    SplitParts(|bytes|);
    assert bytes[..n] + bytes[n..] == bytes;
  }

  lemma SplitParts(len: nat)
    requires len > PacketSplit.SPLIT_THRESHOLD
    ensures 0 < PacketSplit.FirstLength(len) < len
  {
  }

  lemma SegmentThrough(s: System, data: seq<Byte>, i: nat) returns (r: System, j: nat)
    requires Streaming(s, data, i)
    ensures r.Ok() && Reachable(r) && r.a.tx == Fetch(s.a.tx, UIP_TCP_MSS)
    ensures r.b.delivered == data[..s.a.tx.rd]
    ensures s.a.tx.rd < |data| ==> Streaming(r, data, j)
  {
    var t := SegmentHeard(s, data, i);
    j := |t.toB|;
    r := NextSegmentOut(t, |t.toA| - 1, data, t.b.conn);
    if s.a.tx.rd < |data| {
      assert LastSegment(r.a.tx) == NextSegment(s.a.tx, UIP_TCP_MSS);
      assert r.toB[j..] == SplitSegment(0, Sends(r.a.conn, ACK_PSH, LastSegment(r.a.tx)));
    }
  }

  /// Segment after segment, until nothing is left.
  lemma {:induction false} RestIsDelivered(s: System, data: seq<Byte>, i: nat) returns (r: System)
    requires Streaming(s, data, i)
    ensures r.Ok() && Reachable(r) && r.a.tx.accepted == data && r.b.delivered == data && r.a.tx.prev == |data|
    decreases |data| - s.a.tx.rd
  {
    var j;
    r, j := SegmentThrough(s, data, i);
    if s.a.tx.rd < |data| {
      r := RestIsDelivered(r, data, j);
    } else {
      assert data[..|data|] == data;
    }
  }

  /// Any writes that together fit into a client buffer can be accepted, sent, received in order and
  /// released.
  lemma AnyWritesCanBeDelivered(writes: seq<seq<Byte>>, cap: nat) returns (s: System)
    requires |Flatten(writes)| <= cap
    ensures s.Ok() && Reachable(s)
    ensures var data := Flatten(writes);
            s.a.tx.accepted == data && s.b.delivered == data && s.a.tx.prev == |data|
  {
    var data := Flatten(writes);
    s := ConnectionOpens(cap);
    if data != [] {
      var i := |s.toB|;
      s := SegmentOut(s, cap, writes);
      assert data[..0] == [] && s.toB[i..] == SplitSegment(0, Sends(s.a.conn, ACK_PSH, LastSegment(s.a.tx)));
      s := RestIsDelivered(s, data, i);
    }
  }

  // ------------------------------------------------- what the client asks for

  /// A connected client with nothing outstanding, polled.
  predicate Idle(h: Host) {
    h.tx.Ok() && h.connected && h.conn.st == Established && h.conn.len == 0
  }

  /// With nothing else asked for, the poll after an unpause tells the peer that the window is open.
  lemma UnpauseReopensWindow(h: Host)
    requires Idle(h) && !h.server.abortRequest && !h.server.closeRequest
    ensures var f := TcpSystem.Act(0, Obey(h, Unpause), PollRequest);
            && !f.host.conn.stopped && !f.host.server.ackRequest && f.out != []
            && f.out[0].wnd == UIP_RECEIVE_WINDOW && f.out[0].ackno == h.conn.rcvNxt && !f.out[0].flags.rst
  {
    var g := Obey(h, Unpause);
    var e := NO_EVENT.(poll := true, mss := h.conn.mss);
    assert Poll(g.conn, AppOf(g)) == AppSend(g.conn, e, Reply(g, e));
    assert Reply(g, e).announce && Reply(g, e).request == Carry && !Reply(g, e).stop;
    TcpAnswers.AppSendObeys(g.conn, e, Reply(g, e));
    TcpAnswers.AppSendSpeaks(g.conn, e, Reply(g, e));
  }

  /// A close is carried out with the next poll, and whatever still waits in the buffer is never
  /// sent; an abort goes before it.
  lemma CloseIsCarriedOut(h: Host)
    requires Idle(h) && (h.server.closeRequest || h.server.abortRequest)
    ensures var f := TcpSystem.Act(0, h, PollRequest);
            && f.host.tx == h.tx && |f.out| == 1
            && if h.server.abortRequest then
                 f.host.conn.Is(Closed) && TcpAnswers.IsReset(f.out[0]) && !f.host.server.abortRequest
               else
                 f.host.conn.Is(FinWait1) && f.out[0].flags == FIN_ACK && !f.host.server.closeRequest
  {
    var e := NO_EVENT.(poll := true, mss := h.conn.mss);
    assert Poll(h.conn, AppOf(h)) == AppSend(h.conn, e, Reply(h, e));
  }

  /// In the mode in which every receipt is acknowledged by the client, data pauses the connection
  /// as it is delivered, and the peer is told that the window is closed.
  lemma DataPausesInAckMode(before: Host, s: Segment)
    requires before.tx.Ok() && before.connected && before.conn.Is(Established)
    requires s.data != [] && !s.flags.fin && !s.flags.rst && !s.flags.syn && s.seqno == before.conn.rcvNxt
    ensures var f := Receive(0, Obey(before, AckRecvMode), s);
            && f.host.delivered == before.delivered + s.data && f.host.conn.stopped
            && f.out != [] && f.out[0].wnd == 0
  {
    var h := Obey(before, AckRecvMode);
    var g, e := TcpAnswers.DataReachesApplication(h.conn, s, AppOf(h));
    assert Reply(h, e).stop && Reply(h, e).request == Carry;
    TcpAnswers.AppSendObeys(g, e, Reply(h, e));
  }

  /// After a pause nothing is delivered, and whatever the record still says closes the window.
  lemma PauseStopsDelivery(before: Host, s: Segment)
    requires before.tx.Ok() && before.connected && before.conn.st == Established && !s.flags.rst
    ensures var f := Receive(0, Obey(before, Pause), s);
            && f.host.conn.stopped && f.host.conn.rcvNxt == before.conn.rcvNxt
            && f.host.delivered == before.delivered
            && forall i :: 0 <= i < |f.out| ==> f.out[i].wnd == 0
  {
    var h := Obey(before, Pause);
    if TcpAnswers.InOrder(h.conn, s) {
      TcpAnswers.PausedTakesNothing(h.conn, s, AppOf(h));
    } else {
      TcpAnswers.OutOfOrderIsAnswered(0, h.conn, s, AppOf(h));
    }
  }

  /// A host whose connection is over answers every segment but a reset with a reset, and is not
  /// moved by any.
  lemma NothingAfterTheEnd(h: Host, s: Segment)
    requires h.tx.Ok() && h.started && h.conn.Is(Closed)
    ensures var f := Receive(0, h, s);
            && f.host == h
            && (if s.flags.rst then f.out == [] else |f.out| == 1 && TcpAnswers.IsReset(f.out[0]))
  {
  }
}
