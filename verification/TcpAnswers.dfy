/// What one step of a connection puts on the wire and what the application hears of it, stated
/// in terms of sequence numbers and of the change of the record.

module TcpAnswers {
  import opened Basics
  import opened UipTcp
  import opened TcpLifecycle

  /// Sequence numbers a segment occupies.
  function SeqLength(s: Segment): nat {
    |s.data| + (if s.flags.syn then 1 else 0) + (if s.flags.fin then 1 else 0)
  }

  predicate InSyn(st: TcpState) {
    st == SynSent || st == SynRcvd
  }

  /// The states with a FIN of our own outstanding.
  predicate InFin(st: TcpState) {
    st == FinWait1 || st == Closing || st == LastAck
  }

  /// A segment with the numbers of record `c`: a bare acknowledgement, or everything that is
  /// outstanding, from its first sequence number on.
  predicate Speaks(c: Conn, s: Segment) {
    && s.seqno == c.sndNxt && s.ackno == c.rcvNxt && s.wnd == (if c.stopped then 0 else UIP_RECEIVE_WINDOW)
    && (s == Sends(c, ACK, []) || SendsOutstanding(c, s))
  }

  /// Exactly the `len` outstanding sequence numbers, as SYN, FIN or data.
  predicate SendsOutstanding(c: Conn, s: Segment) {
    && s.seqno == c.sndNxt && s.ackno == c.rcvNxt && SeqLength(s) == c.len > 0
    && (s.flags.syn <==> InSyn(c.st)) && (s.flags.fin <==> InFin(c.st)) && (s.data != [] <==> c.st == Established)
    && (s.flags.ack <==> c.st != SynSent) && !s.flags.rst
  }

  predicate IsReset(s: Segment) {
    s.flags == RST_ACK && s.data == []
  }

  function Outstanding(modulus: nat, c: Conn, s: Segment): nat {
    if AcksOutstanding(modulus, c, s) then 0 else c.len
  }

  // ------------------------------------------------------ the application's answer

  /// What follows from a record `c` with `before` sequence numbers still outstanding: whatever is
  /// said fits the new record, and whatever becomes outstanding is said at once, with all its
  /// repetitions to come.
  predicate SaysWhatItOwes(before: nat, r: StepOut) {
    && (r.out.Some? ==> Speaks(r.conn, r.out.value) || IsReset(r.out.value))
    && (before == 0 && r.conn.len != 0 ==>
         && r.out.Some? && (SendsOutstanding(r.conn, r.out.value) || IsReset(r.out.value))
         && r.conn.nrtx == 0)
  }

  /// No more than fits the segment size is taken from the application.
  lemma AppSendSpeaks(c: Conn, e: AppEvent, r: AppReply)
    requires c.st == Established && (e.acked ==> c.len == 0)
    ensures var o := AppSend(c, e, r);
            && SaysWhatItOwes(c.len, o) && o.event == Some(e)
            && (o.out.Some? && IsReset(o.out.value) <==> r.request == Abort)
            && (e.newData ==> o.out.Some?)
            && (c.len == 0 && o.conn.st == Established ==> o.conn.len <= c.mss)
  {
  }

  /// A pause the application asks for takes effect at once, and is not undone by anything it says;
  /// an acknowledgement it asks for goes out even without data.
  lemma AppSendObeys(c: Conn, e: AppEvent, r: AppReply)
    requires c.st == Established && r.request == Carry
    ensures var o := AppSend(c, e, r);
            && (o.conn.stopped <==> c.stopped || r.stop) && o.conn.st == Established && o.conn.nrtx == 0
            && (e.newData || r.announce ==> o.out.Some?)
            && (o.out.Some? && o.conn.stopped ==> o.out.value.wnd == 0)
            && (!e.newData && !r.announce && r.send == [] ==> o.out == None)
  {
  }

  /// What the requests to close and to abort do, with a FIN and with a reset.
  lemma AppSendCloses(c: Conn, e: AppEvent, r: AppReply)
    requires c.st == Established && r.request != Carry
    ensures var o := AppSend(c, e, r);
            && o.out.Some?
            && if r.request == Close then
                 o.conn.Is(FinWait1) && o.conn.len == 1 && o.conn.nrtx == 0 && o.out.value.flags == FIN_ACK
                 && SendsOutstanding(o.conn, o.out.value)
               else
                 o.conn.Is(Closed) && IsReset(o.out.value) && o.out.value.seqno == c.sndNxt
  {
  }

  lemma AppSendSendsInOrder(c: Conn, e: AppEvent, r: AppReply)
    requires c.st == Established && c.len == 0 && r.request == Carry
    ensures var o := AppSend(c, e, r);
            var n := Min(|r.send|, c.mss);
            && o.conn.len == n
            && (n > 0 ==> o.out.Some? && o.out.value.data == r.send[..n])
  {
  }

  // --------------------------------------------------------- received segments

  /// The segment passes the sequence check.
  predicate InOrder(c: Conn, s: Segment) {
    || (c.st == SynSent && s.flags == SYN_ACK)
    || (s.data == [] && !s.flags.syn && !s.flags.fin)
    || s.seqno == c.rcvNxt
  }

  /// A segment out of order changes nothing and is answered with what is expected instead.
  lemma OutOfOrderIsAnswered(modulus: nat, c: Conn, s: Segment, app: App)
    requires !s.flags.rst && !InOrder(c, s)
    ensures var r := Input(modulus, c, s, app);
            && r.conn == c && r.event == None
            && r.out.Some? && SeqLength(r.out.value) == 0 && Speaks(c, r.out.value)
  {
  }

  lemma InOrderIsProcessed(modulus: nat, c: Conn, s: Segment, app: App)
    requires !s.flags.rst && InOrder(c, s)
    ensures var acked := AcksOutstanding(modulus, c, s); var d := AckProcessed(modulus, c, s);
            && Input(modulus, c, s, app) == ByState(modulus, d, s, acked, app)
            && d.st == c.st && d.stopped == c.stopped && d.rcvNxt == c.rcvNxt && d.len == Outstanding(modulus, c, s)
            && d.mss == c.mss && d.initialMss == c.initialMss
            && d.sndNxt == if acked then s.ackno else c.sndNxt
  {
  }

  lemma SynRcvdSpeaks(modulus: nat, c: Conn, s: Segment, acked: bool, app: App)
    requires c.st == SynRcvd && (acked ==> c.len == 0)
    ensures SaysWhatItOwes(c.len, InputSynRcvd(modulus, c, s, acked, app))
  {
    if acked {
      var d := c.Enter(Established).(len := 0, rcvNxt := Advance(modulus, c.rcvNxt, |s.data|));
      var e := NO_EVENT.(connected := true, newData := |s.data| > 0, mss := c.mss, data := s.data);
      AppSendSpeaks(d, e, app(e));
    }
  }

  lemma SynSentSpeaks(modulus: nat, c: Conn, s: Segment, acked: bool, app: App)
    requires c.st == SynSent && (acked ==> c.len == 0) && (!acked ==> c.len != 0)
    ensures SaysWhatItOwes(c.len, InputSynSent(modulus, c, s, acked, app))
  {
    if acked && s.flags == SYN_ACK {
      var mss := if s.mssOption.Some? then Min(s.mssOption.value, UIP_TCP_MSS) else c.mss;
      var initialMss := if s.mssOption.Some? then mss else c.initialMss;
      var d := c.Enter(Established).(len := 0, rcvNxt := Advance(modulus, s.seqno, 1), mss := mss, initialMss := initialMss);
      var e := NO_EVENT.(connected := true, newData := true, mss := d.mss);
      AppSendSpeaks(d, e, app(e));
    }
  }

  lemma EstablishedSpeaks(modulus: nat, c: Conn, s: Segment, acked: bool, app: App)
    requires c.st == Established && (acked ==> c.len == 0)
    ensures SaysWhatItOwes(c.len, InputEstablished(modulus, c, s, acked, app))
  {
    var newData := |s.data| > 0 && !c.stopped;
    if !(s.flags.fin && !c.stopped) && (newData || acked) {
      var mss := if s.wnd > c.initialMss || s.wnd == 0 then c.initialMss else s.wnd;
      var d := c.(rcvNxt := if newData then Advance(modulus, c.rcvNxt, |s.data|) else c.rcvNxt, mss := mss);
      var e := NO_EVENT.(acked := acked, newData := newData, mss := mss, data := s.data);
      AppSendSpeaks(d, e, app(e));
    }
  }

  lemma LateSpeaks(modulus: nat, c: Conn, s: Segment, acked: bool, app: App)
    requires !InSyn(c.st) && c.st != Established && LenInvOnEntry(c, acked)
    ensures c.st != Closed ==> SaysWhatItOwes(c.len, ByState(modulus, c, s, acked, app))
  {
  }

  /// Whatever arrives: an answer carries the numbers of the record, and holds either nothing or
  /// exactly what is outstanding; new data, or our FIN, goes out in the answer itself.
  lemma ArrivalSpeaks(modulus: nat, c: Conn, s: Segment, app: App)
    requires LenInv(c) && c.st != Closed && !s.flags.rst
    ensures SaysWhatItOwes(if InOrder(c, s) then Outstanding(modulus, c, s) else c.len, Input(modulus, c, s, app))
  {
    if InOrder(c, s) {
      InOrderIsProcessed(modulus, c, s, app);
      var d, acked := AckProcessed(modulus, c, s), AcksOutstanding(modulus, c, s);
      match c.st {
        case SynRcvd => SynRcvdSpeaks(modulus, d, s, acked, app);
        case SynSent => SynSentSpeaks(modulus, d, s, acked, app);
        case Established => EstablishedSpeaks(modulus, d, s, acked, app);
        case _ => LateSpeaks(modulus, d, s, acked, app);
      }
    } else {
      OutOfOrderIsAnswered(modulus, c, s, app);
    }
  }

  // ------------------------------------------------------------ timer and poll

  /// The same for pulses and polls.
  lemma PulseSpeaks(c: Conn, app: App)
    requires LenInv(c)
    ensures SaysWhatItOwes(c.len, Timer(c, app)) && SaysWhatItOwes(c.len, Poll(c, app))
  {
    if c.st == Established && c.len == 0 {
      var e := NO_EVENT.(poll := true, mss := c.mss);
      AppSendSpeaks(c, e, app(e));
    }
    if c.len != 0 && c.timer == 0 && !GivesUp(c) && c.st != Closed {
      RetransmissionSpeaks(c.(timer := Backoff(c.nrtx), nrtx := c.nrtx + 1), app);
    }
  }

  lemma RetransmissionSpeaks(c: Conn, app: App)
    requires LenInv(c.(nrtx := 0)) && c.len != 0 && c.st != Closed
    ensures var r := Retransmit(c, app);
            && r.conn == c.(stopped := r.conn.stopped)
            && (r.out.Some? ==> Speaks(r.conn, r.out.value))
            && (c.st != Established ==> r.out.Some? && SendsOutstanding(r.conn, r.out.value))
  {
  }

  /// When the retransmission timer has run down, exactly the outstanding sequence numbers go out
  /// again, the SYN or FIN included; for data the application has to supply them.
  lemma RetransmissionIsExact(c: Conn, app: App)
    requires LenInv(c) && c.len != 0 && c.st != Closed && c.timer == 0 && !GivesUp(c)
    ensures var r := Timer(c, app);
            var supplied := app(NO_EVENT.(rexmit := true, mss := c.mss)).send;
            && r.conn == c.(stopped := r.conn.stopped, timer := Backoff(c.nrtx), nrtx := c.nrtx + 1)
            && (c.st != Established || supplied != [] ==> r.out.Some? && SendsOutstanding(r.conn, r.out.value))
            && (c.st == Established && |supplied| >= c.len ==> r.out.value.data == supplied[..c.len])
  {
    var d := c.(timer := Backoff(c.nrtx), nrtx := c.nrtx + 1);
    assert Timer(c, app) == Retransmit(d, app);
    RetransmissionSpeaks(d, app);
  }

  /// While data is retransmitted the application may still pause, and may have a bare acknowledgement
  /// sent in place of the data.
  lemma RetransmissionObeys(c: Conn, app: App)
    requires c.st == Established && c.len != 0 && c.timer == 0 && !GivesUp(c)
    ensures var r := Timer(c, app); var reply := app(NO_EVENT.(rexmit := true, mss := c.mss));
            && (r.conn.stopped <==> c.stopped || reply.stop)
            && (reply.send == [] ==> (r.out.Some? <==> reply.announce && reply.request == Carry))
  {
  }

  /// In every state a slot can reach.
  lemma ReachableRetransmissionIsExact(modulus: nat, actions: seq<Action>, app: App)
    ensures var c := Run(modulus, EMPTY_SLOT, actions);
            var supplied := app(NO_EVENT.(rexmit := true, mss := c.mss)).send;
            c.len != 0 && c.st != Closed && c.timer == 0 && !GivesUp(c)
            && (c.st == Established ==> supplied != []) ==>
              var r := Timer(c, app);
              r.out.Some? && SendsOutstanding(r.conn, r.out.value) && r.conn.len == c.len && r.conn.st == c.st
  {
    ReachableLengths(modulus, actions);
    var c := Run(modulus, EMPTY_SLOT, actions);
    if c.len != 0 && c.st != Closed && c.timer == 0 && !GivesUp(c) {
      RetransmissionIsExact(c, app);
    }
  }

  // ------------------------------------------------------------------ delivery

  /// The bytes an event hands to the application.
  function Handed(e: Option<AppEvent>): seq<Byte> {
    if e.Some? && e.value.newData then e.value.data else []
  }

  /// The FIN of an established peer waits until our own data is acknowledged.
  predicate TakesFin(modulus: nat, c: Conn, s: Segment) {
    s.flags.fin && Outstanding(modulus, c, s) == 0
  }

  /// In order, with or without a FIN, a segment hands an established, unpaused application
  /// exactly its bytes, all or none; the record advances by them, and by one for the FIN, of
  /// which the application hears at the same time. It is acknowledged at once.
  lemma EstablishedDelivers(c: Conn, s: Segment, app: App)
    requires c.Is(Established) && InOrder(c, s) && !s.flags.rst
    ensures var r := Input(0, c, s, app);
            && (Handed(r.event) == if s.flags.fin && !TakesFin(0, c, s) then [] else s.data)
            && (r.event.Some? && r.event.value.closed <==> TakesFin(0, c, s))
            && (TakesFin(0, c, s) ==> r.conn.st == LastAck)
            && r.conn.rcvNxt == c.rcvNxt + |Handed(r.event)| + (if TakesFin(0, c, s) then 1 else 0)
            && (r.conn.rcvNxt != c.rcvNxt ==> r.out.Some? && (r.out.value.ackno == r.conn.rcvNxt))
  {
    InOrderIsProcessed(0, c, s, app);
    var d, acked := AckProcessed(0, c, s), AcksOutstanding(0, c, s);
    if s.data != [] && !s.flags.fin {
      var g, e := DataReachesApplication(c, s, app);
    }
  }

  /// The record and the event with which the application answers data in order.
  lemma DataReachesApplication(c: Conn, s: Segment, app: App) returns (g: Conn, e: AppEvent)
    requires c.Is(Established) && InOrder(c, s) && !s.flags.rst && !s.flags.fin && s.data != []
    ensures g.Is(Established) && g.rcvNxt == c.rcvNxt + |s.data| && e.newData && !e.poll && !e.connected && e.data == s.data
    ensures Input(0, c, s, app) == AppSend(g, e, app(e))
  {
    InOrderIsProcessed(0, c, s, app);
    var d, acked := AckProcessed(0, c, s), AcksOutstanding(0, c, s);
    var mss := if s.wnd > d.initialMss || s.wnd == 0 then d.initialMss else s.wnd;
    g := d.(rcvNxt := d.rcvNxt + |s.data|, mss := mss);
    e := NO_EVENT.(acked := acked, newData := true, mss := mss, data := s.data);
  }

  /// A paused application is handed nothing and nothing is acknowledged for it.
  lemma PausedTakesNothing(c: Conn, s: Segment, app: App)
    requires c.st == Established && c.stopped && !s.flags.rst
    ensures var r := Input(0, c, s, app);
            r.conn.rcvNxt == c.rcvNxt && Handed(r.event) == [] && (r.event.Some? ==> !r.event.value.closed)
  {
    if InOrder(c, s) {
      InOrderIsProcessed(0, c, s, app);
      var d, acked := AckProcessed(0, c, s), AcksOutstanding(0, c, s);
      if acked {
        var mss := if s.wnd > d.initialMss || s.wnd == 0 then d.initialMss else s.wnd;
        var e := NO_EVENT.(acked := true, mss := mss, data := s.data);
        assert Input(0, c, s, app) == AppSend(d.(mss := mss), e, app(e));
      }
    }
  }

  /// In the other states: data that comes with the acknowledgement of our SYN-ACK is handed over;
  /// after our FIN everything in order is acknowledged, but handed to nobody.
  lemma OtherStatesDeliver(c: Conn, s: Segment, app: App)
    requires c.st != Established && c.st != SynSent && InOrder(c, s) && !s.flags.rst
    ensures var r := Input(0, c, s, app);
            var opens := c.st == SynRcvd && AcksOutstanding(0, c, s);
            var finWait := c.st == FinWait1 || c.st == FinWait2;
            && Handed(r.event) == (if opens then s.data else [])
            && r.conn.rcvNxt == c.rcvNxt + (if opens then |s.data| else if finWait then SeqLengthPastSyn(s) else 0)
  {
    InOrderIsProcessed(0, c, s, app);
    var d, acked := AckProcessed(0, c, s), AcksOutstanding(0, c, s);
    if c.st == SynRcvd && acked {
      var g := d.Enter(Established).(len := 0, rcvNxt := d.rcvNxt + |s.data|);
      var e := NO_EVENT.(connected := true, newData := |s.data| > 0, mss := d.mss, data := s.data);
      assert Input(0, c, s, app) == AppSend(g, e, app(e));
    }
  }

  function SeqLengthPastSyn(s: Segment): nat {
    |s.data| + (if s.flags.fin then 1 else 0)
  }

  /// What an advance of the record is answered with: an acknowledgement of all of it, except for
  /// data that comes along with the acknowledgement of our FIN.
  lemma AdvanceIsAcknowledgedIff(c: Conn, s: Segment, app: App)
    requires c.Live() && !s.flags.rst && c.st != SynSent
    ensures var r := Input(0, c, s, app);
            r.conn.rcvNxt != c.rcvNxt ==>
              && (r.out.Some? <==> !(c.st == FinWait1 && AcksOutstanding(0, c, s) && !s.flags.fin))
              && (r.out.Some? ==> r.out.value.ackno == r.conn.rcvNxt)
  {
    if !InOrder(c, s) {
      OutOfOrderIsAnswered(0, c, s, app);
    } else if c.Is(Established) {
      EstablishedDelivers(c, s, app);
    } else if c.st == Established {
      PausedTakesNothing(c, s, app);
    } else {
      InOrderIsProcessed(0, c, s, app);
      var d, acked := AckProcessed(0, c, s), AcksOutstanding(0, c, s);
      if c.st == SynRcvd && acked {
        var g := d.Enter(Established).(len := 0, rcvNxt := d.rcvNxt + |s.data|);
        var e := NO_EVENT.(connected := true, newData := |s.data| > 0, mss := d.mss, data := s.data);
        assert Input(0, c, s, app) == AppSend(g, e, app(e));
      }
    }
  }

  // --------------------------------------------------------- the end of it all

  /// After our FIN: which FINs are still missing is what the state says.
  lemma CloseProgresses(c: Conn, s: Segment, app: App)
    requires InOrder(c, s) && !s.flags.rst && (InFin(c.st) || c.st == FinWait2)
    ensures var r := Input(0, c, s, app); var acked := AcksOutstanding(0, c, s);
            match c.st
            case FinWait1 =>
              && (r.conn.st == FinWait1 || r.conn.st == Closing <==> !acked)
              && (r.conn.st == Closing || r.conn.st == TimeWait <==> s.flags.fin)
              && (r.event.Some? && r.event.value.closed <==> s.flags.fin)
              && r.conn.st in {FinWait1, FinWait2, Closing, TimeWait}
            case FinWait2 =>
              && r.conn.st == (if s.flags.fin then TimeWait else FinWait2)
              && (r.event.Some? && r.event.value.closed <==> s.flags.fin)
            case Closing => r.conn.st == if acked then TimeWait else Closing
            case LastAck =>
              && r.conn.st == (if acked then Closed else LastAck)
              && (r.event.Some? && r.event.value.closed <==> acked)
            case _ => true
  {
  }

  /// TIME-WAIT acknowledges whatever comes but a reset, and is entered with the timer at zero.
  lemma TimeWaitAnswers(c: Conn, s: Segment, app: App)
    requires !s.flags.rst
    ensures var r := Input(0, c, s, app);
            && (c.st == TimeWait ==>
                  r.conn.(sndNxt := c.sndNxt, timer := c.timer, len := c.len, sa := c.sa, sv := c.sv, rto := c.rto) == c
                  && r.out == Some(Sends(r.conn, ACK, [])))
            && (c.st != TimeWait && r.conn.st == TimeWait ==> r.conn.timer == 0)
  {
  }

  // ------------------------------------------------------- what is reported when

  /// The application is told of an abort exactly for a reset, or for an answer to our SYN that is
  /// none; the record is then closed, and only the latter is answered, by a reset.
  lemma AbortIsReportedIff(modulus: nat, c: Conn, s: Segment, app: App)
    ensures var r := Input(modulus, c, s, app);
            var refused := c.st == SynSent && InOrder(c, s) && !(AcksOutstanding(modulus, c, s) && s.flags == SYN_ACK);
            && (r.event.Some? && r.event.value.aborted <==> s.flags.rst || refused)
            && (s.flags.rst || refused ==>
                  r.conn.Is(Closed) && r.out == if s.flags.rst then None else ResetFor(modulus, s))
  {
  }

  /// It is told of the connection exactly when the record leaves the SYN states otherwise.
  lemma ConnectionIsReportedIff(modulus: nat, c: Conn, s: Segment, app: App)
    ensures var r := Input(modulus, c, s, app);
            r.event.Some? && r.event.value.connected <==>
              InSyn(c.st) && !InSyn(r.conn.st) && !(r.event.Some? && r.event.value.aborted)
  {
    if !s.flags.rst && InOrder(c, s) {
      InOrderIsProcessed(modulus, c, s, app);
      ByStateReports(modulus, AckProcessed(modulus, c, s), s, AcksOutstanding(modulus, c, s), app);
    }
  }

  lemma ByStateReports(modulus: nat, c: Conn, s: Segment, acked: bool, app: App)
    ensures var r := ByState(modulus, c, s, acked, app);
            r.event.Some? && r.event.value.connected <==>
              InSyn(c.st) && !InSyn(r.conn.st) && !(r.event.Some? && r.event.value.aborted)
  {
  }

  /// It is told that its data is acknowledged exactly when an established record's is, all of it.
  lemma AcknowledgementIsReportedIff(modulus: nat, c: Conn, s: Segment, app: App)
    requires !s.flags.rst
    ensures var r := Input(modulus, c, s, app);
            r.event.Some? && r.event.value.acked <==>
              c.st == Established && InOrder(c, s) && AcksOutstanding(modulus, c, s)
  {
    if InOrder(c, s) {
      InOrderIsProcessed(modulus, c, s, app);
      ByStateAcked(modulus, AckProcessed(modulus, c, s), s, AcksOutstanding(modulus, c, s), app);
    }
  }

  lemma ByStateAcked(modulus: nat, c: Conn, s: Segment, acked: bool, app: App)
    requires acked ==> c.len == 0
    ensures var r := ByState(modulus, c, s, acked, app);
            r.event.Some? && r.event.value.acked <==> c.st == Established && acked
  {
  }

  /// A pulse reports a time-out exactly when the connection is given up, which also resets the
  /// peer; a retransmission or a poll exactly to an established application that has something
  /// outstanding, or nothing.
  lemma PulseIsReportedIff(c: Conn, app: App)
    requires c.Live() && !c.Is(TimeWait) && !c.Is(FinWait2)
    ensures var r := Timer(c, app); var due := c.len != 0 && c.timer == 0;
            && (r.event.Some? && r.event.value.timedOut <==> due && GivesUp(c))
            && (due && GivesUp(c) ==>
                  r.conn.Is(Closed) && r.out.Some? && IsReset(r.out.value) && r.out.value.seqno == c.sndNxt)
            && (r.event.Some? && r.event.value.rexmit <==> c.st == Established && due && !GivesUp(c))
            && (r.event.Some? && r.event.value.poll <==> c.st == Established && c.len == 0)
            && (Poll(c, app).event.Some? <==> c.st == Established && c.len == 0)
  {
    var e := NO_EVENT.(poll := true, mss := c.mss);
    AppSendReports(c, e, app(e));
  }

  lemma AppSendReports(c: Conn, e: AppEvent, r: AppReply)
    ensures AppSend(c, e, r).event == Some(e)
  {
  }

  // ---------------------------------------------------------------------- timing

  /// What is outstanding is repeated for the first time with the pulse after `timer` others.
  lemma {:induction false} FirstRepeatIsTimed(c: Conn, apps: seq<App>)
    requires Waiting(c) && c.nrtx < Limit(c)
    ensures |apps| <= c.timer ==> Retransmissions(c, apps) == 0
    ensures |apps| == c.timer + 1 ==> Retransmissions(c, apps) == 1
    decreases |apps|
  {
    if apps != [] {
      OnePulse(c, apps[0]);
      if c.timer > 0 {
        FirstRepeatIsTimed(Timer(c, apps[0]).conn, apps[1..]);
      } else if |apps| == 1 {
        assert apps[1..] == [];
      }
    }
  }

  /// An acknowledgement starts the timer again with the new estimate, and is measured if and only
  /// if nothing was repeated; any other segment leaves timer and estimate alone.
  lemma AcknowledgementTimesAnew(modulus: nat, c: Conn, s: Segment, app: App)
    requires !s.flags.rst && InOrder(c, s) && c.st in {SynSent, SynRcvd, Established}
    ensures var d := Input(modulus, c, s, app).conn; var acked := AcksOutstanding(modulus, c, s);
            && (acked && c.nrtx == 0 ==>
                  Estimate(d.sa, d.sv, d.rto) == NextEstimate(c.sa, c.sv, S8(c.rto - c.timer)))
            && (!(acked && c.nrtx == 0) ==> d.sa == c.sa && d.sv == c.sv && d.rto == c.rto)
            && d.timer == (if acked then d.rto else c.timer)
            && (acked && d.st == Established && d.len != 0 ==> d.nrtx == 0)
  {
    InOrderIsProcessed(modulus, c, s, app);
    ByStateLeavesTimer(modulus, AckProcessed(modulus, c, s), s, AcksOutstanding(modulus, c, s), app);
  }

  /// So what an opened connection sends in answer is repeated first with pulse `rto` + 1.
  lemma AnswerIsRepeatedAfter(modulus: nat, c: Conn, s: Segment, app: App, apps: seq<App>)
    requires !s.flags.rst && InOrder(c, s) && AcksOutstanding(modulus, c, s)
    ensures var d := Input(modulus, c, s, app).conn;
            d.st == Established && d.len != 0 && |apps| <= d.rto + 1 ==>
              Retransmissions(d, apps) == if |apps| == d.rto + 1 then 1 else 0
  {
    var d := Input(modulus, c, s, app).conn;
    if d.st == Established && d.len != 0 {
      OpenBefore(modulus, c, s, app);
      AcknowledgementTimesAnew(modulus, c, s, app);
      FirstRepeatIsTimed(d, apps);
    }
  }

  lemma OpenBefore(modulus: nat, c: Conn, s: Segment, app: App)
    requires Input(modulus, c, s, app).conn.st == Established
    ensures c.st in {SynSent, SynRcvd, Established}
  {
    ArrivalMoves(modulus, c, s, app);
  }

  lemma ByStateLeavesTimer(modulus: nat, c: Conn, s: Segment, acked: bool, app: App)
    requires c.st in {SynSent, SynRcvd, Established} && (acked ==> c.len == 0)
    ensures var d := ByState(modulus, c, s, acked, app).conn;
            && d.sa == c.sa && d.sv == c.sv && d.rto == c.rto && d.timer == c.timer
            && (acked && d.st == Established && d.len != 0 ==> d.nrtx == 0)
  {
    ByStateLeavesEstimator(modulus, c, s, acked, app);
  }

  // ---------------------------------------------------------------- window, MSS

  /// The segment size follows the window of the peer: the largest that neither it nor the MSS
  /// agreed on forbids; a closed window counts as none.
  predicate FollowsWindow(initialMss: nat, wnd: nat, mss: nat) {
    && mss <= initialMss && (wnd != 0 ==> mss <= wnd)
    && (mss == initialMss || mss == wnd != 0)
  }

  lemma SegmentSizeFollowsWindow(modulus: nat, c: Conn, s: Segment, app: App)
    requires c.st == Established && InOrder(c, s) && !s.flags.rst && !(s.flags.fin && !c.stopped)
    ensures var r := Input(modulus, c, s, app);
            && FollowsWindow(c.initialMss, s.wnd, r.conn.mss) && r.conn.initialMss == c.initialMss
            && (r.event.Some? ==> r.event.value.mss == r.conn.mss)
            && (r.conn.st == Established && Outstanding(modulus, c, s) == 0 && r.event.Some? ==> r.conn.len <= r.conn.mss)
  {
    InOrderIsProcessed(modulus, c, s, app);
    var d, acked := AckProcessed(modulus, c, s), AcksOutstanding(modulus, c, s);
    var newData := |s.data| > 0 && !d.stopped;
    var mss := if s.wnd > d.initialMss || s.wnd == 0 then d.initialMss else s.wnd;
    if newData || acked {
      var g := d.(rcvNxt := if newData then Advance(modulus, d.rcvNxt, |s.data|) else d.rcvNxt, mss := mss);
      var e := NO_EVENT.(acked := acked, newData := newData, mss := mss, data := s.data);
      assert Input(modulus, c, s, app) == AppSend(g, e, app(e));
      AppSendSpeaks(g, e, app(e));
    }
  }

  /// The MSS option of the SYN or SYN-ACK bounds it from then on, capped by our own.
  lemma OptionBoundsSegmentSize(modulus: nat, c: Conn, s: Segment, app: App, iss: int)
    requires s.mssOption.Some?
    ensures var a := Accepted(modulus, c, c.lport, c.rport, c.ripaddr, s, iss);
            a.mss == a.initialMss <= UIP_TCP_MSS && a.mss <= s.mssOption.value
            && (a.mss == UIP_TCP_MSS || a.mss == s.mssOption.value)
    ensures var r := Input(modulus, c, s, app);
            c.st == SynSent && r.conn.st == Established ==>
              && r.conn.mss == r.conn.initialMss <= UIP_TCP_MSS && r.conn.mss <= s.mssOption.value
              && (r.conn.mss == UIP_TCP_MSS || r.conn.mss == s.mssOption.value)
  {
  }

  /// Whatever the application hears of comes with the segment size of the record, and, as far as
  /// it comes with a segment, with the data of that.
  lemma EventsShowRecord(modulus: nat, c: Conn, s: Segment, app: App)
    ensures var r := Input(modulus, c, s, app);
            r.event.Some? ==> r.event.value.mss == r.conn.mss && (r.event.value.newData && c.st != SynSent ==> r.event.value.data == s.data)
    ensures var r := Timer(c, app); r.event.Some? ==> r.event.value.mss == r.conn.mss && !r.event.value.newData
  {
    if !s.flags.rst && InOrder(c, s) {
      InOrderIsProcessed(modulus, c, s, app);
      EventAtState(modulus, AckProcessed(modulus, c, s), s, AcksOutstanding(modulus, c, s), app);
    }
  }

  lemma EventAtState(modulus: nat, c: Conn, s: Segment, acked: bool, app: App)
    ensures var r := ByState(modulus, c, s, acked, app);
            r.event.Some? ==> r.event.value.mss == r.conn.mss && (r.event.value.newData && c.st != SynSent ==> r.event.value.data == s.data)
  {
  }

  // --------------------------------------------------------------------- resets

  /// A segment that nobody here expects is answered with a reset that fits its sender: it starts
  /// where that expects it, and acknowledges a SYN exactly, so the opener hears of the refusal.
  lemma ResetFitsItsSender(modulus: nat, x: Conn, flags: Flags, data: seq<Byte>, app: App)
    requires !flags.rst
    ensures var r := ResetFor(modulus, Sends(x, flags, data));
            && r.Some? && IsReset(r.value) && r.value.seqno == x.rcvNxt
            && r.value.ackno == Advance(modulus, x.sndNxt, 1)
            && (x.st == SynSent && x.len == 1 ==>
                  && AcksOutstanding(modulus, x, r.value)
                  && Input(modulus, x, r.value, app).conn.Is(Closed)
                  && Input(modulus, x, r.value, app).event == Some(NO_EVENT.(aborted := true, mss := x.mss)))
  {
  }

  // ------------------------------------------------------------------- opening

  /// A connection just accepted answers with its SYN-ACK, and one just asked for sends its SYN
  /// with the second pulse. Unanswered, the one is given up with pulse 102, the other with pulse 100.
  lemma OpeningSpeaks(modulus: nat, slot: Conn, lport: nat, rport: nat, ripaddr: nat, s: Segment, iss: int, a: App, b: App)
    ensures var c := Accepted(modulus, slot, lport, rport, ripaddr, s, iss);
            c.sndNxt == iss && c.rcvNxt == Advance(modulus, s.seqno, 1) && SendsOutstanding(c, Sends(c, SYN_ACK, []))
    ensures var c := Connecting(slot, lport, rport, ripaddr, iss);
            var first := Timer(c, a); var second := Timer(first.conn, b);
            && first.out == None && second.out.Some?
            && SendsOutstanding(second.conn, second.out.value) && second.out.value.seqno == iss
            && second.out.value.mssOption == Some(UIP_TCP_MSS) && second.conn.mss == second.conn.initialMss == UIP_TCP_MSS
    ensures var c := Accepted(modulus, slot, lport, rport, ripaddr, s, iss);
            Waiting(c) && PulsesLeft(c.timer, c.nrtx, Limit(c)) == 102
    ensures var c := Connecting(slot, lport, rport, ripaddr, iss);
            Waiting(c) && PulsesLeft(c.timer, c.nrtx, Limit(c)) == 100
  {
    GiveUpTimes(Accepted(modulus, slot, lport, rport, ripaddr, s, iss));
    GiveUpTimes(Connecting(slot, lport, rport, ripaddr, iss));
  }
}
