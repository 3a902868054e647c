/// From unbounded to 32-bit sequence numbers. As long as no delivered segment is 2^32 or more
/// away from what it is compared with, the 32-bit system is the image of the unbounded one, so
/// stream safety carries over.

module TcpWraparound {
  import opened Basics
  import opened UipTcp
  import opened TcpSystem
  import PacketSplit

  const M: nat := SEQ_MODULUS

  function WrapConn(c: Conn): Conn {
    c.(rcvNxt := Reduce(M, c.rcvNxt), sndNxt := Reduce(M, c.sndNxt))
  }

  function WrapSegment(s: Segment): Segment {
    s.(seqno := Reduce(M, s.seqno), ackno := Reduce(M, s.ackno))
  }

  function WrapOption(s: Option<Segment>): Option<Segment> {
    if s.Some? then Some(WrapSegment(s.value)) else None
  }

  function WrapOut(r: StepOut): StepOut {
    r.(conn := WrapConn(r.conn), out := WrapOption(r.out))
  }

  lemma ReduceShift(x: int)
    ensures Reduce(M, x + M) == Reduce(M, x)
  {
  }

  lemma {:induction false} AdvanceWraps(x: int, n: int)
    ensures Advance(M, Reduce(M, x), n) == Reduce(M, Advance(0, x, n))
    decreases if 0 <= x < M then 0 else if x < 0 then M - x else x
  {
    if x < 0 {
      AdvanceWraps(x + M, n);
      ReduceShift(x + n);
    } else if x >= M {
      AdvanceWraps(x - M, n);
      ReduceShift(x - M + n);
    }
  }

  lemma {:induction false} ReduceSplit(x: int) returns (k: int)
    ensures x == Reduce(M, x) + M * k
    decreases if 0 <= x < M then 0 else if x < 0 then M - x else x
  {
    k := 0;
    if x < 0 {
      k := ReduceSplit(x + M);
      k := k - 1;
    } else if x >= M {
      k := ReduceSplit(x - M);
      k := k + 1;
    }
  }

  predicate Near(x: int, y: int) {
    -(M as int) < x - y < M
  }

  lemma EqualWhenNear(x: int, y: int)
    requires Near(x, y)
    ensures Reduce(M, x) == Reduce(M, y) <==> x == y
  {
    var j := ReduceSplit(x);
    var k := ReduceSplit(y);
  }

  predicate SeqnoMatters(c: Conn, s: Segment) {
    !(c.st == SynSent && s.flags == SYN_ACK) && (|s.data| > 0 || s.flags.syn || s.flags.fin)
  }

  /// The two comparisons `uip_process` makes are not fooled by wrap-around.
  predicate InWindow(c: Conn, s: Segment) {
    !s.flags.rst ==>
      && (SeqnoMatters(c, s) ==> Near(s.seqno, c.rcvNxt))
      && (s.flags.ack && c.len != 0 ==> Near(s.ackno, c.sndNxt + c.len))
  }

  // ------------------------------------------------------ one connection

  lemma AckWraps(c: Conn, s: Segment)
    requires InWindow(c, s) && !s.flags.rst
    ensures AcksOutstanding(M, WrapConn(c), WrapSegment(s)) == AcksOutstanding(0, c, s)
    ensures AckProcessed(M, WrapConn(c), WrapSegment(s)) == WrapConn(AckProcessed(0, c, s))
  {
    AdvanceWraps(c.sndNxt, c.len);
    if s.flags.ack && c.len != 0 {
      EqualWhenNear(s.ackno, c.sndNxt + c.len);
    }
    EstimateIgnoresSequence(c);
  }

  lemma EstimateIgnoresSequence(c: Conn)
    ensures RttUpdate(WrapConn(c)) == WrapConn(RttUpdate(c))
  {
  }

  lemma AppSendWraps(c: Conn, e: AppEvent, r: AppReply)
    ensures AppSend(WrapConn(c), e, r) == WrapOut(AppSend(c, e, r))
  {
  }

  lemma InputWraps(c: Conn, s: Segment, app: App, app': App)
    requires InWindow(c, s)
    requires forall e :: app'(e) == app(e)
    ensures Input(M, WrapConn(c), WrapSegment(s), app') == WrapOut(Input(0, c, s, app))
  {
    if !s.flags.rst {
      if SeqnoMatters(c, s) {
        EqualWhenNear(s.seqno, c.rcvNxt);
      }
      AckWraps(c, s);
      ByStateWraps(AckProcessed(0, c, s), s, AcksOutstanding(0, c, s), app, app');
    }
  }

  lemma ByStateWraps(c: Conn, s: Segment, acked: bool, app: App, app': App)
    requires forall e :: app'(e) == app(e)
    ensures ByState(M, WrapConn(c), WrapSegment(s), acked, app') == WrapOut(ByState(0, c, s, acked, app))
  {
    match c.st {
      case SynRcvd => SynRcvdWraps(c, s, acked, app, app');
      case SynSent => SynSentWraps(c, s, acked, app, app');
      case Established => EstablishedWraps(c, s, acked, app, app');
      case FinWait1 => FinWait1Wraps(c, s, acked, app, app');
      case FinWait2 => FinWait2Wraps(c, s, app, app');
      case _ =>
    }
  }

  lemma SynRcvdWraps(c: Conn, s: Segment, acked: bool, app: App, app': App)
    requires forall e :: app'(e) == app(e)
    ensures InputSynRcvd(M, WrapConn(c), WrapSegment(s), acked, app') == WrapOut(InputSynRcvd(0, c, s, acked, app))
  {
    AdvanceWraps(c.rcvNxt, |s.data|);
    var d := c.Enter(Established).(len := 0, rcvNxt := c.rcvNxt + |s.data|);
    var e := NO_EVENT.(connected := true, newData := |s.data| > 0, mss := c.mss, data := s.data);
    AppSendWraps(d, e, app(e));
  }

  lemma SynSentWraps(c: Conn, s: Segment, acked: bool, app: App, app': App)
    requires forall e :: app'(e) == app(e)
    ensures InputSynSent(M, WrapConn(c), WrapSegment(s), acked, app') == WrapOut(InputSynSent(0, c, s, acked, app))
  {
    AdvanceWraps(s.seqno, 1);
    var mss := if s.mssOption.Some? then Min(s.mssOption.value, UIP_TCP_MSS) else c.mss;
    var initialMss := if s.mssOption.Some? then mss else c.initialMss;
    var d := c.Enter(Established).(len := 0, rcvNxt := s.seqno + 1, mss := mss, initialMss := initialMss);
    var e := NO_EVENT.(connected := true, newData := true, mss := mss);
    AppSendWraps(d, e, app(e));
  }

  lemma EstablishedWraps(c: Conn, s: Segment, acked: bool, app: App, app': App)
    requires forall e :: app'(e) == app(e)
    ensures InputEstablished(M, WrapConn(c), WrapSegment(s), acked, app')
         == WrapOut(InputEstablished(0, c, s, acked, app))
  {
    if s.flags.fin && !c.stopped {
      FinWraps(c, s, acked, app, app');
    } else {
      DataWraps(c, s, acked, app, app');
    }
  }

  lemma DataWraps(c: Conn, s: Segment, acked: bool, app: App, app': App)
    requires forall e :: app'(e) == app(e)
    requires !s.flags.fin || c.stopped
    ensures InputEstablished(M, WrapConn(c), WrapSegment(s), acked, app')
         == WrapOut(InputEstablished(0, c, s, acked, app))
  {
    AdvanceWraps(c.rcvNxt, |s.data|);
    var newData := |s.data| > 0 && !c.stopped;
    var mss := if s.wnd > c.initialMss || s.wnd == 0 then c.initialMss else s.wnd;
    var d := c.(rcvNxt := if newData then c.rcvNxt + |s.data| else c.rcvNxt, mss := mss);
    var e := NO_EVENT.(acked := acked, newData := newData, mss := mss, data := s.data);
    AppSendWraps(d, e, app(e));
  }

  lemma FinWraps(c: Conn, s: Segment, acked: bool, app: App, app': App)
    requires s.flags.fin && !c.stopped
    ensures InputEstablished(M, WrapConn(c), WrapSegment(s), acked, app')
         == WrapOut(InputEstablished(0, c, s, acked, app))
  {
    AdvanceWraps(c.rcvNxt, 1 + |s.data|);
  }

  lemma FinWait1Wraps(c: Conn, s: Segment, acked: bool, app: App, app': App)
    requires forall e :: app'(e) == app(e)
    ensures InputFinWait1(M, WrapConn(c), WrapSegment(s), acked, app') == WrapOut(InputFinWait1(0, c, s, acked, app))
  {
    AdvanceWraps(c.rcvNxt, |s.data|);
    AdvanceWraps(c.rcvNxt + |s.data|, 1);
  }

  lemma FinWait2Wraps(c: Conn, s: Segment, app: App, app': App)
    requires forall e :: app'(e) == app(e)
    ensures InputFinWait2(M, WrapConn(c), WrapSegment(s), app') == WrapOut(InputFinWait2(0, c, s, app))
  {
    AdvanceWraps(c.rcvNxt, |s.data|);
    AdvanceWraps(c.rcvNxt + |s.data|, 1);
  }

  lemma TimerWraps(c: Conn, app: App, app': App)
    requires forall e :: app'(e) == app(e)
    ensures Timer(WrapConn(c), app') == WrapOut(Timer(c, app))
  {
    var e := NO_EVENT.(poll := true, mss := c.mss);
    AppSendWraps(c, e, app(e));
    RetransmitWraps(c.(timer := Backoff(c.nrtx), nrtx := c.nrtx + 1), app, app');
  }

  lemma RetransmitWraps(c: Conn, app: App, app': App)
    requires forall e :: app'(e) == app(e)
    ensures Retransmit(WrapConn(c), app') == WrapOut(Retransmit(c, app))
  {
  }

  lemma PollWraps(c: Conn, app: App, app': App)
    requires forall e :: app'(e) == app(e)
    ensures Poll(WrapConn(c), app') == WrapOut(Poll(c, app))
  {
    var e := NO_EVENT.(poll := true, mss := c.mss);
    AppSendWraps(c, e, app(e));
  }

  // ---------------------------------------------------------- the system

  function WrapHost(h: Host): Host {
    h.(conn := WrapConn(h.conn), iss := Reduce(M, h.iss))
  }

  function WrapAll(ss: seq<Segment>): (r: seq<Segment>)
    ensures |r| == |ss|
    ensures forall i :: 0 <= i < |ss| ==> r[i] == WrapSegment(ss[i])
  {
    seq(|ss|, i requires 0 <= i < |ss| => WrapSegment(ss[i]))
  }

  lemma WrapAllOfConcat(a: seq<Segment>, b: seq<Segment>)
    ensures WrapAll(a + b) == WrapAll(a) + WrapAll(b)
  {
  }

  function WrapEffect(f: Effect): Effect {
    Effect(WrapHost(f.host), WrapAll(f.out))
  }

  function WrapSystem(s: System): System {
    System(WrapHost(s.a), WrapHost(s.b), WrapAll(s.toA), WrapAll(s.toB))
  }

  lemma SplitWraps(s: Segment)
    ensures SplitSegment(M, WrapSegment(s)) == WrapAll(SplitSegment(0, s))
  {
    if |s.data| > PacketSplit.SPLIT_THRESHOLD {
      AdvanceWraps(s.seqno, PacketSplit.FirstLength(|s.data|));
    }
  }

  lemma ApplyWraps(h: Host, r: StepOut)
    requires h.tx.Ok()
    ensures Apply(M, WrapHost(h), WrapOut(r)) == WrapEffect(Apply(0, h, r))
  {
    if r.out.Some? {
      SplitWraps(r.out.value);
    }
  }

  lemma SameAnswers(h: Host)
    requires h.tx.Ok()
    ensures forall e :: AppOf(WrapHost(h))(e) == AppOf(h)(e)
  {
  }

  lemma ReceiveWraps(h: Host, s: Segment)
    requires h.tx.Ok() && InWindow(h.conn, s)
    ensures Receive(M, WrapHost(h), WrapSegment(s)) == WrapEffect(Receive(0, h, s))
  {
    SameAnswers(h);
    if h.conn.Live() {
      InputWraps(h.conn, s, AppOf(h), AppOf(WrapHost(h)));
      ApplyWraps(h, Input(0, h.conn, s, AppOf(h)));
    } else {
      AdvanceWraps(s.seqno, 1);
    }
  }

  lemma ActWraps(h: Host, l: Local)
    requires h.tx.Ok()
    ensures Act(M, WrapHost(h), l) == WrapEffect(Act(0, h, l))
  {
    SameAnswers(h);
    match l {
      case Pulse =>
        TimerWraps(h.conn, AppOf(h), AppOf(WrapHost(h)));
        ApplyWraps(h, Timer(h.conn, AppOf(h)));
      case PollRequest =>
        PollWraps(h.conn, AppOf(h), AppOf(WrapHost(h)));
        ApplyWraps(h, Poll(h.conn, AppOf(h)));
      case Do(c) =>
    }
  }

  /// The network forgets segments before sequence numbers come round.
  predicate Fresh(s: System, t: Step) {
    match t
    case DeliverToA(i) => i < |s.toA| ==> InWindow(s.a.conn, s.toA[i])
    case DeliverToB(i) => i < |s.toB| ==> InWindow(s.b.conn, s.toB[i])
    case _ => true
  }

  predicate FreshRun(s: System, steps: seq<Step>)
    requires s.Ok()
    decreases |steps|
  {
    steps == [] || (Fresh(s, steps[0]) && FreshRun(Next(0, s, steps[0]), steps[1..]))
  }

  lemma NextWraps(s: System, t: Step)
    requires s.Ok() && Fresh(s, t)
    ensures Next(M, WrapSystem(s), t) == WrapSystem(Next(0, s, t))
  {
    match t {
      case DeliverToA(i) =>
        if i < |s.toA| {
          ReceiveWraps(s.a, s.toA[i]);
          WrapAllOfConcat(s.toB, Receive(0, s.a, s.toA[i]).out);
        }
      case DeliverToB(i) =>
        if i < |s.toB| {
          ReceiveWraps(s.b, s.toB[i]);
          WrapAllOfConcat(s.toA, Receive(0, s.b, s.toB[i]).out);
        }
      case AtA(l) =>
        ActWraps(s.a, l);
        WrapAllOfConcat(s.toB, Act(0, s.a, l).out);
      case AtB(l) =>
        ActWraps(s.b, l);
        WrapAllOfConcat(s.toA, Act(0, s.b, l).out);
    }
  }

  /// The 32-bit system does what the unbounded system does.
  lemma {:induction false} RunWraps(s: System, steps: seq<Step>)
    requires s.Ok() && FreshRun(s, steps)
    ensures Run(M, WrapSystem(s), steps) == WrapSystem(Run(0, s, steps))
    decreases |steps|
  {
    if steps != [] {
      NextWraps(s, steps[0]);
      RunWraps(Next(0, s, steps[0]), steps[1..]);
    }
  }
}
