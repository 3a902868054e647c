/// What every connection keeps over every run: the length discipline of each state, the
/// state diagram of section 3.2 of RFC 793, the exact moment a silent connection is given
/// up, and the range of the round-trip estimator.

module TcpLifecycle {
  import opened Basics
  import opened UipTcp

  /// Everything that can happen to one slot of the connection table. Pausing is allowed in
  /// every state, as `xtcpd_pause` does not look at the state either.
  datatype Action =
    | Arrival(s: Segment, app: App)
    | Pulse(app: App)
    | PollRequest(app: App)
    | Pause
    | Unpause
    | Accept(lport: nat, rport: nat, ripaddr: nat, syn: Segment, iss: int)
    | Connect(lport: nat, rport: nat, ripaddr: nat, iss: int)

  function Act(modulus: nat, c: Conn, a: Action): Conn {
    match a
    case Arrival(s, app) => if c.Live() then Input(modulus, c, s, app).conn else c
    case Pulse(app) => Timer(c, app).conn
    case PollRequest(app) => Poll(c, app).conn
    case Pause => c.(stopped := true)
    case Unpause => c.(stopped := false)
    case Accept(lport, rport, ripaddr, syn, iss) =>
      if c.Is(Closed) || c.Is(TimeWait) then Accepted(modulus, c, lport, rport, ripaddr, syn, iss) else c
    case Connect(lport, rport, ripaddr, iss) =>
      if c.Is(Closed) || c.Is(TimeWait) then Connecting(c, lport, rport, ripaddr, iss) else c
  }

  function Run(modulus: nat, c: Conn, actions: seq<Action>): Conn
    decreases |actions|
  {
    if actions == [] then c else Run(modulus, Act(modulus, c, actions[0]), actions[1..])
  }

  /// The slot as `uip_init` leaves it.
  const EMPTY_SLOT := Conn(0, 0, 0, 0, 0, 0, 0, 0, 0, 0, 0, Closed, false, 0, 0)

  // ---------------------------------------------------------------- lengths

  predicate LenInv(c: Conn) {
    && c.mss <= UIP_TCP_MSS
    && c.initialMss <= UIP_TCP_MSS
    && c.nrtx <= UIP_MAXRTX
    && match c.st
       case SynSent => c.len == 1
       case SynRcvd => c.len == 1
       case FinWait1 => c.len == 1
       case Closing => c.len == 1
       case LastAck => c.len == 1
       case FinWait2 => c.len == 0
       case TimeWait => c.len == 0
       case Established => c.len <= UIP_TCP_MSS
       case Closed => true
  }

  /// The record between acknowledgement processing and the switch on its state.
  predicate LenInvOnEntry(c: Conn, acked: bool) {
    if acked then
      && c.len == 0 && c.st != FinWait2 && c.st != TimeWait
      && c.mss <= UIP_TCP_MSS && c.initialMss <= UIP_TCP_MSS && c.nrtx <= UIP_MAXRTX
    else
      LenInv(c)
  }

  lemma SynKeepsLenInv(modulus: nat, c: Conn, s: Segment, acked: bool, app: App)
    requires LenInvOnEntry(c, acked)
    ensures c.st == SynRcvd ==> LenInv(InputSynRcvd(modulus, c, s, acked, app).conn)
    ensures c.st == SynSent ==> LenInv(InputSynSent(modulus, c, s, acked, app).conn)
  {
  }

  lemma EstablishedKeepsLenInv(modulus: nat, c: Conn, s: Segment, acked: bool, app: App)
    requires LenInvOnEntry(c, acked) && c.st == Established
    ensures LenInv(InputEstablished(modulus, c, s, acked, app).conn)
  {
  }

  lemma FinKeepsLenInv(modulus: nat, c: Conn, s: Segment, acked: bool, app: App)
    requires LenInvOnEntry(c, acked)
    ensures c.st == FinWait1 ==> LenInv(InputFinWait1(modulus, c, s, acked, app).conn)
    ensures c.st == FinWait2 ==> LenInv(InputFinWait2(modulus, c, s, app).conn)
  {
  }

  lemma ByStateKeepsLenInv(modulus: nat, c: Conn, s: Segment, acked: bool, app: App)
    requires LenInvOnEntry(c, acked)
    ensures LenInv(ByState(modulus, c, s, acked, app).conn)
  {
    match c.st {
      case SynRcvd | SynSent => SynKeepsLenInv(modulus, c, s, acked, app);
      case Established => EstablishedKeepsLenInv(modulus, c, s, acked, app);
      case FinWait1 | FinWait2 => FinKeepsLenInv(modulus, c, s, acked, app);
      case _ =>
    }
  }

  lemma InputKeepsLenInv(modulus: nat, c: Conn, s: Segment, app: App)
    requires LenInv(c)
    ensures LenInv(Input(modulus, c, s, app).conn)
  {
    ByStateKeepsLenInv(modulus, AckProcessed(modulus, c, s), s, AcksOutstanding(modulus, c, s), app);
  }

  lemma AcceptedKeepsLenInv(
      modulus: nat, c: Conn, lport: nat, rport: nat, ripaddr: nat, s: Segment, iss: int)
    requires LenInv(c)
    ensures LenInv(Accepted(modulus, c, lport, rport, ripaddr, s, iss))
  {
  }

  lemma ActKeepsLenInv(modulus: nat, c: Conn, a: Action)
    requires LenInv(c)
    ensures LenInv(Act(modulus, c, a))
  {
    if a.Arrival? && c.Live() {
      InputKeepsLenInv(modulus, c, a.s, a.app);
    }
  }

  /// In every state a slot can reach, the outstanding length is the one its TCP state allows.
  lemma {:induction false} EveryRunKeepsLenInv(modulus: nat, c: Conn, actions: seq<Action>)
    requires LenInv(c)
    ensures LenInv(Run(modulus, c, actions))
    decreases |actions|
  {
    if actions != [] {
      ActKeepsLenInv(modulus, c, actions[0]);
      EveryRunKeepsLenInv(modulus, Act(modulus, c, actions[0]), actions[1..]);
    }
  }

  lemma ReachableLengths(modulus: nat, actions: seq<Action>)
    ensures LenInv(Run(modulus, EMPTY_SLOT, actions))
  {
    EveryRunKeepsLenInv(modulus, EMPTY_SLOT, actions);
  }

  // ---------------------------------------------------------- state diagram

  datatype RfcState =
    | CLOSED | LISTEN | SYN_SENT | SYN_RCVD | ESTAB | FIN_WAIT_1 | FIN_WAIT_2
    | CLOSE_WAIT | CLOSING | LAST_ACK | TIME_WAIT

  function Rfc(st: TcpState): RfcState {
    match st
    case Closed => CLOSED
    case SynRcvd => SYN_RCVD
    case SynSent => SYN_SENT
    case Established => ESTAB
    case FinWait1 => FIN_WAIT_1
    case FinWait2 => FIN_WAIT_2
    case Closing => CLOSING
    case TimeWait => TIME_WAIT
    case LastAck => LAST_ACK
  }

  /// The arrows of figure 6 of RFC 793.
  predicate Figure6(a: RfcState, b: RfcState) {
    match a
    case CLOSED => b in {LISTEN, SYN_SENT}
    case LISTEN => b in {CLOSED, SYN_SENT, SYN_RCVD}
    case SYN_SENT => b in {CLOSED, SYN_RCVD, ESTAB}
    case SYN_RCVD => b in {ESTAB, FIN_WAIT_1}
    case ESTAB => b in {FIN_WAIT_1, CLOSE_WAIT}
    case CLOSE_WAIT => b == LAST_ACK
    case LAST_ACK => b == CLOSED
    case FIN_WAIT_1 => b in {FIN_WAIT_2, CLOSING}
    case FIN_WAIT_2 => b == TIME_WAIT
    case CLOSING => b == TIME_WAIT
    case TIME_WAIT => b == CLOSED
  }

  /// At most two arrows in a row.
  predicate Figure6Path(a: RfcState, b: RfcState) {
    a == b || Figure6(a, b)
    || (exists mid :: Figure6(a, mid) && Figure6(mid, b))
  }

  /// One more arrow in front: a lingering slot is given to a new connection.
  predicate Figure6PathReusing(a: RfcState, b: RfcState) {
    Figure6Path(a, b) || (exists mid :: Figure6(a, mid) && Figure6Path(mid, b))
  }

  /// The ways a connection may vanish outside the diagram: a reset from the peer, an abort
  /// asked for by the application, the retransmission limit, the FIN-WAIT-2 time limit.
  predicate CutShort(modulus: nat, c: Conn, a: Action) {
    match a
    case Arrival(s, app) => s.flags.rst || Aborted(Input(modulus, c, s, app).event, app)
    case Pulse(app) =>
      || (c.len != 0 && c.timer == 0 && GivesUp(c))
      || (c.Is(FinWait2) && U8(c.timer + 1) == UIP_TIME_WAIT_TIMEOUT)
      || Aborted(Timer(c, app).event, app)
    case PollRequest(app) => Aborted(Poll(c, app).event, app)
    case _ => false
  }

  predicate Aborted(e: Option<AppEvent>, app: App) {
    e.Some? && app(e.value).request == Abort
  }

  /// The two-arrow moves the code makes in one step.
  lemma ShortCuts()
    ensures Figure6Path(ESTAB, LAST_ACK)
    ensures Figure6Path(SYN_SENT, FIN_WAIT_1)
    ensures Figure6Path(FIN_WAIT_1, TIME_WAIT)
    ensures Figure6Path(CLOSED, SYN_RCVD)
    ensures Figure6Path(TIME_WAIT, SYN_SENT)
  {
    assert Figure6(ESTAB, CLOSE_WAIT) && Figure6(CLOSE_WAIT, LAST_ACK);
    assert Figure6(SYN_SENT, ESTAB) && Figure6(ESTAB, FIN_WAIT_1);
    assert Figure6(FIN_WAIT_1, FIN_WAIT_2) && Figure6(FIN_WAIT_2, TIME_WAIT);
    assert Figure6(CLOSED, LISTEN) && Figure6(LISTEN, SYN_RCVD);
    assert Figure6(TIME_WAIT, CLOSED) && Figure6(CLOSED, SYN_SENT);
  }

  /// The successors each state has in the code.
  predicate Moves(a: TcpState, b: TcpState) {
    match a
    case SynRcvd => b in {Established, FinWait1}
    case SynSent => b in {Established, FinWait1, Closed}
    case Established => b in {FinWait1, LastAck}
    case FinWait1 => b in {FinWait2, Closing, TimeWait}
    case FinWait2 => b == TimeWait
    case Closing => b == TimeWait
    case TimeWait => b == Closed
    case LastAck => b == Closed
    case Closed => false
  }

  lemma MovesFollowRfc793(a: TcpState, b: TcpState)
    requires a == b || Moves(a, b)
    ensures Figure6Path(Rfc(a), Rfc(b))
  {
    ShortCuts();
  }

  /// Every step of a connection follows the state diagram or is one of the four cuts. Only
  /// a SYN that takes over a lingering slot needs a third arrow.
  lemma StepsFollowRfc793(modulus: nat, c: Conn, a: Action)
    ensures var d := Act(modulus, c, a);
            || Figure6Path(Rfc(c.st), Rfc(d.st))
            || (d.Is(Closed) && CutShort(modulus, c, a))
            || (a.Accept? && c.Is(TimeWait) && Figure6PathReusing(Rfc(c.st), Rfc(d.st)))
  {
    var d := Act(modulus, c, a);
    if a.Accept? || a.Connect? {
      FillingMoves(modulus, c, a);
    } else if a.Arrival? && c.Live() {
      ArrivalMoves(modulus, c, a.s, a.app);
    }
    if !a.Accept? && !a.Connect? && (c.st == d.st || Moves(c.st, d.st)) {
      MovesFollowRfc793(c.st, d.st);
    }
  }

  lemma FillingMoves(modulus: nat, c: Conn, a: Action)
    requires a.Accept? || a.Connect?
    ensures var d := Act(modulus, c, a);
            || Figure6Path(Rfc(c.st), Rfc(d.st))
            || (a.Accept? && c.Is(TimeWait) && Figure6PathReusing(Rfc(c.st), Rfc(d.st)))
  {
    ShortCuts();
    assert Figure6(TIME_WAIT, CLOSED);
  }

  lemma ArrivalMoves(modulus: nat, c: Conn, s: Segment, app: App)
    ensures var r := Input(modulus, c, s, app);
            || r.conn.st == c.st || Moves(c.st, r.conn.st)
            || (r.conn.Is(Closed) && (s.flags.rst || Aborted(r.event, app)))
  {
    var d := AckProcessed(modulus, c, s);
    assert d.st == c.st;
    ByStateMoves(modulus, d, s, AcksOutstanding(modulus, c, s), app);
  }

  lemma ByStateMoves(modulus: nat, c: Conn, s: Segment, acked: bool, app: App)
    ensures var r := ByState(modulus, c, s, acked, app);
            || r.conn.st == c.st || Moves(c.st, r.conn.st)
            || (r.conn.Is(Closed) && Aborted(r.event, app))
  {
  }

  // ------------------------------------------------------------- giving up

  /// A connection that waits for an acknowledgement with the retransmission timer running.
  predicate Waiting(c: Conn) {
    c.len != 0 && c.nrtx <= Limit(c)
    && c.st in {SynRcvd, SynSent, Established, FinWait1, Closing, LastAck}
  }

  function Limit(c: Conn): nat {
    if c.Is(SynSent) || c.Is(SynRcvd) then UIP_MAXSYNRTX else UIP_MAXRTX
  }

  /// Timer pulses until the pulse that closes the connection, this one included.
  function PulsesLeft(timer: nat, nrtx: nat, limit: nat): (n: nat)
    requires nrtx <= limit
    ensures n > timer
    decreases limit - nrtx
  {
    timer + 1 + if nrtx == limit then 0 else PulsesLeft(Backoff(nrtx), nrtx + 1, limit)
  }

  /// One application per pulse, as the application may answer each call differently.
  function Pulses(c: Conn, apps: seq<App>): Conn
    decreases |apps|
  {
    if apps == [] then c else Pulses(Timer(c, apps[0]).conn, apps[1..])
  }

  /// How many of these pulses retransmitted.
  function Retransmissions(c: Conn, apps: seq<App>): nat
    decreases |apps|
  {
    if apps == [] then 0
    else
      (if c.len != 0 && c.Live() && c.timer == 0 && !GivesUp(c) then 1 else 0)
      + Retransmissions(Timer(c, apps[0]).conn, apps[1..])
  }

  lemma OnePulse(c: Conn, app: App)
    requires Waiting(c)
    ensures var d := Timer(c, app).conn;
            var left := PulsesLeft(c.timer, c.nrtx, Limit(c));
            && (left == 1 <==> d.Is(Closed))
            && (left == 1 <==> c.timer == 0 && c.nrtx == Limit(c))
            && (left > 1 ==>
                 && Waiting(d) && d.st == c.st && d.len == c.len && Limit(d) == Limit(c)
                 && PulsesLeft(d.timer, d.nrtx, Limit(d)) == left - 1
                 && d.nrtx == c.nrtx + (if c.timer == 0 then 1 else 0))
  {
    if c.timer != 0 {
      assert Timer(c, app) == Quiet(c.(timer := c.timer - 1));
    } else if !GivesUp(c) {
      var r := c.(timer := Backoff(c.nrtx), nrtx := c.nrtx + 1);
      assert Timer(c, app) == Retransmit(r, app);
      RetransmitKeeps(r, app);
    }
  }

  lemma RetransmitKeeps(c: Conn, app: App)
    ensures var d := Retransmit(c, app).conn;
            d == c.(stopped := d.stopped)
  {
  }

  /// A connection that hears nothing stays in its state, with all its data outstanding, until
  /// exactly pulse number PulsesLeft closes it; by then it has retransmitted as often as the
  /// limit allows.
  lemma {:induction false} GiveUpIsExact(c: Conn, apps: seq<App>)
    requires Waiting(c)
    requires |apps| <= PulsesLeft(c.timer, c.nrtx, Limit(c))
    ensures var d := Pulses(c, apps);
            var left := PulsesLeft(c.timer, c.nrtx, Limit(c));
            if |apps| < left then
              d.st == c.st && d.len == c.len && d.nrtx == c.nrtx + Retransmissions(c, apps) <= Limit(c)
            else
              d.Is(Closed) && Retransmissions(c, apps) == Limit(c) - c.nrtx
    decreases |apps|
  {
    if apps != [] {
      OnePulse(c, apps[0]);
      var d := Timer(c, apps[0]).conn;
      if PulsesLeft(c.timer, c.nrtx, Limit(c)) == 1 {
        assert apps[1..] == [];
      } else {
        GiveUpIsExact(d, apps[1..]);
      }
    }
  }

  /// The numbers for the shipped constants, starting from a segment just sent.
  lemma GiveUpTimes(c: Conn)
    requires Waiting(c) && c.nrtx == 0
    ensures PulsesLeft(c.timer, c.nrtx, Limit(c)) ==
            c.timer + (if c.Is(SynSent) || c.Is(SynRcvd) then 99 else 246)
  {
    var l := Limit(c);
    assert PulsesLeft(Backoff(4), 5, 5) == 49;
    assert PulsesLeft(Backoff(3), 4, 5) == 74;
    assert PulsesLeft(Backoff(2), 3, 5) == 87;
    assert PulsesLeft(Backoff(6), 7, 8) == 98;
    assert PulsesLeft(Backoff(4), 5, 8) == 196;
    assert PulsesLeft(Backoff(3), 4, 8) == 221;
    assert PulsesLeft(Backoff(2), 3, 8) == 234;
  }

  /// Pulses a connection lingers in FIN-WAIT-2 or TIME-WAIT. The eight-bit timer is compared
  /// for equality only, so one that starts at or above the limit first wraps around.
  function LingerLeft(timer: nat): (n: nat)
    requires timer < 256
    ensures 1 <= n <= 256
  {
    if timer < UIP_TIME_WAIT_TIMEOUT then UIP_TIME_WAIT_TIMEOUT - timer
    else UIP_TIME_WAIT_TIMEOUT + 256 - timer
  }

  lemma {:induction false} LingerIsExact(c: Conn, apps: seq<App>)
    requires (c.Is(FinWait2) || c.Is(TimeWait)) && c.timer < 256
    requires |apps| <= LingerLeft(c.timer)
    ensures var d := Pulses(c, apps);
            if |apps| < LingerLeft(c.timer) then d.Is(c.st) else d.Is(Closed)
    decreases |apps|
  {
    if apps != [] {
      var d := Timer(c, apps[0]).conn;
      if LingerLeft(c.timer) == 1 {
        assert apps[1..] == [];
      } else {
        LingerIsExact(d, apps[1..]);
      }
    }
  }

  /// A paused connection in these two states is never timed out.
  lemma {:induction false} PausedLingerNeverEnds(c: Conn, apps: seq<App>)
    requires (c.st == FinWait2 || c.st == TimeWait) && c.stopped && c.len == 0
    ensures Pulses(c, apps) == c
  {
    if apps != [] {
      PausedLingerNeverEnds(c, apps[1..]);
    }
  }

  /// So the time limit of FIN-WAIT-2 and TIME-WAIT holds exactly for connections not paused.
  lemma LingerEndsIffNotPaused(c: Conn, apps: seq<App>)
    requires LenInv(c) && c.timer < 256 && (c.st == FinWait2 || c.st == TimeWait)
    requires |apps| == LingerLeft(c.timer)
    ensures Pulses(c, apps).Is(Closed) <==> !c.stopped
  {
    if c.stopped {
      PausedLingerNeverEnds(c, apps);
    } else {
      LingerIsExact(c, apps);
    }
  }

  /// A pause that reaches a closed slot makes it count as in use. If it was closed with
  /// something outstanding its retransmission timer runs on and frees it by giving up once more;
  /// if not, no number of pulses does.
  lemma {:induction false} PausedClosedSlotIsFreedIff(c: Conn, apps: seq<App>)
    requires c.st == Closed && c.stopped && c.nrtx <= UIP_MAXRTX
    requires |apps| <= PulsesLeft(c.timer, c.nrtx, UIP_MAXRTX)
    ensures Pulses(c, apps).Is(Closed) <==>
            c.len != 0 && |apps| == PulsesLeft(c.timer, c.nrtx, UIP_MAXRTX)
    decreases |apps|
  {
    var left := PulsesLeft(c.timer, c.nrtx, UIP_MAXRTX);
    if apps != [] {
      var d := Timer(c, apps[0]).conn;
      if c.len == 0 {
        PausedSlotIgnoresPulses(c, apps);
      } else if left == 1 {
        assert apps[1..] == [];
      } else {
        PausedClosedPulse(c, apps[0]);
        PausedClosedSlotIsFreedIff(d, apps[1..]);
      }
    }
  }

  lemma PausedClosedPulse(c: Conn, app: App)
    requires c.st == Closed && c.stopped && c.nrtx <= UIP_MAXRTX && c.len != 0
    requires PulsesLeft(c.timer, c.nrtx, UIP_MAXRTX) > 1
    ensures var d := Timer(c, app).conn;
            && d == c.(timer := d.timer, nrtx := d.nrtx) && d.nrtx <= UIP_MAXRTX
            && PulsesLeft(d.timer, d.nrtx, UIP_MAXRTX) == PulsesLeft(c.timer, c.nrtx, UIP_MAXRTX) - 1
  {
  }

  lemma {:induction false} PausedSlotIgnoresPulses(c: Conn, apps: seq<App>)
    requires c.st == Closed && c.stopped && c.len == 0
    ensures Pulses(c, apps) == c
    decreases |apps|
  {
    if apps != [] {
      PausedSlotIgnoresPulses(c, apps[1..]);
    }
  }

  /// Giving up leaves a slot of the first kind, paused for 256 pulses, or 403 from a SYN state.
  lemma PauseAfterGivingUp(modulus: nat, c: Conn, app: App)
    requires Waiting(c) && c.timer == 0 && GivesUp(c) && c.nrtx == Limit(c)
    ensures var d := Act(modulus, Timer(c, app).conn, Pause);
            && d.st == Closed && d.stopped && d.len == c.len != 0
            && PulsesLeft(d.timer, d.nrtx, UIP_MAXRTX) == if c.Is(SynSent) || c.Is(SynRcvd) then 403 else 256
  {
    assert PulsesLeft(Backoff(7), 8, 8) == 49;
    assert PulsesLeft(Backoff(6), 7, 8) == 98;
    assert PulsesLeft(Backoff(5), 6, 8) == 147;
    assert PulsesLeft(255, 5, 8) == 403;
  }

  /// Neither an unpause nor a reset from the peer.
  predicate LeavesPaused(a: Action) {
    !a.Unpause? && !(a.Arrival? && a.s.flags.rst)
  }

  /// A slot of the second kind is lost: whatever happens short of an unpause or a reset from the
  /// old peer, it stays marked as in use.
  lemma {:induction false} PausedClosedSlotIsLost(modulus: nat, c: Conn, actions: seq<Action>)
    requires c.st == Closed && c.stopped && c.len == 0
    requires forall a :: a in actions ==> LeavesPaused(a)
    ensures Run(modulus, c, actions) == c && c.Live()
  {
    if actions != [] {
      assert LeavesPaused(actions[0]);
      assert Act(modulus, c, actions[0]) == c;
      PausedClosedSlotIsLost(modulus, c, actions[1..]);
    }
  }

  /// A segment that is in order, or has nothing to be in order, acknowledges what is outstanding.
  predicate TakesAck(modulus: nat, c: Conn, a: Action) {
    && a.Arrival? && AcksOutstanding(modulus, c, a.s)
    && (a.s.seqno == c.rcvNxt || (a.s.data == [] && !a.s.flags.syn && !a.s.flags.fin))
  }

  function PulseCount(actions: seq<Action>): nat {
    if actions == [] then 0 else (if actions[0].Pulse? then 1 else 0) + PulseCount(actions[1..])
  }

  lemma PausedClosedStep(modulus: nat, c: Conn, a: Action)
    requires c.st == Closed && c.stopped && c.len != 0 && LeavesPaused(a) && !a.Pulse?
    ensures var d := Act(modulus, c, a);
            if TakesAck(modulus, c, a) then d.st == Closed && d.stopped && d.len == 0 else d == c
  {
    if a.Arrival? {
      var d := AckProcessed(modulus, c, a.s);
      assert ByState(modulus, d, a.s, AcksOutstanding(modulus, c, a.s), a.app) == Quiet(d);
    }
  }

  /// Over all actions: the last pulse of its retransmission timer frees a paused closed slot if
  /// and only if something was outstanding and its acknowledgement has not come since. The
  /// acknowledgement turns a slot of the first kind into one of the second.
  lemma {:induction false} PausedClosedSlotComesBackIff(modulus: nat, c: Conn, actions: seq<Action>, app: App)
    requires c.st == Closed && c.stopped && c.nrtx <= UIP_MAXRTX
    requires forall a :: a in actions ==> LeavesPaused(a)
    requires PulseCount(actions) + 1 == PulsesLeft(c.timer, c.nrtx, UIP_MAXRTX)
    ensures Run(modulus, c, actions + [Pulse(app)]).Is(Closed) <==>
            c.len != 0 && forall a :: a in actions ==> !TakesAck(modulus, c, a)
    decreases |actions|
  {
    var all := actions + [Pulse(app)];
    if c.len == 0 {
      assert forall a :: a in all ==> a in actions || a == Pulse(app);
      PausedClosedSlotIsLost(modulus, c, all);
    } else if actions == [] {
      assert Run(modulus, c, all) == Run(modulus, Timer(c, app).conn, []);
    } else {
      var d, rest := Act(modulus, c, actions[0]), actions[1..];
      assert all[1..] == rest + [Pulse(app)];
      assert LeavesPaused(actions[0]);
      if actions[0].Pulse? {
        PausedClosedPulse(c, actions[0].app);
        PausedClosedSlotComesBackIff(modulus, d, rest, app);
        SameAcks(modulus, c, d, rest);
      } else {
        PausedClosedStep(modulus, c, actions[0]);
        if TakesAck(modulus, c, actions[0]) {
          assert forall a :: a in rest + [Pulse(app)] ==> a in actions || a == Pulse(app);
          PausedClosedSlotIsLost(modulus, d, rest + [Pulse(app)]);
        } else {
          PausedClosedSlotComesBackIff(modulus, d, rest, app);
        }
      }
      assert forall a :: a in actions <==> a == actions[0] || a in rest;
    }
  }

  lemma SameAcks(modulus: nat, c: Conn, d: Conn, actions: seq<Action>)
    requires d == c.(timer := d.timer, nrtx := d.nrtx)
    ensures forall a :: TakesAck(modulus, d, a) <==> TakesAck(modulus, c, a)
  {
  }

  /// A paused TIME-WAIT record stays as it is until an unpause or a reset.
  lemma {:induction false} PausedTimeWaitStays(modulus: nat, c: Conn, actions: seq<Action>)
    requires c.st == TimeWait && c.stopped && c.len == 0
    requires forall a :: a in actions ==> LeavesPaused(a)
    ensures Run(modulus, c, actions) == c
  {
    if actions != [] {
      assert LeavesPaused(actions[0]);
      assert Act(modulus, c, actions[0]) == c;
      PausedTimeWaitStays(modulus, c, actions[1..]);
    }
  }

  predicate HearsFin(c: Conn, a: Action) {
    a.Arrival? && a.s.flags.fin && a.s.seqno == c.rcvNxt
  }

  /// A paused FIN-WAIT-2 record also leaves on the FIN of its peer, which clears the pause.
  lemma PausedFinWait2Step(modulus: nat, c: Conn, a: Action)
    requires c.st == FinWait2 && c.stopped && c.len == 0 && LeavesPaused(a)
    ensures var d := Act(modulus, c, a);
            if HearsFin(c, a) then
              && d.st == TimeWait && d.timer == 0 && d.len == 0
              && d.stopped == a.app(NO_EVENT.(closed := true, mss := c.mss, data := a.s.data)).stop
            else d == c.(rcvNxt := d.rcvNxt)
  {
    if a.Arrival? {
      assert !AcksOutstanding(modulus, c, a.s) && AckProcessed(modulus, c, a.s) == c;
    }
  }

  predicate HearsNoFin(modulus: nat, c: Conn, actions: seq<Action>)
    decreases |actions|
  {
    actions == []
    || (!HearsFin(c, actions[0]) && HearsNoFin(modulus, Act(modulus, c, actions[0]), actions[1..]))
  }

  predicate PausedInFinWait2Throughout(modulus: nat, c: Conn, actions: seq<Action>)
    decreases |actions|
  {
    && c.st == FinWait2 && c.stopped
    && (actions == [] || PausedInFinWait2Throughout(modulus, Act(modulus, c, actions[0]), actions[1..]))
  }

  /// Over all actions it stays, paused, exactly as long as no FIN comes in order.
  lemma {:induction false} PausedFinWait2StaysIff(modulus: nat, c: Conn, actions: seq<Action>)
    requires c.st == FinWait2 && c.stopped && c.len == 0
    requires forall a :: a in actions ==> LeavesPaused(a)
    ensures PausedInFinWait2Throughout(modulus, c, actions) <==> HearsNoFin(modulus, c, actions)
    decreases |actions|
  {
    if actions != [] {
      PausedFinWait2Step(modulus, c, actions[0]);
      if !HearsFin(c, actions[0]) {
        PausedFinWait2StaysIff(modulus, Act(modulus, c, actions[0]), actions[1..]);
      }
    }
  }

  /// After that FIN it ends with the 120th pulse, unless the application pauses again.
  lemma FinEndsPausedFinWait2(modulus: nat, c: Conn, a: Action, apps: seq<App>)
    requires LenInv(c) && c.st == FinWait2 && c.stopped && LeavesPaused(a) && HearsFin(c, a)
    requires |apps| == UIP_TIME_WAIT_TIMEOUT
    ensures Pulses(Act(modulus, c, a), apps).Is(Closed) <==>
            !a.app(NO_EVENT.(closed := true, mss := c.mss, data := a.s.data)).stop
  {
    PausedFinWait2Step(modulus, c, a);
    ActKeepsLenInv(modulus, c, a);
    LingerEndsIffNotPaused(Act(modulus, c, a), apps);
  }

  // ---------------------------------------------------- round-trip estimator

  predicate EstimatorOk(c: Conn) {
    c.sa <= 255 && c.sv <= 127
  }

  /// The estimator in plain integers.
  function SmoothedNext(sa: nat, m: int): int {
    sa + m - Eighth(sa)
  }

  function DeviationNext(sa: nat, sv: nat, m: int): int {
    var err := m - Eighth(sa);
    sv + (if err < 0 then -err else err) - Quarter(sv)
  }

  predicate Fits(sa: nat, sv: nat, m: int) {
    && 0 <= SmoothedNext(sa, m) <= 255
    && 0 <= DeviationNext(sa, sv, m) <= 127
  }

  /// Conversions of values less than one wrap-around away.
  lemma S8Near(x: int)
    requires -384 <= x < 384
    ensures S8(x) == if x < -128 then x + 256 else if x >= 128 then x - 256 else x
  {
  }

  lemma U8Near(x: int)
    requires -256 <= x < 512
    ensures U8(x) == if x < 0 then x + 256 else if x >= 256 then x - 256 else x
  {
  }

  /// What the `signed char` holds instead of the deviation `m - q` from the average.
  lemma CorrectionWraps(m: int, q: nat)
    requires -255 <= m <= 255 && q <= 31
    ensures Correction(S8(m), q) ==
            if m - q < -128 then m - q + 256 else if m - q >= 128 then m - q - 256 else m - q
  {
    S8Near(m);
    S8Near(S8(m) - q);
  }

  /// The average is exact as long as the result fits: the wrapped steps cancel.
  lemma AverageIsExactIff(sa: nat, sv: nat, m: int)
    requires sa <= 255 && -255 <= m <= 255
    ensures NextEstimate(sa, sv, S8(m)).sa == SmoothedNext(sa, m) <==> 0 <= SmoothedNext(sa, m) <= 255
  {
    CorrectionWraps(m, Eighth(sa));
    U8Near(sa + Correction(S8(m), Eighth(sa)));
  }

  /// The deviation also needs its absolute value right.
  lemma DeviationIsExactIff(sa: nat, sv: nat, m: int)
    requires sa <= 255 && sv <= 255 && -255 <= m <= 255
    ensures NextEstimate(sa, sv, S8(m)).sv == DeviationNext(sa, sv, m) <==>
            -128 <= m - Eighth(sa) <= 128 && DeviationNext(sa, sv, m) <= 255
  {
    var err := Correction(S8(m), Eighth(sa));
    CorrectionWraps(m, Eighth(sa));
    AbsoluteStep(err, sv);
  }

  lemma AbsoluteStep(err: int, sv: nat)
    requires -128 <= err < 128 && sv <= 255
    ensures var x := sv + (if err < 0 then -err else err) - Quarter(sv);
            U8(sv + Correction(Abs8(err), Quarter(sv))) == if x > 255 then x - 256 else x
  {
    S8Near(-err);
    S8Near(Abs8(err) - Quarter(sv));
    U8Near(sv + Correction(Abs8(err), Quarter(sv)));
  }

  /// How far above or below its average a measurement may lie in estimator state `sa`, `sv`.
  /// The last clause is for the timeout computed from the two.
  predicate WithinBounds(sa: nat, sv: nat, m: int) {
    var err := m - Eighth(sa);
    var reach := Min(128, 255 - sv + Quarter(sv));
    && -Min(sa, reach) <= err <= Min(255 - sa, reach)
    && Eighth(SmoothedNext(sa, m)) + DeviationNext(sa, sv, m) <= 255
  }

  /// In each state the eight-bit update of average, deviation and timeout is the integer update
  /// exactly for these measurements.
  lemma UpdateIsExactIff(sa: nat, sv: nat, m: int)
    requires sa <= 255 && sv <= 255 && -255 <= m <= 255
    ensures var e := NextEstimate(sa, sv, S8(m));
            (&& e.sa == SmoothedNext(sa, m) && e.sv == DeviationNext(sa, sv, m)
             && e.rto == Eighth(e.sa) + e.sv)
            <==> WithinBounds(sa, sv, m)
  {
    AverageIsExactIff(sa, sv, m);
    DeviationIsExactIff(sa, sv, m);
    BoundsMeaning(sa, sv, m);
    var e := NextEstimate(sa, sv, S8(m));
    U8Near(Eighth(e.sa) + e.sv);
  }

  /// Without the last clause average and deviation may fit while the timeout wraps, here to 6
  /// where 262 is meant.
  lemma TimeoutMayWrapAlone()
    ensures var e := NextEstimate(200, 255, S8(65));
            && e.sa == SmoothedNext(200, 65) && e.sv == DeviationNext(200, 255, 65)
            && Eighth(e.sa) + e.sv == 262 && e.rto == 6
  {
    var e := NextEstimate(200, 255, S8(65));
    AverageIsExactIff(200, 255, 65);
    DeviationIsExactIff(200, 255, 65);
    assert e.sa == 240 && e.sv == 232;
    EighthOf240();
    U8Near(262);
  }

  lemma EighthOf240()
    ensures Eighth(240) == 30
  {
  }

  lemma BoundsMeaning(sa: nat, sv: nat, m: int)
    requires sa <= 255 && sv <= 255
    ensures WithinBounds(sa, sv, m) <==>
            && 0 <= SmoothedNext(sa, m) <= 255
            && -128 <= m - Eighth(sa) <= 128 && DeviationNext(sa, sv, m) <= 255
            && Eighth(SmoothedNext(sa, m)) + DeviationNext(sa, sv, m) <= 255
  {
  }

  /// With measurements of 0 to 31 pulses no `u8_t` or `signed char` of the estimator ever
  /// wraps: the eight-bit update is the integer update, and it stays in range.
  lemma EstimatorStaysInRange(c: Conn)
    requires EstimatorOk(c) && 0 <= c.rto - c.timer <= 31
    ensures var m := c.rto - c.timer;
            var d := RttUpdate(c);
            && EstimatorOk(d)
            && d.sa == SmoothedNext(c.sa, m) && d.sv == DeviationNext(c.sa, c.sv, m)
            && d.rto == Eighth(d.sa) + d.sv <= 158
  {
    var m := c.rto - c.timer;
    UpdateIsExactIff(c.sa, c.sv, m);
    TimelyFits(c.sa, c.sv, m);
  }

  lemma TimelyFits(sa: nat, sv: nat, m: int)
    requires sa <= 255 && sv <= 127 && 0 <= m <= 31
    ensures Fits(sa, sv, m) && WithinBounds(sa, sv, m)
  {
  }

  /// Where this step updates the estimator, the measurement is one of 0 to 31 pulses.
  predicate Timely(modulus: nat, c: Conn, a: Action) {
    a.Arrival? && AcksOutstanding(modulus, c, a.s) && c.nrtx == 0 ==> 0 <= c.rto - c.timer <= 31
  }

  predicate TimelyRun(modulus: nat, c: Conn, actions: seq<Action>)
    decreases |actions|
  {
    actions == [] || (Timely(modulus, c, actions[0])
                      && TimelyRun(modulus, Act(modulus, c, actions[0]), actions[1..]))
  }

  predicate SameEstimator(c: Conn, d: Conn) {
    d.sa == c.sa && d.sv == c.sv
  }

  lemma EstablishedLeavesEstimator(modulus: nat, c: Conn, s: Segment, acked: bool, app: App)
    ensures SameEstimator(c, InputEstablished(modulus, c, s, acked, app).conn)
  {
  }

  lemma SynLeavesEstimator(modulus: nat, c: Conn, s: Segment, acked: bool, app: App)
    ensures SameEstimator(c, InputSynRcvd(modulus, c, s, acked, app).conn)
    ensures SameEstimator(c, InputSynSent(modulus, c, s, acked, app).conn)
  {
  }

  lemma FinLeavesEstimator(modulus: nat, c: Conn, s: Segment, acked: bool, app: App)
    ensures SameEstimator(c, InputFinWait1(modulus, c, s, acked, app).conn)
    ensures SameEstimator(c, InputFinWait2(modulus, c, s, app).conn)
  {
  }

  lemma ByStateLeavesEstimator(modulus: nat, c: Conn, s: Segment, acked: bool, app: App)
    ensures SameEstimator(c, ByState(modulus, c, s, acked, app).conn)
  {
    if c.st == Established {
      EstablishedLeavesEstimator(modulus, c, s, acked, app);
    } else if c.st == SynRcvd || c.st == SynSent {
      SynLeavesEstimator(modulus, c, s, acked, app);
    } else if c.st == FinWait1 || c.st == FinWait2 {
      FinLeavesEstimator(modulus, c, s, acked, app);
    }
  }

  lemma ActKeepsEstimator(modulus: nat, c: Conn, a: Action)
    requires EstimatorOk(c) && Timely(modulus, c, a)
    ensures EstimatorOk(Act(modulus, c, a))
  {
    if a.Arrival? && c.Live() {
      var acked := AcksOutstanding(modulus, c, a.s);
      if acked && c.nrtx == 0 {
        EstimatorStaysInRange(c);
      }
      var d := AckProcessed(modulus, c, a.s);
      assert EstimatorOk(d);
      ByStateLeavesEstimator(modulus, d, a.s, acked, a.app);
    }
  }

  /// Over whole runs of a connection, with every other step arbitrary.
  lemma {:induction false} TimelyRunsKeepEstimator(modulus: nat, c: Conn, actions: seq<Action>)
    requires EstimatorOk(c) && TimelyRun(modulus, c, actions)
    ensures EstimatorOk(Run(modulus, c, actions))
    decreases |actions|
  {
    if actions != [] {
      ActKeepsEstimator(modulus, c, actions[0]);
      TimelyRunsKeepEstimator(modulus, Act(modulus, c, actions[0]), actions[1..]);
    }
  }

  /// 0 to 31 is exactly the range of measurements that is safe in every estimator state.
  lemma SafeMeasurementsAreExactly0To31(m: int)
    ensures (forall sa: nat, sv: nat :: sa <= 255 && sv <= 127 ==> Fits(sa, sv, m)) <==> 0 <= m <= 31
  {
    if 0 <= m <= 31 {
      forall sa: nat, sv: nat | sa <= 255 && sv <= 127
        ensures Fits(sa, sv, m)
      {
        TimelyFits(sa, sv, m);
      }
    } else {
      assert !Fits(if m < 0 then 0 else 255, 0, m);
    }
  }

  /// The slots some run of the 32-bit machine can leave behind.
  ghost predicate Reachable(c: Conn) {
    exists actions :: Run(SEQ_MODULUS, EMPTY_SLOT, actions) == c
  }

  lemma {:induction false} RunAppend(c: Conn, actions: seq<Action>, a: Action)
    ensures Run(SEQ_MODULUS, c, actions + [a]) == Act(SEQ_MODULUS, Run(SEQ_MODULUS, c, actions), a)
    decreases |actions|
  {
    if actions == [] {
      assert Run(SEQ_MODULUS, c, [a]) == Run(SEQ_MODULUS, Act(SEQ_MODULUS, c, a), []);
    } else {
      assert (actions + [a])[1..] == actions[1..] + [a];
      RunAppend(Act(SEQ_MODULUS, c, actions[0]), actions[1..], a);
    }
  }

  lemma ReachableStep(c: Conn, a: Action)
    requires Reachable(c)
    ensures Reachable(Act(SEQ_MODULUS, c, a))
  {
    var actions :| Run(SEQ_MODULUS, EMPTY_SLOT, actions) == c;
    RunAppend(EMPTY_SLOT, actions, a);
  }

  /// A connection just accepted and opened, with an MSS of 500.
  const JUST_OPENED := Conn(80, 5000, 1, 101, 1001, 0, 500, 500, 0, 3, 3, Established, false, 3, 0)

  lemma OpenedIsReachable(silent: App)
    requires forall e :: silent(e) == AppReply([], Carry, false, false)
    ensures Reachable(JUST_OPENED)
  {
    assert Run(SEQ_MODULUS, EMPTY_SLOT, []) == EMPTY_SLOT;
    var c := Conn(80, 5000, 1, 101, 1000, 1, 500, 500, 0, 4, 3, SynRcvd, false, 3, 0);
    ReachableStep(EMPTY_SLOT, Accept(80, 5000, 1, Segment(SYN, 100, 0, 1000, Some(500), []), 1000));
    assert Reachable(c);
    var open := Segment(ACK, 101, 1001, 1000, None, []);
    Opens(c, open, silent);
    ReachableStep(c, Arrival(open, silent));
  }

  /// A byte sent and retransmitted twice.
  lemma BackedOffIsReachable(silent: App)
    requires forall e :: silent(e) == AppReply([], Carry, false, false)
    ensures Reachable(JUST_OPENED.(len := 1, timer := 6, nrtx := 2))
  {
    OpenedIsReachable(silent);
    Talks(JUST_OPENED);
    var c := JUST_OPENED.(len := 1);
    FourPulses(c, silent);
    FourPulses(c.(nrtx := 1), silent);
  }

  /// The code itself does not keep measurements in that range. Here two retransmissions push
  /// the timer above the estimate, a data segment clears the retransmission count, and the
  /// next acknowledgement measures a negative time and wraps the average.
  lemma NegativeMeasurementIsReachable() returns (c: Conn, ack: Segment)
    ensures Reachable(c) && AcksOutstanding(SEQ_MODULUS, c, ack) && c.nrtx == 0
    ensures var m := c.rto - c.timer;
            m < 0 && !WithinBounds(c.sa, c.sv, m) && SmoothedNext(c.sa, m) == -3
    ensures AckProcessed(SEQ_MODULUS, c, ack).sa == 253
  {
    var silent: App := e => AppReply([], Carry, false, false);
    BackedOffIsReachable(silent);
    c := JUST_OPENED.(len := 1, timer := 6, nrtx := 2);
    var data := Segment(ACK_PSH, 101, 1001, 1000, None, [9]);
    Hears(c, data, silent);
    ReachableStep(c, Arrival(data, silent));
    c := c.(nrtx := 0, rcvNxt := 102);
    ack := Segment(ACK, 102, 1002, 1000, None, []);
    Measures(c, ack);
  }

  lemma Talks(c: Conn)
    requires Reachable(c) && c.st == Established && c.len == c.nrtx == 0 && c.mss == 500 && !c.stopped
    ensures Reachable(c.(len := 1))
  {
    var talks: App := e => AppReply([7], Carry, false, false);
    var e := NO_EVENT.(poll := true, mss := c.mss);
    assert AppSend(c, e, talks(e)).conn == c.(len := 1);
    ReachableStep(c, PollRequest(talks));
  }

  lemma FourPulses(c: Conn, app: App)
    requires Reachable(c) && c.st == Established && c.timer == 3 && c.len == 1 && c.nrtx < 8
    requires forall e :: app(e) == AppReply([], Carry, false, false)
    ensures Reachable(c.(timer := Backoff(c.nrtx), nrtx := c.nrtx + 1))
  {
    ReachableStep(c, Pulse(app));
    ReachableStep(c.(timer := 2), Pulse(app));
    ReachableStep(c.(timer := 1), Pulse(app));
    var due := c.(timer := 0);
    ReachableStep(due, Pulse(app));
    assert Timer(due, app) == Retransmit(c.(timer := Backoff(c.nrtx), nrtx := c.nrtx + 1), app);
  }

  lemma Opens(c: Conn, s: Segment, app: App)
    requires c == Conn(80, 5000, 1, 101, 1000, 1, 500, 500, 0, 4, 3, SynRcvd, false, 3, 0)
    requires s == Segment(ACK, 101, 1001, 1000, None, [])
    requires forall e :: app(e) == AppReply([], Carry, false, false)
    ensures Act(SEQ_MODULUS, c, Arrival(s, app)) ==
            c.(sndNxt := 1001, len := 0, sv := 3, st := Established)
  {
    OpensAcked(c, s);
    var d := c.(sndNxt := 1001, len := 0, sv := 3);
    var r := ByState(SEQ_MODULUS, d, s, true, app);
    assert Input(SEQ_MODULUS, c, s, app) == r;
    assert r == InputSynRcvd(SEQ_MODULUS, d, s, true, app);
    assert r.conn == d.(st := Established);
  }

  lemma OpensAcked(c: Conn, s: Segment)
    requires c == Conn(80, 5000, 1, 101, 1000, 1, 500, 500, 0, 4, 3, SynRcvd, false, 3, 0)
    requires s == Segment(ACK, 101, 1001, 1000, None, [])
    ensures AcksOutstanding(SEQ_MODULUS, c, s)
    ensures AckProcessed(SEQ_MODULUS, c, s) == c.(sndNxt := 1001, len := 0, sv := 3)
  {
    assert Quarter(4) == 1;
    assert NextEstimate(0, 4, 0) == Estimate(0, 3, 3);
    assert RttUpdate(c) == c.(sv := 3);
  }

  lemma Hears(c: Conn, s: Segment, app: App)
    requires c == Conn(80, 5000, 1, 101, 1001, 1, 500, 500, 0, 3, 3, Established, false, 6, 2)
    requires s == Segment(ACK_PSH, 101, 1001, 1000, None, [9])
    requires forall e :: app(e) == AppReply([], Carry, false, false)
    ensures Act(SEQ_MODULUS, c, Arrival(s, app)) == c.(nrtx := 0, rcvNxt := 102)
  {
  }

  lemma Measures(c: Conn, s: Segment)
    requires c == Conn(80, 5000, 1, 102, 1001, 1, 500, 500, 0, 3, 3, Established, false, 6, 0)
    requires s == Segment(ACK, 102, 1002, 1000, None, [])
    ensures AcksOutstanding(SEQ_MODULUS, c, s) && AckProcessed(SEQ_MODULUS, c, s).sa == 253
  {
    assert NextEstimate(0, 3, -3).sa == 253;
  }
}
