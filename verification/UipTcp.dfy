/// The TCP half of `uip_process`: what one received segment, one timer pulse or one poll
/// request does to one connection record, which segment is sent in answer and what the
/// application is told.
///
/// Sequence arithmetic takes the modulus as a parameter: `SEQ_MODULUS` is the 32-bit
/// machine, 0 stands for unbounded sequence numbers (see module TcpWraparound).

module UipTcp {
  import opened Basics

  const UIP_RTO: nat := 3
  const UIP_MAXRTX: nat := 8
  const UIP_MAXSYNRTX: nat := 5
  const UIP_TIME_WAIT_TIMEOUT: nat := 120
  const UIP_TCP_MSS: nat := 1472
  const UIP_RECEIVE_WINDOW: nat := 1472
  const SEQ_MODULUS: nat := TWO32

  datatype TcpState =
    | Closed | SynRcvd | SynSent | Established | FinWait1
    | FinWait2 | Closing | TimeWait | LastAck

  /// `struct uip_conn`. The byte `tcpstateflags` is the pair of `st` (its low four bits)
  /// and `stopped` (the UIP_STOPPED bit).
  datatype Conn = Conn(
    lport: nat, rport: nat, ripaddr: nat,
    rcvNxt: int, sndNxt: int, len: nat, mss: nat, initialMss: nat,
    sa: nat, sv: nat, rto: nat,
    st: TcpState, stopped: bool, timer: nat, nrtx: nat)
  {
    /// `tcpstateflags == s`: the comparison sees the stop bit.
    predicate Is(s: TcpState) {
      st == s && !stopped
    }

    /// The test every table scan makes for a slot in use.
    predicate Live() {
      !Is(Closed)
    }

    /// Plain assignment `tcpstateflags = s` also clears the stop bit.
    function Enter(s: TcpState): Conn {
      this.(st := s, stopped := false)
    }
  }

  datatype Flags = Flags(fin: bool, syn: bool, rst: bool, psh: bool, ack: bool)

  const SYN := Flags(false, true, false, false, false)
  const SYN_ACK := Flags(false, true, false, false, true)
  const ACK := Flags(false, false, false, false, true)
  const ACK_PSH := Flags(false, false, false, true, true)
  const FIN_ACK := Flags(true, false, false, false, true)
  const RST_ACK := Flags(false, false, true, false, true)

  /// A segment with the urgent flag clear; `mssOption` is the parsed MSS option.
  datatype Segment = Segment(
    flags: Flags, seqno: int, ackno: int, wnd: nat, mssOption: Option<nat>, data: seq<Byte>)

  /// One call of UIP_APPCALL: the bits of `uip_flags`, the current MSS and the bytes at
  /// `uip_appdata`.
  datatype AppEvent = AppEvent(
    acked: bool, newData: bool, rexmit: bool, poll: bool,
    closed: bool, aborted: bool, connected: bool, timedOut: bool,
    mss: nat, data: seq<Byte>)

  const NO_EVENT := AppEvent(false, false, false, false, false, false, false, false, 0, [])

  datatype Request = Carry | Close | Abort

  /// What the application did during the call: bytes given to `uip_send`, `uip_close` or
  /// `uip_abort`, `uip_stop`, and whether it raised UIP_NEWDATA to force an ACK out.
  datatype AppReply = AppReply(send: seq<Byte>, request: Request, stop: bool, announce: bool)

  type App = AppEvent -> AppReply

  datatype StepOut = StepOut(conn: Conn, out: Option<Segment>, event: Option<AppEvent>)

  function Advance(modulus: nat, x: int, n: int): int {
    if modulus == 0 then x + n else Reduce(modulus, x + n)
  }

  function Sends(c: Conn, flags: Flags, data: seq<Byte>): Segment {
    Segment(flags, c.sndNxt, c.rcvNxt, if c.stopped then 0 else UIP_RECEIVE_WINDOW,
            if flags.syn then Some(UIP_TCP_MSS) else None, data)
  }

  function Quiet(c: Conn): StepOut {
    StepOut(c, None, None)
  }

  function Answers(c: Conn, flags: Flags): StepOut {
    StepOut(c, Some(Sends(c, flags, [])), None)
  }

  /// The first `n` bytes at `uip_sappdata` once the application wrote `send` there. Bytes it
  /// did not write are whatever the packet buffer held, here zero.
  function Payload(send: seq<Byte>, n: nat): (p: seq<Byte>)
    ensures |p| == n
    ensures n <= |send| ==> p == send[..n]
  {
    if n <= |send| then send[..n] else send + seq(n - |send|, _ => 0)
  }

  /// `x >> 3` and `x >> 2`.
  function Eighth(x: nat): (q: nat)
    ensures 8 * q <= x < 8 * q + 8
  {
    if x < 8 then 0 else 1 + Eighth(x - 8)
  }

  function Quarter(x: nat): (q: nat)
    ensures 4 * q <= x < 4 * q + 4
  {
    if x < 4 then 0 else 1 + Quarter(x - 4)
  }

  /// One step of Jacobson's estimator towards measurement `m`: what is added to a scaled
  /// average, converted to `signed char`.
  function Correction(m: int, average: nat): int {
    S8(m - average)
  }

  /// `if (m < 0) m = -m` on a `signed char`.
  function Abs8(m: int): int {
    if m < 0 then S8(-m) else m
  }

  datatype Estimate = Estimate(sa: nat, sv: nat, rto: nat)

  function NextEstimate(sa: nat, sv: nat, measured: int): Estimate {
    var m := Correction(measured, Eighth(sa));
    var sa := U8(sa + m);
    var sv := U8(sv + Correction(Abs8(m), Quarter(sv)));
    Estimate(sa, sv, U8(Eighth(sa) + sv))
  }

  function RttUpdate(c: Conn): Conn {
    var e := NextEstimate(c.sa, c.sv, S8(c.rto - c.timer));
    c.(sa := e.sa, sv := e.sv, rto := e.rto)
  }

  predicate AcksOutstanding(modulus: nat, c: Conn, s: Segment) {
    s.flags.ack && c.len != 0 && s.ackno == Advance(modulus, c.sndNxt, c.len)
  }

  function AckProcessed(modulus: nat, c: Conn, s: Segment): Conn {
    if AcksOutstanding(modulus, c, s) then
      var e := if c.nrtx == 0 then RttUpdate(c) else c;
      e.(sndNxt := s.ackno, timer := e.rto, len := 0)
    else
      c
  }

  /// Label `apprexmit`.
  function AppRexmit(c: Conn, send: seq<Byte>, slen: nat, newData: bool): Option<Segment> {
    if slen > 0 && c.len > 0 then Some(Sends(c, ACK_PSH, Payload(send, c.len)))
    else if newData then Some(Sends(c, ACK, []))
    else None
  }

  /// Label `appsend`, after the application answered event `e` with `r`.
  function AppSend(c: Conn, e: AppEvent, r: AppReply): StepOut {
    match r.request
    case Abort =>
      var d := c.Enter(Closed);
      StepOut(d, Some(Sends(d, RST_ACK, [])), Some(e))
    case Close =>
      var d := c.Enter(FinWait1).(len := 1, nrtx := 0);
      StepOut(d, Some(Sends(d, FIN_ACK, [])), Some(e))
    case Carry =>
      var d := c.(nrtx := 0, stopped := c.stopped || r.stop);
      if |r.send| == 0 then
        StepOut(d, AppRexmit(d, r.send, 0, e.newData || r.announce), Some(e))
      else
        var busy := d.len != 0 && !e.acked;
        var slen := if busy then d.len else Min(|r.send|, d.mss);
        var d := d.(len := slen);
        StepOut(d, AppRexmit(d, r.send, slen, e.newData || r.announce), Some(e))
  }

  /// A segment that matched connection `c` (label `found`).
  function Input(modulus: nat, c: Conn, s: Segment, app: App): StepOut {
    if s.flags.rst then
      StepOut(c.Enter(Closed), None, Some(NO_EVENT.(aborted := true, mss := c.mss)))
    else if !(c.st == SynSent && s.flags == SYN_ACK)
            && (|s.data| > 0 || s.flags.syn || s.flags.fin) && s.seqno != c.rcvNxt then
      Answers(c, ACK)
    else
      ByState(modulus, AckProcessed(modulus, c, s), s, AcksOutstanding(modulus, c, s), app)
  }

  /// The switch on the connection state, after acknowledgement processing.
  function ByState(modulus: nat, c: Conn, s: Segment, acked: bool, app: App): StepOut {
    match c.st
    case SynRcvd => InputSynRcvd(modulus, c, s, acked, app)
    case SynSent => InputSynSent(modulus, c, s, acked, app)
    case Established => InputEstablished(modulus, c, s, acked, app)
    case LastAck =>
      if acked then StepOut(c.Enter(Closed), None, Some(NO_EVENT.(closed := true, mss := c.mss)))
      else Quiet(c)
    case FinWait1 => InputFinWait1(modulus, c, s, acked, app)
    case FinWait2 => InputFinWait2(modulus, c, s, app)
    case TimeWait => Answers(c, ACK)
    case Closing => Quiet(if acked then c.Enter(TimeWait).(timer := 0) else c)
    case Closed => Quiet(c)
  }

  function InputSynRcvd(modulus: nat, c: Conn, s: Segment, acked: bool, app: App): StepOut {
    if acked then
      var c := c.Enter(Established).(len := 0, rcvNxt := Advance(modulus, c.rcvNxt, |s.data|));
      var e := NO_EVENT.(connected := true, newData := |s.data| > 0, mss := c.mss, data := s.data);
      AppSend(c, e, app(e))
    else
      Quiet(c)
  }

  /// The RST sent from label `reset`, built from the offending segment.
  function ResetFor(modulus: nat, s: Segment): (r: Option<Segment>)
    ensures s.flags.rst ==> r == None
  {
    if s.flags.rst then None
    else Some(Segment(RST_ACK, s.ackno, Advance(modulus, s.seqno, 1), s.wnd, None, []))
  }

  function InputSynSent(modulus: nat, c: Conn, s: Segment, acked: bool, app: App): StepOut {
    if acked && s.flags == SYN_ACK then
      var mss := if s.mssOption.Some? then Min(s.mssOption.value, UIP_TCP_MSS) else c.mss;
      var initialMss := if s.mssOption.Some? then mss else c.initialMss;
      var c := c.Enter(Established).(len := 0, rcvNxt := Advance(modulus, s.seqno, 1),
                                     mss := mss, initialMss := initialMss);
      var e := NO_EVENT.(connected := true, newData := true, mss := c.mss);
      AppSend(c, e, app(e))
    else
      StepOut(c.Enter(Closed), ResetFor(modulus, s), Some(NO_EVENT.(aborted := true, mss := c.mss)))
  }

  function InputEstablished(modulus: nat, c: Conn, s: Segment, acked: bool, app: App): StepOut {
    if s.flags.fin && !c.stopped then
      if c.len != 0 then
        Quiet(c)
      else
        var e := NO_EVENT.(acked := acked, closed := true, newData := |s.data| > 0,
                           mss := c.mss, data := s.data);
        var c := c.Enter(LastAck).(rcvNxt := Advance(modulus, c.rcvNxt, 1 + |s.data|),
                                   len := 1, nrtx := 0);
        StepOut(c, Some(Sends(c, FIN_ACK, [])), Some(e))
    else
      var newData := |s.data| > 0 && !c.stopped;
      var mss := if s.wnd > c.initialMss || s.wnd == 0 then c.initialMss else s.wnd;
      var c := c.(rcvNxt := if newData then Advance(modulus, c.rcvNxt, |s.data|) else c.rcvNxt,
                  mss := mss);
      if newData || acked then
        var e := NO_EVENT.(acked := acked, newData := newData, mss := c.mss, data := s.data);
        AppSend(c, e, app(e))
      else
        Quiet(c)
  }

  function InputFinWait1(modulus: nat, c: Conn, s: Segment, acked: bool, app: App): StepOut {
    var d := c.(rcvNxt := Advance(modulus, c.rcvNxt, |s.data|));
    if s.flags.fin then
      var d := (if acked then d.Enter(TimeWait).(timer := 0, len := 0) else d.Enter(Closing))
               .(rcvNxt := Advance(modulus, d.rcvNxt, 1));
      CloseSeen(d, s, app)
    else if acked then
      Quiet(d.Enter(FinWait2).(len := 0))
    else if |s.data| > 0 then
      Answers(d, ACK)
    else
      Quiet(d)
  }

  function InputFinWait2(modulus: nat, c: Conn, s: Segment, app: App): StepOut {
    var d := c.(rcvNxt := Advance(modulus, c.rcvNxt, |s.data|));
    if s.flags.fin then
      CloseSeen(d.Enter(TimeWait).(timer := 0, rcvNxt := Advance(modulus, d.rcvNxt, 1)), s, app)
    else if |s.data| > 0 then
      Answers(d, ACK)
    else
      Quiet(d)
  }

  /// The application hears of the peer's FIN, then the FIN is acknowledged.
  function CloseSeen(c: Conn, s: Segment, app: App): StepOut {
    var e := NO_EVENT.(closed := true, mss := c.mss, data := s.data);
    var d := c.(stopped := app(e).stop);
    StepOut(d, Some(Sends(d, ACK, [])), Some(e))
  }

  /// `uip_process(UIP_TIMER)`.
  function Timer(c: Conn, app: App): StepOut {
    if c.Is(TimeWait) || c.Is(FinWait2) then
      var c := c.(timer := U8(c.timer + 1));
      Quiet(if c.timer == UIP_TIME_WAIT_TIMEOUT then c.Enter(Closed) else c)
    else if !c.Live() then
      Quiet(c)
    else if c.len != 0 then
      if c.timer != 0 then Quiet(c.(timer := c.timer - 1))
      else if GivesUp(c) then
        var d := c.Enter(Closed).(timer := 255);
        StepOut(d, Some(Sends(d, RST_ACK, [])), Some(NO_EVENT.(timedOut := true, mss := c.mss)))
      else
        Retransmit(c.(timer := Backoff(c.nrtx), nrtx := c.nrtx + 1), app)
    else if c.st == Established then
      var e := NO_EVENT.(poll := true, mss := c.mss);
      AppSend(c, e, app(e))
    else
      Quiet(c)
  }

  predicate GivesUp(c: Conn) {
    c.nrtx == UIP_MAXRTX || ((c.Is(SynSent) || c.Is(SynRcvd)) && c.nrtx == UIP_MAXSYNRTX)
  }

  /// `UIP_RTO << (nrtx > 4 ? 4 : nrtx)`.
  function Backoff(nrtx: nat): nat {
    UIP_RTO * (if nrtx == 0 then 1 else if nrtx == 1 then 2 else if nrtx == 2 then 4
               else if nrtx == 3 then 8 else 16)
  }

  function Retransmit(c: Conn, app: App): StepOut {
    match c.st
    case SynRcvd => Answers(c, SYN_ACK)
    case SynSent => Answers(c, SYN)
    case Established =>
      var e := NO_EVENT.(rexmit := true, mss := c.mss);
      var r := app(e);
      var d := c.(stopped := c.stopped || r.stop);
      StepOut(d, AppRexmit(d, r.send, |r.send|, r.announce && r.request == Carry), Some(e))
    case FinWait1 => Answers(c, FIN_ACK)
    case Closing => Answers(c, FIN_ACK)
    case LastAck => Answers(c, FIN_ACK)
    case _ => Quiet(c)
  }

  /// `uip_process(UIP_POLL_REQUEST)`.
  function Poll(c: Conn, app: App): StepOut {
    if c.st == Established && c.len == 0 then
      var e := NO_EVENT.(poll := true, mss := c.mss);
      AppSend(c, e, app(e))
    else
      Quiet(c)
  }

  /// Filling a slot for a SYN on a listening port (label `found_listen`). Without an MSS
  /// option the two MSS fields keep what the slot held before.
  function Accepted(modulus: nat, slot: Conn, lport: nat, rport: nat, ripaddr: nat, s: Segment, iss: int): Conn {
    var mss := if s.mssOption.Some? then Min(s.mssOption.value, UIP_TCP_MSS) else slot.mss;
    var initialMss := if s.mssOption.Some? then mss else slot.initialMss;
    slot.(lport := lport, rport := rport, ripaddr := ripaddr,
          st := SynRcvd, stopped := false, sndNxt := iss, len := 1,
          rcvNxt := Advance(modulus, s.seqno, 1), mss := mss, initialMss := initialMss,
          rto := UIP_RTO, timer := UIP_RTO, sa := 0, sv := 4, nrtx := 0)
  }

  /// Filling a slot in `uip_connect`; `rcv_nxt` keeps its old contents.
  function Connecting(slot: Conn, lport: nat, rport: nat, ripaddr: nat, iss: int): Conn {
    slot.(lport := lport, rport := rport, ripaddr := ripaddr,
          st := SynSent, stopped := false, sndNxt := iss, len := 1,
          mss := UIP_TCP_MSS, initialMss := UIP_TCP_MSS,
          rto := UIP_RTO, timer := 1, sa := 0, sv := 16, nrtx := 0)
  }
}
