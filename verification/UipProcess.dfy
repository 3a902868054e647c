/// `uip_process` as the code performs it: one mutable connection record, updated field by
/// field on the way to the label that sends the answer. Every entry point is proved to do
/// what the step functions of module UipTcp say, on 32-bit sequence numbers.

module UipProcess {
  import opened Basics
  import opened UipTcp
  import TcpLifecycle

  class UipConn {
    var lport: nat
    var rport: nat
    var ripaddr: nat
    var rcvNxt: int
    var sndNxt: int
    var len: nat
    var mss: nat
    var initialMss: nat
    var sa: nat
    var sv: nat
    var rto: nat
    var st: TcpState
    var stopped: bool
    var timer: nat
    var nrtx: nat

    ghost function Value(): Conn
      reads this
    {
      Conn(lport, rport, ripaddr, rcvNxt, sndNxt, len, mss, initialMss,
           sa, sv, rto, st, stopped, timer, nrtx)
    }

    /// What every entry point keeps: the outstanding length is one its TCP state allows.
    ghost predicate Valid()
      reads this
    {
      TcpLifecycle.LenInv(Value())
    }

    constructor (c: Conn)
      ensures Value() == c
    {
      lport, rport, ripaddr := c.lport, c.rport, c.ripaddr;
      rcvNxt, sndNxt, len := c.rcvNxt, c.sndNxt, c.len;
      mss, initialMss := c.mss, c.initialMss;
      sa, sv, rto := c.sa, c.sv, c.rto;
      st, stopped, timer, nrtx := c.st, c.stopped, c.timer, c.nrtx;
    }

    /// `uip_add_rcv_nxt`
    method AddRcvNxt(n: nat)
      modifies this`rcvNxt
      ensures rcvNxt == Advance(SEQ_MODULUS, old(rcvNxt), n)
    {
      rcvNxt := Reduce(SEQ_MODULUS, rcvNxt + n);
    }

    method EnterTimeWait()
      modifies this`st, this`stopped, this`timer
      ensures st == TimeWait && !stopped && timer == 0
    {
      SetState(TimeWait);
      timer := 0;
    }

    /// A FIN in FIN-WAIT-1: to TIME-WAIT if our own is acknowledged, else to CLOSING.
    method EnterClosing(acked: bool)
      modifies this`st, this`stopped, this`timer, this`len
      ensures st == (if acked then TimeWait else Closing) && !stopped
      ensures timer == (if acked then 0 else old(timer)) && len == (if acked then 0 else old(len))
    {
      if acked {
        EnterTimeWait();
        len := 0;
      } else {
        SetState(Closing);
      }
    }

    /// A SYN with this sequence number is taken in.
    method Expect(seqno: int)
      modifies this`rcvNxt
      ensures rcvNxt == Advance(SEQ_MODULUS, seqno, 1)
    {
      rcvNxt := seqno;
      AddRcvNxt(1);
    }

    method TakeMss(option: Option<nat>)
      modifies this`mss, this`initialMss
      ensures if option.None? then mss == old(mss) && initialMss == old(initialMss)
              else mss == initialMss == Min(option.value, UIP_TCP_MSS)
    {
      if option.Some? {
        mss := Min(option.value, UIP_TCP_MSS);
        initialMss := mss;
      }
    }

    method StartTimer(pulses: nat, variance: nat)
      modifies this`rto, this`timer, this`sa, this`sv, this`nrtx
      ensures rto == UIP_RTO && timer == pulses && sa == 0 && sv == variance && nrtx == 0
    {
      rto, timer := UIP_RTO, pulses;
      sa, sv, nrtx := 0, variance, 0;
    }

    method SetEndpoints(lport: nat, rport: nat, ripaddr: nat)
      modifies this`lport, this`rport, this`ripaddr
      ensures this.lport == lport && this.rport == rport && this.ripaddr == ripaddr
    {
      this.lport, this.rport, this.ripaddr := lport, rport, ripaddr;
    }

    /// What both ways of opening a connection write into the slot.
    method FillSlot(lport: nat, rport: nat, ripaddr: nat, s: TcpState, iss: int, pulses: nat, variance: nat)
      modifies this
      ensures Value() == old(Value()).(
                lport := lport, rport := rport, ripaddr := ripaddr,
                st := s, stopped := false, sndNxt := iss, len := 1,
                rto := UIP_RTO, timer := pulses, sa := 0, sv := variance, nrtx := 0)
    {
      StartTimer(pulses, variance);
      SetEndpoints(lport, rport, ripaddr);
      SetState(s);
      sndNxt := iss;
      len := 1;
    }

    /// Assignment to `tcpstateflags`.
    method SetState(s: TcpState)
      modifies this`st, this`stopped
      ensures st == s && !stopped
    {
      st, stopped := s, false;
    }

    method TcpSend(flags: Flags, data: seq<Byte>) returns (out: Option<Segment>)
      ensures out == Some(Sends(Value(), flags, data))
    {
      var wnd := UIP_RECEIVE_WINDOW;
      if stopped {
        wnd := 0;
      }
      out := Some(Segment(flags, sndNxt, rcvNxt, wnd,
                          if flags.syn then Some(UIP_TCP_MSS) else None, data));
    }

    method RttEstimate()
      modifies this`sa, this`sv, this`rto
      ensures Estimate(sa, sv, rto) == NextEstimate(old(sa), old(sv), S8(old(rto) - timer))
    {
      var m := S8(rto - timer);
      m := Correction(m, Eighth(sa));
      sa := U8(sa + m);
      m := Abs8(m);
      m := Correction(m, Quarter(sv));
      sv := U8(sv + m);
      rto := U8(Eighth(sa) + sv);
    }

    /// Lines 1513-1566: does the segment acknowledge all that is outstanding?
    method AcceptAck(s: Segment) returns (acked: bool)
      modifies this
      ensures acked == AcksOutstanding(SEQ_MODULUS, old(Value()), s)
      ensures Value() == AckProcessed(SEQ_MODULUS, old(Value()), s)
    {
      acked := false;
      if s.flags.ack && len != 0 {
        var expected := Advance(SEQ_MODULUS, sndNxt, len);
        if s.ackno == expected {
          sndNxt := expected;
          if nrtx == 0 {
            RttEstimate();
          }
          acked := true;
          timer := rto;
          len := 0;
        }
      }
    }

    /// From label `appsend` on, with the reply of the application already in hand.
    method Respond(e: AppEvent, r: AppReply) returns (out: Option<Segment>)
      modifies this
      ensures StepOut(Value(), out, Some(e)) == AppSend(old(Value()), e, r)
    {
      if r.request == Abort {
        SetState(Closed);
        out := TcpSend(RST_ACK, []);
        return;
      }
      if r.request == Close {
        len := 1;
        SetState(FinWait1);
        nrtx := 0;
        out := TcpSend(FIN_ACK, []);
        return;
      }
      if r.stop {
        stopped := true;
      }
      nrtx := 0;
      var slen := |r.send|;
      if slen > 0 {
        if e.acked {
          len := 0;
        }
        if len == 0 {
          if slen > mss {
            slen := mss;
          }
          len := slen;
        } else {
          slen := len;
        }
      }
      out := SendPrepared(r.send, slen, e.newData || r.announce);
    }

    /// Label `apprexmit`.
    method SendPrepared(send: seq<Byte>, slen: nat, newData: bool) returns (out: Option<Segment>)
      ensures out == AppRexmit(Value(), send, slen, newData)
    {
      if slen > 0 && len > 0 {
        out := TcpSend(ACK_PSH, Payload(send, len));
      } else if newData {
        out := TcpSend(ACK, []);
      } else {
        out := None;
      }
    }

    /// `uip_process(UIP_DATA)` from label `found` on.
    method Receive(s: Segment, app: App) returns (out: Option<Segment>, event: Option<AppEvent>)
      modifies this
      ensures StepOut(Value(), out, event) == Input(SEQ_MODULUS, old(Value()), s, app)
      ensures old(Valid()) ==> Valid()
    {
      if Valid() {
        TcpLifecycle.InputKeepsLenInv(SEQ_MODULUS, Value(), s, app);
      }
      out, event := None, None;
      if s.flags.rst {
        event := Some(NO_EVENT.(aborted := true, mss := mss));
        SetState(Closed);
        return;
      }
      if !(st == SynSent && s.flags == SYN_ACK) {
        if (|s.data| > 0 || s.flags.syn || s.flags.fin) && s.seqno != rcvNxt {
          out := TcpSend(ACK, []);
          return;
        }
      }
      var acked := AcceptAck(s);
      out, event := Switch(s, acked, app);
    }

    method Switch(s: Segment, acked: bool, app: App)
      returns (out: Option<Segment>, event: Option<AppEvent>)
      modifies this
      ensures StepOut(Value(), out, event) == ByState(SEQ_MODULUS, old(Value()), s, acked, app)
    {
      out, event := None, None;
      match st {
        case SynRcvd =>
          out, event := ReceiveSynRcvd(s, acked, app);
        case SynSent =>
          out, event := ReceiveSynSent(s, acked, app);
        case Established =>
          out, event := ReceiveEstablished(s, acked, app);
        case LastAck =>
          if acked {
            SetState(Closed);
            event := Some(NO_EVENT.(closed := true, mss := mss));
          }
        case FinWait1 =>
          out, event := ReceiveFinWait1(s, acked, app);
        case FinWait2 =>
          out, event := ReceiveFinWait2(s, app);
        case TimeWait =>
          out := TcpSend(ACK, []);
        case Closing =>
          if acked {
            EnterTimeWait();
          }
        case Closed =>
      }
    }

    method ReceiveSynRcvd(s: Segment, acked: bool, app: App)
      returns (out: Option<Segment>, event: Option<AppEvent>)
      modifies this
      ensures StepOut(Value(), out, event) == InputSynRcvd(SEQ_MODULUS, old(Value()), s, acked, app)
    {
      out, event := None, None;
      if acked {
        SetState(Established);
        len := 0;
        AddRcvNxt(|s.data|);
        out, event := CallAndRespond(
          NO_EVENT.(connected := true, newData := |s.data| > 0, mss := mss, data := s.data), app);
      }
    }

    method ReceiveSynSent(s: Segment, acked: bool, app: App)
      returns (out: Option<Segment>, event: Option<AppEvent>)
      modifies this
      ensures StepOut(Value(), out, event) == InputSynSent(SEQ_MODULUS, old(Value()), s, acked, app)
    {
      ghost var c := Value();
      if acked && s.flags == SYN_ACK {
        TakeMss(s.mssOption);
        SetState(Established);
        Expect(s.seqno);
        len := 0;
        assert Value() == c.Enter(Established).(
                            len := 0, rcvNxt := Advance(SEQ_MODULUS, s.seqno, 1), mss := mss, initialMss := initialMss);
        out, event := CallAndRespond(NO_EVENT.(connected := true, newData := true, mss := mss), app);
      } else {
        event := Some(NO_EVENT.(aborted := true, mss := mss));
        SetState(Closed);
        out := ResetFor(SEQ_MODULUS, s);
      }
    }

    method ReceiveFinWait2(s: Segment, app: App)
      returns (out: Option<Segment>, event: Option<AppEvent>)
      modifies this
      ensures StepOut(Value(), out, event) == InputFinWait2(SEQ_MODULUS, old(Value()), s, app)
    {
      out, event := None, None;
      AddRcvNxt(|s.data|);
      if s.flags.fin {
        EnterTimeWait();
        AddRcvNxt(1);
        out, event := PeerClosed(s, app);
      } else if |s.data| > 0 {
        out := TcpSend(ACK, []);
      }
    }

    method CallAndRespond(e: AppEvent, app: App) returns (out: Option<Segment>, event: Option<AppEvent>)
      modifies this
      ensures StepOut(Value(), out, event) == AppSend(old(Value()), e, app(e))
    {
      event := Some(e);
      out := Respond(e, app(e));
    }

    method PeerClosed(s: Segment, app: App) returns (out: Option<Segment>, event: Option<AppEvent>)
      requires !stopped
      modifies this`stopped
      ensures StepOut(Value(), out, event) == CloseSeen(old(Value()), s, app)
    {
      var e := NO_EVENT.(closed := true, mss := mss, data := s.data);
      event := Some(e);
      if app(e).stop {
        stopped := true;
      }
      out := TcpSend(ACK, []);
    }

    method ReceiveEstablished(s: Segment, acked: bool, app: App)
      returns (out: Option<Segment>, event: Option<AppEvent>)
      modifies this
      ensures StepOut(Value(), out, event) == InputEstablished(SEQ_MODULUS, old(Value()), s, acked, app)
    {
      out, event := None, None;
      if s.flags.fin && !stopped {
        if len == 0 {
          out, event := ReceiveFin(s, acked, app);
        }
        return;
      }
      var newData := false;
      if |s.data| > 0 && !stopped {
        newData := true;
        AddRcvNxt(|s.data|);
      }
      var window := s.wnd;
      if window > initialMss || window == 0 {
        window := initialMss;
      }
      mss := window;
      if newData || acked {
        out, event := CallAndRespond(
          NO_EVENT.(acked := acked, newData := newData, mss := mss, data := s.data), app);
      }
    }

    method ReceiveFin(s: Segment, acked: bool, ghost app: App)
      returns (out: Option<Segment>, event: Option<AppEvent>)
      requires s.flags.fin && !stopped && len == 0
      modifies this
      ensures StepOut(Value(), out, event) == InputEstablished(SEQ_MODULUS, old(Value()), s, acked, app)
    {
      ghost var c := Value();
      AddRcvNxt(1 + |s.data|);
      event := Some(NO_EVENT.(acked := acked, closed := true, newData := |s.data| > 0,
                              mss := mss, data := s.data));
      len := 1;
      SetState(LastAck);
      nrtx := 0;
      assert Value() == c.Enter(LastAck).(rcvNxt := rcvNxt, len := 1, nrtx := 0);
      out := TcpSend(FIN_ACK, []);
    }

    method ReceiveFinWait1(s: Segment, acked: bool, app: App)
      returns (out: Option<Segment>, event: Option<AppEvent>)
      modifies this
      ensures StepOut(Value(), out, event) == InputFinWait1(SEQ_MODULUS, old(Value()), s, acked, app)
    {
      out, event := None, None;
      AddRcvNxt(|s.data|);
      if s.flags.fin {
        ghost var d := Value();
        EnterClosing(acked);
        AddRcvNxt(1);
        assert Value() == (if acked then d.Enter(TimeWait).(timer := 0, len := 0) else d.Enter(Closing))
                          .(rcvNxt := rcvNxt);
        out, event := PeerClosed(s, app);
      } else if acked {
        SetState(FinWait2);
        len := 0;
      } else if |s.data| > 0 {
        out := TcpSend(ACK, []);
      }
    }

    /// `uip_process(UIP_TIMER)`
    method Periodic(app: App) returns (out: Option<Segment>, event: Option<AppEvent>)
      modifies this
      ensures StepOut(Value(), out, event) == Timer(old(Value()), app)
      ensures old(Valid()) ==> Valid()
    {
      if Valid() {
        TcpLifecycle.ActKeepsLenInv(SEQ_MODULUS, Value(), TcpLifecycle.Pulse(app));
      }
      out, event := None, None;
      if (st == TimeWait || st == FinWait2) && !stopped {
        timer := U8(timer + 1);
        if timer == UIP_TIME_WAIT_TIMEOUT {
          SetState(Closed);
        }
      } else if st != Closed || stopped {
        if len != 0 {
          if timer == 0 {
            out, event := TimerExpired(app);
          } else {
            timer := timer - 1;
          }
        } else if st == Established {
          out, event := CallAndRespond(NO_EVENT.(poll := true, mss := mss), app);
        }
      }
    }

    /// The retransmission timer has run down.
    method TimerExpired(app: App) returns (out: Option<Segment>, event: Option<AppEvent>)
      requires timer == 0 && len != 0 && (st != Closed || stopped)
      requires !((st == TimeWait || st == FinWait2) && !stopped)
      modifies this
      ensures StepOut(Value(), out, event) == Timer(old(Value()), app)
    {
      if nrtx == UIP_MAXRTX
        || ((st == SynSent || st == SynRcvd) && !stopped && nrtx == UIP_MAXSYNRTX) {
        timer := 255;
        SetState(Closed);
        event := Some(NO_EVENT.(timedOut := true, mss := mss));
        out := TcpSend(RST_ACK, []);
        return;
      }
      timer := Backoff(nrtx);
      nrtx := nrtx + 1;
      out, event := SendAgain(app);
    }

    /// The switch under "Ok, so we need to retransmit".
    method SendAgain(app: App) returns (out: Option<Segment>, event: Option<AppEvent>)
      modifies this`stopped
      ensures StepOut(Value(), out, event) == Retransmit(old(Value()), app)
    {
      out, event := None, None;
      match st {
        case SynRcvd => out := TcpSend(SYN_ACK, []);
        case SynSent => out := TcpSend(SYN, []);
        case Established =>
          var e := NO_EVENT.(rexmit := true, mss := mss);
          event := Some(e);
          var r := app(e);
          if r.stop {
            stopped := true;
          }
          out := SendPrepared(r.send, |r.send|, r.announce && r.request == Carry);
        case FinWait1 => out := TcpSend(FIN_ACK, []);
        case Closing => out := TcpSend(FIN_ACK, []);
        case LastAck => out := TcpSend(FIN_ACK, []);
        case _ =>
      }
    }

    /// `uip_process(UIP_POLL_REQUEST)`
    method PollRequest(app: App) returns (out: Option<Segment>, event: Option<AppEvent>)
      modifies this
      ensures StepOut(Value(), out, event) == Poll(old(Value()), app)
      ensures old(Valid()) ==> Valid()
    {
      if Valid() {
        TcpLifecycle.ActKeepsLenInv(SEQ_MODULUS, Value(), TcpLifecycle.PollRequest(app));
      }
      out, event := None, None;
      if st == Established && len == 0 {
        out, event := CallAndRespond(NO_EVENT.(poll := true, mss := mss), app);
      }
    }

    /// Label `found_listen`, once a slot is found.
    method Accept(lport: nat, rport: nat, ripaddr: nat, s: Segment, iss: int) returns (out: Option<Segment>)
      modifies this
      ensures Value() == Accepted(SEQ_MODULUS, old(Value()), lport, rport, ripaddr, s, iss)
      ensures out == Some(Sends(Value(), SYN_ACK, []))
      ensures old(Valid()) ==> Valid()
    {
      if Valid() {
        TcpLifecycle.AcceptedKeepsLenInv(SEQ_MODULUS, Value(), lport, rport, ripaddr, s, iss);
      }
      FillSlot(lport, rport, ripaddr, SynRcvd, iss, UIP_RTO, 4);
      Expect(s.seqno);
      TakeMss(s.mssOption);
      out := TcpSend(SYN_ACK, []);
    }

    /// The end of `uip_connect`.
    method Connect(lport: nat, rport: nat, ripaddr: nat, iss: int)
      modifies this
      ensures Value() == Connecting(old(Value()), lport, rport, ripaddr, iss)
      ensures Valid()
    {
      FillSlot(lport, rport, ripaddr, SynSent, iss, 1, 16);
      mss, initialMss := UIP_TCP_MSS, UIP_TCP_MSS;
    }

    /// `uip_stop` and `uip_restart`.
    method Stop(stop: bool)
      modifies this`stopped
      ensures stopped == stop
      ensures old(Valid()) ==> Valid()
    {
      stopped := stop;
    }

    /// `xtcpd_bind_local`
    method BindLocal(port: nat)
      modifies this`lport
      ensures lport == port
      ensures old(Valid()) ==> Valid()
    {
      lport := port;
    }
  }
}
