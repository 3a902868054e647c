/// The connection table: demultiplexing, slot allocation and the port search of
/// `uip_connect`. At most one live connection ever has a given pair of endpoints.

module ConnTable {
  import opened Basics
  import opened UipTcp
  import opened UipProcess
  import TcpLifecycle

  datatype Key = Key(lport: nat, rport: nat, ripaddr: nat)

  function KeyOf(c: Conn): Key {
    Key(c.lport, c.rport, c.ripaddr)
  }

  /// No two live connections share local port, remote port and remote address.
  predicate Unique(t: seq<Conn>) {
    forall i, j :: 0 <= i < j < |t| && t[i].Live() && t[j].Live() ==> KeyOf(t[i]) != KeyOf(t[j])
  }

  predicate Matches(c: Conn, k: Key) {
    c.Live() && KeyOf(c) == k
  }

  /// With unique keys the first match of the demultiplexer is the only one.
  lemma FirstMatchIsOnlyMatch(t: seq<Conn>, k: Key, i: nat, j: nat)
    requires Unique(t) && i < |t| && j < |t| && Matches(t[i], k) && Matches(t[j], k)
    ensures i == j
  {
  }

  // ------------------------------------------------------------------ steps

  /// uIP processing of an existing connection: its endpoints stay, and it does not come back
  /// to life.
  predicate Processed(c: Conn, d: Conn) {
    KeyOf(d) == KeyOf(c) && (d.Live() ==> c.Live())
  }

  lemma InputProcesses(modulus: nat, c: Conn, s: Segment, app: App)
    requires c.Live()
    ensures Processed(c, Input(modulus, c, s, app).conn)
  {
    var d := AckProcessed(modulus, c, s);
    var acked := AcksOutstanding(modulus, c, s);
    ByStateProcesses(modulus, d, s, acked, app);
  }

  lemma ByStateProcesses(modulus: nat, c: Conn, s: Segment, acked: bool, app: App)
    ensures KeyOf(ByState(modulus, c, s, acked, app).conn) == KeyOf(c)
  {
  }

  lemma TimerProcesses(c: Conn, app: App)
    ensures Processed(c, Timer(c, app).conn)
    ensures Processed(c, Poll(c, app).conn)
  {
  }

  /// Slot `i` changes: its connection is processed, or filled for endpoints no other live
  /// connection has.
  predicate SlotStep(t: seq<Conn>, u: seq<Conn>, i: nat) {
    && i < |t| == |u| && u == t[i := u[i]]
    && (Processed(t[i], u[i]) || Unclaimed(t, i, KeyOf(u[i])))
  }

  /// No live connection but the one in slot `i` has these endpoints.
  predicate Unclaimed(t: seq<Conn>, i: nat, k: Key) {
    forall j :: 0 <= j < |t| && j != i ==> !Matches(t[j], k)
  }

  lemma SlotStepKeepsUnique(t: seq<Conn>, u: seq<Conn>, i: nat)
    requires Unique(t) && SlotStep(t, u, i)
    ensures Unique(u)
  {
    forall a, b | 0 <= a < b < |u| && u[a].Live() && u[b].Live()
      ensures KeyOf(u[a]) != KeyOf(u[b])
    {
      assert a != i ==> u[a] == t[a];
      assert b != i ==> u[b] == t[b];
    }
  }

  // ------------------------------------------------------------------ ports

  const LAST_PORT_START: nat := 1024
  const FIRST_PORT: nat := 4096
  const PORT_LIMIT: nat := 32000

  lemma HtonsInjective(p: nat, q: nat)
    requires p < 0x1_0000 && q < 0x1_0000 && Htons(p) == Htons(q)
    ensures p == q
  {
  }

  predicate PortTaken(t: seq<Conn>, port: nat)
    requires port < 0x1_0000
  {
    exists i :: 0 <= i < |t| && t[i].Live() && t[i].lport == Htons(port)
  }

  function PortSet(lo: nat, hi: nat): (s: set<nat>)
    requires lo <= hi <= 0x1_0000
    ensures forall p :: lo <= p < hi ==> Htons(p) in s
    ensures forall x :: x in s ==> exists p :: lo <= p < hi && Htons(p) == x
    ensures |s| == hi - lo
    decreases hi - lo
  {
    if lo == hi then {}
    else
      var rest := PortSet(lo + 1, hi);
      assert Htons(lo) !in rest by {
        if Htons(lo) in rest {
          var p :| lo + 1 <= p < hi && Htons(p) == Htons(lo);
          HtonsInjective(p, lo);
        }
      }
      rest + {Htons(lo)}
  }

  function LocalPorts(t: seq<Conn>): (s: set<nat>)
    ensures |s| <= |t|
    ensures forall i :: 0 <= i < |t| ==> t[i].lport in s
  {
    if t == [] then {} else LocalPorts(t[1..]) + {t[0].lport}
  }

  /// Pigeonhole: fewer connections than ports leave a port free.
  lemma FreePortExists(t: seq<Conn>)
    requires |t| < PORT_LIMIT - FIRST_PORT
    ensures exists p :: FIRST_PORT <= p < PORT_LIMIT && !PortTaken(t, p)
  {
    var all, used := PortSet(FIRST_PORT, PORT_LIMIT), LocalPorts(t);
    if all <= used {
      SubsetIsSmaller(all, used);
    } else {
      var x :| x in all && x !in used;
      var p :| FIRST_PORT <= p < PORT_LIMIT && Htons(p) == x;
      assert !PortTaken(t, p);
    }
  }

  // ------------------------------------------------------------------ slots

  /// The slot both scans choose: the first closed one, otherwise the TIME-WAIT slot with the
  /// largest timer, the first among equals.
  predicate ChosenSlot(t: seq<Conn>, i: nat)
    requires i < |t|
  {
    if t[i].Is(Closed) then
      forall j :: 0 <= j < i ==> !t[j].Is(Closed)
    else
      && t[i].Is(TimeWait)
      && (forall j :: 0 <= j < |t| ==> !t[j].Is(Closed))
      && (forall j :: 0 <= j < |t| && t[j].Is(TimeWait) ==> t[j].timer <= t[i].timer)
      && (forall j :: 0 <= j < i && t[j].Is(TimeWait) ==> t[j].timer < t[i].timer)
  }

  predicate NoSlot(t: seq<Conn>) {
    forall j :: 0 <= j < |t| ==> !t[j].Is(Closed) && !t[j].Is(TimeWait)
  }

  // ------------------------------------------------------------------- runs

  /// A SYN `s` for unmatched endpoints `k` turns table `t` into `u`: it is dropped only if no
  /// slot can be had, otherwise the chosen slot is filled and a SYN-ACK sent.
  ghost predicate Opens(t: seq<Conn>, u: seq<Conn>, k: Key, s: Segment, iss: int, out: Option<Segment>) {
    if NoSlot(t) then u == t && out == None
    else exists i :: 0 <= i < |t| && OpensAt(t, u, i, k, s, iss, out)
  }

  predicate OpensAt(t: seq<Conn>, u: seq<Conn>, i: nat, k: Key, s: Segment, iss: int, out: Option<Segment>)
    requires i < |t|
  {
    var c := Accepted(SEQ_MODULUS, t[i], k.lport, k.rport, k.ripaddr, s, iss);
    ChosenSlot(t, i) && u == t[i := c] && out == Some(Sends(c, SYN_ACK, []))
  }

  /// `uip_connect` from a port no live connection uses.
  ghost predicate Connects(t: seq<Conn>, u: seq<Conn>, port: nat, rport: nat, ripaddr: nat, iss: int) {
    && LAST_PORT_START <= port < PORT_LIMIT && !PortTaken(t, port)
    && if NoSlot(t) then u == t
       else exists i :: 0 <= i < |t| && ConnectsAt(t, u, i, port, rport, ripaddr, iss)
  }

  predicate ConnectsAt(t: seq<Conn>, u: seq<Conn>, i: nat, port: nat, rport: nat, ripaddr: nat, iss: int)
    requires i < |t| && port < PORT_LIMIT
  {
    ChosenSlot(t, i) && u == t[i := Connecting(t[i], Htons(port), rport, ripaddr, iss)]
  }

  predicate FirstMatch(t: seq<Conn>, k: Key, i: nat) {
    i < |t| && Matches(t[i], k) && forall j :: 0 <= j < i ==> !Matches(t[j], k)
  }

  /// Everything the stack and its clients do to the table.
  datatype Op =
    | Incoming(k: Key, s: Segment, app: App, iss: int)
    | Open(port: nat, rport: nat, ripaddr: nat, iss: int)
    | Pulse(i: nat, app: App)
    | PollSlot(i: nat, app: App)
    | BindLocal(i: nat, lport: nat)
    | Pause(i: nat)
    | Unpause(i: nat)

  /// One operation turns table `t` into `u`, with listeners on the ports `listen`.
  ghost predicate Next(listen: seq<nat>, t: seq<Conn>, op: Op, u: seq<Conn>) {
    match op
    case Incoming(k, s, app, iss) => NextIncoming(listen, t, u, k, s, app, iss)
    case Open(port, rport, ripaddr, iss) => Connects(t, u, port, rport, ripaddr, iss)
    case Pulse(i, app) => i < |t| && u == t[i := Timer(t[i], app).conn]
    case PollSlot(i, app) => i < |t| && u == t[i := Poll(t[i], app).conn]
    case BindLocal(i, lport) => i < |t| && u == t[i := t[i].(lport := lport)]
    case Pause(i) => i < |t| && u == t[i := t[i].(stopped := true)]
    case Unpause(i) => i < |t| && u == t[i := t[i].(stopped := false)]
  }

  ghost predicate NextIncoming(
      listen: seq<nat>, t: seq<Conn>, u: seq<Conn>, k: Key, s: Segment, app: App, iss: int) {
    if exists i: nat :: FirstMatch(t, k, i) then
      exists i: nat :: FirstMatch(t, k, i) && u == t[i := Input(SEQ_MODULUS, t[i], s, app).conn]
    else if s.flags == SYN && k.lport in listen then
      exists out :: Opens(t, u, k, s, iss, out)
    else
      u == t
  }

  /// What a client must see to: a port is rebound only to endpoints nobody has, and a slot that
  /// is closed already is paused only while nobody has taken over its endpoints.
  predicate Guarded(t: seq<Conn>, op: Op) {
    match op
    case BindLocal(i, lport) =>
      i < |t| && t[i].Live() ==> Unclaimed(t, i, Key(lport, t[i].rport, t[i].ripaddr))
    case Pause(i) => i < |t| && !t[i].Live() ==> Unclaimed(t, i, KeyOf(t[i]))
    case _ => true
  }

  /// Tables `ts` in the order in which the operations `ops` produce them.
  ghost predicate IsRun(listen: seq<nat>, ts: seq<seq<Conn>>, ops: seq<Op>) {
    |ts| == |ops| + 1 && forall n :: 0 <= n < |ops| ==> Next(listen, ts[n], ops[n], ts[n + 1])
  }

  lemma NoMatchIsUnclaimed(t: seq<Conn>, k: Key, i: nat)
    requires !exists j: nat :: FirstMatch(t, k, j)
    ensures Unclaimed(t, i, k)
  {
    NoMatchBefore(t, k, |t|);
  }

  lemma {:induction false} NoMatchBefore(t: seq<Conn>, k: Key, n: nat)
    requires n <= |t| && !exists j: nat :: FirstMatch(t, k, j)
    ensures forall j :: 0 <= j < n ==> !Matches(t[j], k)
  {
    if n > 0 {
      NoMatchBefore(t, k, n - 1);
      assert !FirstMatch(t, k, n - 1);
    }
  }

  lemma IncomingKeepsUnique(
      listen: seq<nat>, t: seq<Conn>, u: seq<Conn>, k: Key, s: Segment, app: App, iss: int)
    requires Unique(t) && NextIncoming(listen, t, u, k, s, app, iss)
    ensures Unique(u)
  {
    if exists i: nat :: FirstMatch(t, k, i) {
      var i: nat :| FirstMatch(t, k, i) && u == t[i := Input(SEQ_MODULUS, t[i], s, app).conn];
      InputProcesses(SEQ_MODULUS, t[i], s, app);
      SlotStepKeepsUnique(t, u, i);
    } else if u != t {
      var out :| Opens(t, u, k, s, iss, out);
      var i :| 0 <= i < |t| && OpensAt(t, u, i, k, s, iss, out);
      NoMatchIsUnclaimed(t, k, i);
      SlotStepKeepsUnique(t, u, i);
    }
  }

  lemma ConnectKeepsUnique(t: seq<Conn>, u: seq<Conn>, port: nat, rport: nat, ripaddr: nat, iss: int)
    requires Unique(t) && Connects(t, u, port, rport, ripaddr, iss)
    ensures Unique(u)
  {
    if u != t {
      var i :| 0 <= i < |t| && ConnectsAt(t, u, i, port, rport, ripaddr, iss);
      assert Unclaimed(t, i, KeyOf(u[i]));
      SlotStepKeepsUnique(t, u, i);
    }
  }

  /// `xtcpd_bind_local` rewrites a local port unseen. It keeps the endpoints unique exactly
  /// when no other live connection has the new ones.
  lemma BindLocalKeepsUniqueIff(t: seq<Conn>, i: nat, port: nat)
    requires Unique(t) && i < |t|
    ensures var u := t[i := t[i].(lport := port)];
            Unique(u) <==> (t[i].Live() ==> Unclaimed(t, i, KeyOf(u[i])))
  {
    var u := t[i := t[i].(lport := port)];
    if !t[i].Live() {
      assert Unique(u);
    } else if j :| 0 <= j < |t| && j != i && Matches(t[j], KeyOf(u[i])) {
      assert u[j] == t[j] && KeyOf(u[i]) == KeyOf(u[j]);
    } else {
      SlotStepKeepsUnique(t, u, i);
    }
  }

  /// Pausing a connection that is already closed makes the scans see it again. It keeps the
  /// endpoints unique exactly when nobody took them over in the meantime.
  lemma PauseKeepsUniqueIff(t: seq<Conn>, i: nat)
    requires Unique(t) && i < |t|
    ensures var u := t[i := t[i].(stopped := true)];
            Unique(u) <==> (t[i].Live() || Unclaimed(t, i, KeyOf(t[i])))
  {
    var u := t[i := t[i].(stopped := true)];
    assert u[i].Live() && KeyOf(u[i]) == KeyOf(t[i]);
    if t[i].Live() {
      SlotStepKeepsUnique(t, u, i);
    } else if j :| 0 <= j < |t| && j != i && Matches(t[j], KeyOf(t[i])) {
      assert u[j] == t[j] && u[j].Live() && KeyOf(u[i]) == KeyOf(u[j]);
    } else {
      SlotStepKeepsUnique(t, u, i);
    }
  }

  /// One operation keeps the endpoints unique if and only if its guard holds.
  lemma NextKeepsUniqueIff(listen: seq<nat>, t: seq<Conn>, op: Op, u: seq<Conn>)
    requires Unique(t) && Next(listen, t, op, u)
    ensures Unique(u) <==> Guarded(t, op)
  {
    match op {
      case Incoming(k, s, app, iss) => IncomingKeepsUnique(listen, t, u, k, s, app, iss);
      case Open(port, rport, ripaddr, iss) => ConnectKeepsUnique(t, u, port, rport, ripaddr, iss);
      case Pulse(i, app) =>
        TimerProcesses(t[i], app);
        SlotStepKeepsUnique(t, u, i);
      case PollSlot(i, app) =>
        TimerProcesses(t[i], app);
        SlotStepKeepsUnique(t, u, i);
      case BindLocal(i, lport) => BindLocalKeepsUniqueIff(t, i, lport);
      case Pause(i) => PauseKeepsUniqueIff(t, i);
      case Unpause(i) => SlotStepKeepsUnique(t, u, i);
    }
  }

  /// From a table of closed slots on, all tables of a run have unique endpoints if and only if
  /// the clients kept to the guards throughout.
  lemma RunsKeepUniqueIff(listen: seq<nat>, ts: seq<seq<Conn>>, ops: seq<Op>)
    requires IsRun(listen, ts, ops)
    requires forall i :: 0 <= i < |ts[0]| ==> ts[0][i].Is(Closed)
    ensures (forall n :: 0 <= n < |ts| ==> Unique(ts[n]))
            <==> (forall n :: 0 <= n < |ops| ==> Guarded(ts[n], ops[n]))
  {
    if forall n :: 0 <= n < |ops| ==> Guarded(ts[n], ops[n]) {
      forall n | 0 <= n < |ts|
        ensures Unique(ts[n])
      {
        GuardedRunKeepsUnique(listen, ts, ops, n);
      }
    }
    if forall n :: 0 <= n < |ts| ==> Unique(ts[n]) {
      forall n | 0 <= n < |ops|
        ensures Guarded(ts[n], ops[n])
      {
        NextKeepsUniqueIff(listen, ts[n], ops[n], ts[n + 1]);
      }
    }
  }

  lemma {:induction false} GuardedRunKeepsUnique(listen: seq<nat>, ts: seq<seq<Conn>>, ops: seq<Op>, n: nat)
    requires IsRun(listen, ts, ops) && n < |ts| && Unique(ts[0])
    requires forall k :: 0 <= k < |ops| ==> Guarded(ts[k], ops[k])
    ensures Unique(ts[n])
  {
    if n > 0 {
      GuardedRunKeepsUnique(listen, ts, ops, n - 1);
      NextKeepsUniqueIff(listen, ts[n - 1], ops[n - 1], ts[n]);
    }
  }

  // ------------------------------------------------- where connections come from

  /// The operation begins the use of slot `i` as it is found in `u`: a SYN for a listening port or
  /// a client opens a connection there, or a pause makes the slot count as in use.
  predicate Begins(listen: seq<nat>, op: Op, i: nat, u: seq<Conn>)
    requires i < |u|
  {
    match op
    case Incoming(k, s, app, iss) =>
      s.flags == SYN && k.lport in listen && u[i].Is(SynRcvd) && KeyOf(u[i]) == k && u[i].sndNxt == iss
    case Open(port, rport, ripaddr, iss) =>
      port < PORT_LIMIT && u[i].Is(SynSent) && KeyOf(u[i]) == Key(Htons(port), rport, ripaddr) && u[i].sndNxt == iss
    case Pause(j) => j == i
    case _ => false
  }

  lemma IncomingBegins(
      listen: seq<nat>, t: seq<Conn>, u: seq<Conn>, k: Key, s: Segment, app: App, iss: int, i: nat)
    requires NextIncoming(listen, t, u, k, s, app, iss) && i < |t|
    ensures |u| == |t| && (u[i].Live() ==> Begins(listen, Incoming(k, s, app, iss), i, u) || Processed(t[i], u[i]))
  {
    if exists j: nat :: FirstMatch(t, k, j) {
      var j: nat :| FirstMatch(t, k, j) && u == t[j := Input(SEQ_MODULUS, t[j], s, app).conn];
      InputProcesses(SEQ_MODULUS, t[j], s, app);
    } else if u != t {
      var out :| Opens(t, u, k, s, iss, out);
      var j :| 0 <= j < |t| && OpensAt(t, u, j, k, s, iss, out);
    }
  }

  lemma StepBegins(listen: seq<nat>, t: seq<Conn>, op: Op, u: seq<Conn>, i: nat)
    requires Next(listen, t, op, u) && i < |t|
    ensures |u| == |t|
    ensures u[i].Live() && !Begins(listen, op, i, u) ==>
              t[i].Live() && (KeyOf(u[i]) == KeyOf(t[i]) || op == BindLocal(i, u[i].lport))
  {
    match op {
      case Incoming(k, s, app, iss) => IncomingBegins(listen, t, u, k, s, app, iss, i);
      case Open(port, rport, ripaddr, iss) =>
        if u != t {
          var j :| 0 <= j < |t| && ConnectsAt(t, u, j, port, rport, ripaddr, iss);
        }
      case Pulse(j, app) => TimerProcesses(t[j], app);
      case PollSlot(j, app) => TimerProcesses(t[j], app);
      case _ =>
    }
  }

  /// A record that has come into use was opened by a SYN for a listening port, by a client, or
  /// revived by a pause; ever since it has been in use, with the same endpoints unless rebound.
  lemma {:induction false} LiveRecordsHaveAnOrigin(
      listen: seq<nat>, ts: seq<seq<Conn>>, ops: seq<Op>, n: nat, i: nat) returns (m: nat)
    requires IsRun(listen, ts, ops) && n < |ts| && i < |ts[n]|
    requires i < |ts[0]| ==> !ts[0][i].Live()
    requires ts[n][i].Live()
    ensures m < n && i < |ts[m + 1]| && Begins(listen, ops[m], i, ts[m + 1])
    ensures forall k :: m < k <= n ==> i < |ts[k]| && ts[k][i].Live()
    ensures (forall k :: m < k < n ==> !ops[k].BindLocal?) ==> KeyOf(ts[n][i]) == KeyOf(ts[m + 1][i])
  {
    assert n > 0;
    assert Next(listen, ts[n - 1], ops[n - 1], ts[n]);
    NextKeepsLength(listen, ts[n - 1], ops[n - 1], ts[n]);
    StepBegins(listen, ts[n - 1], ops[n - 1], ts[n], i);
    if Begins(listen, ops[n - 1], i, ts[n]) {
      m := n - 1;
    } else {
      m := LiveRecordsHaveAnOrigin(listen, ts, ops, n - 1, i);
    }
  }

  lemma NextKeepsLength(listen: seq<nat>, t: seq<Conn>, op: Op, u: seq<Conn>)
    requires Next(listen, t, op, u)
    ensures |u| == |t|
  {
    if op.Incoming? && u != t && !exists i: nat :: FirstMatch(t, op.k, i) {
      var out :| Opens(t, u, op.k, op.s, op.iss, out);
    }
  }

  // ------------------------------------------------- runs that break a guard

  /// A run from closed slots whose last operation, and no earlier one, makes two live
  /// connections share their endpoints.
  ghost predicate EndsInClash(listen: seq<nat>, ts: seq<seq<Conn>>, ops: seq<Op>) {
    && IsRun(listen, ts, ops) && ops != []
    && (forall i :: 0 <= i < |ts[0]| ==> ts[0][i].Is(Closed))
    && (forall n :: 0 <= n < |ops| ==> Unique(ts[n]))
    && !Unique(ts[|ops|])
  }

  const A_SYN := Segment(SYN, 0, 0, 0, None, [])
  const A_RESET := Segment(RST_ACK, 0, 0, 0, None, [])

  lemma SynOpens(listen: seq<nat>, t: seq<Conn>, i: nat, k: Key, app: App)
    requires i < |t| && ChosenSlot(t, i) && k.lport in listen
    requires forall j :: 0 <= j < |t| ==> !Matches(t[j], k)
    ensures Next(listen, t, Incoming(k, A_SYN, app, 0), Filled(t, i, k))
  {
    var u := Filled(t, i, k);
    assert OpensAt(t, u, i, k, A_SYN, 0, Some(Sends(u[i], SYN_ACK, [])));
    assert Opens(t, u, k, A_SYN, 0, Some(Sends(u[i], SYN_ACK, [])));
    assert !exists j: nat :: FirstMatch(t, k, j);
  }

  function Filled(t: seq<Conn>, i: nat, k: Key): seq<Conn>
    requires i < |t|
  {
    t[i := Accepted(SEQ_MODULUS, t[i], k.lport, k.rport, k.ripaddr, A_SYN, 0)]
  }

  lemma ResetCloses(listen: seq<nat>, t: seq<Conn>, i: nat, k: Key, app: App)
    requires FirstMatch(t, k, i)
    ensures Next(listen, t, Incoming(k, A_RESET, app, 0), t[i := t[i].Enter(Closed)])
  {
    assert Input(SEQ_MODULUS, t[i], A_RESET, app).conn == t[i].Enter(Closed);
  }

  /// Two connections accepted on different ports, the second rebound to the port of the first.
  lemma RebindingCanClash(app: App) returns (listen: seq<nat>, ts: seq<seq<Conn>>, ops: seq<Op>)
    ensures EndsInClash(listen, ts, ops) && ops[|ops| - 1].BindLocal?
  {
    var k, l := Key(80, 5000, 1), Key(81, 5000, 1);
    listen := [80, 81];
    var t0 := [TcpLifecycle.EMPTY_SLOT, TcpLifecycle.EMPTY_SLOT];
    var t1 := Filled(t0, 0, k);
    var t2 := Filled(t1, 1, l);
    var t3 := t2[1 := t2[1].(lport := 80)];
    SynOpens(listen, t0, 0, k, app);
    SynOpens(listen, t1, 1, l, app);
    assert Matches(t3[0], k) && Matches(t3[1], k);
    ts := [t0, t1, t2, t3];
    ops := [Incoming(k, A_SYN, app, 0), Incoming(l, A_SYN, app, 0), BindLocal(1, 80)];
  }

  lemma TwoResets(app: App, k: Key, l: Key) returns (ts: seq<seq<Conn>>, ops: seq<Op>)
    requires k != l && k.lport == l.lport == 80
    ensures IsRun([80], ts, ops) && |ops| == 4
    ensures forall i :: 0 <= i < |ts[0]| ==> ts[0][i].Is(Closed)
    ensures forall n :: 0 <= n < |ts| ==> Unique(ts[n])
    ensures |ts[4]| == 2 && ts[4][0].Is(Closed) && ts[4][1].Is(Closed) && KeyOf(ts[4][1]) == l
  {
    var t0 := [TcpLifecycle.EMPTY_SLOT, TcpLifecycle.EMPTY_SLOT];
    var t1 := Filled(t0, 0, k);
    var t2 := Filled(t1, 1, l);
    var t3 := t2[0 := t2[0].Enter(Closed)];
    var t4 := t3[1 := t3[1].Enter(Closed)];
    SynOpens([80], t0, 0, k, app);
    SynOpens([80], t1, 1, l, app);
    ResetCloses([80], t2, 0, k, app);
    ResetCloses([80], t3, 1, l, app);
    ts := [t0, t1, t2, t3, t4];
    ops := [Incoming(k, A_SYN, app, 0), Incoming(l, A_SYN, app, 0),
            Incoming(k, A_RESET, app, 0), Incoming(l, A_RESET, app, 0)];
  }

  /// Two connections reset by their peers, the second peer coming back in the first slot, and a
  /// late pause of its old connection.
  lemma LatePauseCanClash(app: App) returns (listen: seq<nat>, ts: seq<seq<Conn>>, ops: seq<Op>)
    ensures EndsInClash(listen, ts, ops) && ops[|ops| - 1].Pause?
  {
    var k, l := Key(80, 5000, 1), Key(80, 6000, 1);
    listen := [80];
    ts, ops := TwoResets(app, k, l);
    var t4 := ts[4];
    var t5 := Filled(t4, 0, l);
    var t6 := t5[1 := t5[1].(stopped := true)];
    SynOpens(listen, t4, 0, l, app);
    assert Matches(t6[0], l) && Matches(t6[1], l);
    ts := ts + [t5, t6];
    ops := ops + [Incoming(l, A_SYN, app, 0), Pause(1)];
  }

  // ------------------------------------------------------------ the real table

  /// The array `uip_conns` of records that `uip_process` updates in place.
  class Stack {
    const conns: seq<UipConn>
    const listenPorts: seq<nat>
    var lastPort: nat

    ghost predicate Valid()
      reads this, conns
    {
      && |conns| < PORT_LIMIT - FIRST_PORT
      && LAST_PORT_START <= lastPort < PORT_LIMIT
      && (forall i, j :: 0 <= i < j < |conns| ==> conns[i] != conns[j])
      && forall i :: 0 <= i < |conns| ==> conns[i].Valid()
    }

    ghost function Table(): (t: seq<Conn>)
      reads conns
      ensures |t| == |conns|
      ensures forall i :: 0 <= i < |conns| ==> t[i] == conns[i].Value()
    {
      Values(conns)
    }

    /// `uip_init`: all slots closed.
    constructor (c: seq<UipConn>, listen: seq<nat>)
      requires |c| < PORT_LIMIT - FIRST_PORT
      requires forall i, j :: 0 <= i < j < |c| ==> c[i] != c[j]
      requires forall i :: 0 <= i < |c| ==> c[i].Valid() && c[i].Value().Is(Closed)
      ensures Valid() && conns == c && listenPorts == listen
      ensures Unique(Table())
    {
      conns, listenPorts, lastPort := c, listen, LAST_PORT_START;
    }

    /// The demultiplexing loop.
    method Demultiplex(k: Key) returns (i: nat)
      ensures i <= |conns|
      ensures i < |conns| ==> FirstMatch(Table(), k, i)
      ensures i == |conns| ==> !exists j: nat :: FirstMatch(Table(), k, j)
      ensures Unique(Table()) ==> Unclaimed(Table(), i, k)
    {
      i := 0;
      while i < |conns| && !SlotMatches(conns[i], k)
        invariant i <= |conns|
        invariant forall j :: 0 <= j < i ==> !Matches(conns[j].Value(), k)
      {
        i := i + 1;
      }
      if i < |conns| {
        assert Matches(Table()[i], k);
      }
    }

    /// The scan for a slot, the same in `uip_connect` and at label `found_listen`.
    method FindSlot() returns (slot: nat)
      ensures slot <= |conns|
      ensures slot < |conns| ==> ChosenSlot(Table(), slot)
      ensures slot == |conns| <==> NoSlot(Table())
    {
      slot := |conns|;
      ghost var t := Table();
      var c := 0;
      while c < |conns|
        invariant c <= |conns| && (slot < c || slot == |conns|)
        invariant forall j :: 0 <= j < c ==> !t[j].Is(Closed)
        invariant slot == |conns| ==> forall j :: 0 <= j < c ==> !t[j].Is(TimeWait)
        invariant slot < |conns| ==>
                    && t[slot].Is(TimeWait)
                    && (forall j :: 0 <= j < c && t[j].Is(TimeWait) ==> t[j].timer <= t[slot].timer)
                    && (forall j :: 0 <= j < slot && t[j].Is(TimeWait) ==> t[j].timer < t[slot].timer)
      {
        var conn := conns[c];
        assert t[c] == conn.Value();
        if conn.st == Closed && !conn.stopped {
          return c;
        }
        if conn.st == TimeWait && !conn.stopped {
          if slot == |conns| || conn.timer > conns[slot].timer {
            slot := c;
          }
        }
        c := c + 1;
      }
    }

    /// The search from label `again` on. It ends because some port of the range is free and
    /// the search comes to it.
    method FindPort()
      requires Valid()
      modifies this`lastPort
      ensures Valid() && !PortTaken(Table(), lastPort)
    {
      ghost var t := Table();
      FreePortExists(t);
      ghost var goal :| FIRST_PORT <= goal < PORT_LIMIT && !PortTaken(t, goal);
      var free := false;
      while !free
        invariant LAST_PORT_START <= lastPort < PORT_LIMIT
        invariant free ==> !PortTaken(t, lastPort)
        decreases !free, if lastPort < goal then goal - lastPort else PORT_LIMIT - lastPort + goal - FIRST_PORT
      {
        lastPort := lastPort + 1;
        if lastPort >= PORT_LIMIT {
          lastPort := FIRST_PORT;
        }
        free := PortIsFree(t);
      }
    }

    method PortIsFree(ghost t: seq<Conn>) returns (free: bool)
      requires lastPort < PORT_LIMIT && t == Table()
      ensures free <==> !PortTaken(t, lastPort)
    {
      free := true;
      var c := 0;
      while c < |conns| && free
        invariant c <= |conns|
        invariant free ==> forall j :: 0 <= j < c ==> !(t[j].Live() && t[j].lport == Htons(lastPort))
        invariant !free ==> PortTaken(t, lastPort)
      {
        var conn := conns[c];
        assert t[c] == conn.Value();
        if (conn.st != Closed || conn.stopped) && conn.lport == Htons(lastPort) {
          free := false;
        }
        c := c + 1;
      }
    }

    /// `uip_connect`. The port number is used up even when no slot is free.
    method Connect(ripaddr: nat, rport: nat, iss: int) returns (slot: nat)
      requires Valid()
      modifies this`lastPort, conns
      ensures Valid() && slot <= |conns|
      ensures Next(listenPorts, old(Table()), Open(lastPort, rport, ripaddr, iss), Table())
      ensures slot < |conns| ==> ConnectsAt(old(Table()), Table(), slot, lastPort, rport, ripaddr, iss)
      ensures slot == |conns| ==> NoSlot(Table()) && Table() == old(Table())
    {
      ghost var t := Table();
      FindPort();
      slot := FindSlot();
      if slot < |conns| {
        ConnectSlot(slot, ripaddr, rport, iss);
        assert ConnectsAt(t, Table(), slot, lastPort, rport, ripaddr, iss);
      }
    }

    method ConnectSlot(slot: nat, ripaddr: nat, rport: nat, iss: int)
      requires Valid() && slot < |conns|
      modifies conns
      ensures Valid()
      ensures Table() == old(Table())[slot := Connecting(old(Table())[slot], Htons(lastPort), rport, ripaddr, iss)]
    {
      ghost var t := Table();
      conns[slot].Connect(Htons(lastPort), rport, ripaddr, iss);
      OneSlotChanged(conns, t, slot);
    }

    /// TCP input: the first connection that matches processes the segment; otherwise a SYN for
    /// a listening port opens a slot, and everything else is answered with a reset.
    method TcpInput(k: Key, s: Segment, app: App, iss: int) returns (out: Option<Segment>, event: Option<AppEvent>)
      requires Valid()
      modifies conns
      ensures Valid()
      ensures Next(listenPorts, old(Table()), Incoming(k, s, app, iss), Table())
      ensures forall i: nat :: FirstMatch(old(Table()), k, i) ==>
                && StepOut(Table()[i], out, event) == Input(SEQ_MODULUS, old(Table())[i], s, app)
                && Table() == old(Table())[i := Table()[i]]
      ensures (!exists i: nat :: FirstMatch(old(Table()), k, i)) ==>
                if s.flags == SYN && k.lport in listenPorts then
                  Opens(old(Table()), Table(), k, s, iss, out)
                else
                  Table() == old(Table()) && out == ResetFor(SEQ_MODULUS, s)
    {
      ghost var t := Table();
      out, event := None, None;
      var i := Demultiplex(k);
      if i < |conns| {
        out, event := ReceiveAt(i, s, app);
        OneFirstMatch(t, k, i);
        return;
      }
      if s.flags != SYN || k.lport !in listenPorts {
        out := ResetFor(SEQ_MODULUS, s);
        return;
      }
      out := Listen(k, s, iss);
    }

    method ReceiveAt(i: nat, s: Segment, app: App) returns (out: Option<Segment>, event: Option<AppEvent>)
      requires Valid() && i < |conns|
      modifies conns
      ensures Valid() && Table() == old(Table())[i := Table()[i]]
      ensures StepOut(Table()[i], out, event) == Input(SEQ_MODULUS, old(Table())[i], s, app)
    {
      ghost var t := Table();
      out, event := conns[i].Receive(s, app);
      OneSlotChanged(conns, t, i);
    }

    /// Label `found_listen`.
    method Listen(k: Key, s: Segment, iss: int) returns (out: Option<Segment>)
      requires Valid()
      modifies conns
      ensures Valid()
      ensures Opens(old(Table()), Table(), k, s, iss, out)
    {
      ghost var t := Table();
      var slot := FindSlot();
      if slot == |conns| {
        return None;
      }
      out := conns[slot].Accept(k.lport, k.rport, k.ripaddr, s, iss);
      OneSlotChanged(conns, t, slot);
      assert OpensAt(t, Table(), slot, k, s, iss, out);
    }

    /// `uip_periodic(i)` or, with `poll`, `uip_poll_conn(&uip_conns[i])`.
    method Periodic(i: nat, poll: bool, app: App) returns (out: Option<Segment>, event: Option<AppEvent>)
      requires Valid() && i < |conns|
      modifies conns
      ensures Valid()
      ensures Next(listenPorts, old(Table()), if poll then PollSlot(i, app) else Pulse(i, app), Table())
      ensures StepOut(Table()[i], out, event) == if poll then Poll(old(Table())[i], app) else Timer(old(Table())[i], app)
    {
      ghost var t := Table();
      if poll {
        out, event := conns[i].PollRequest(app);
      } else {
        out, event := conns[i].Periodic(app);
      }
      OneSlotChanged(conns, t, i);
    }

    /// `xtcpd_bind_local` on the connection in slot `i`.
    method Bind(i: nat, port: nat)
      requires Valid() && i < |conns|
      modifies conns
      ensures Valid()
      ensures Next(listenPorts, old(Table()), BindLocal(i, port), Table())
    {
      ghost var t := Table();
      conns[i].BindLocal(port);
      OneSlotChanged(conns, t, i);
    }

    /// `xtcpd_pause` and `xtcpd_unpause`
    method SetPaused(i: nat, paused: bool)
      requires Valid() && i < |conns|
      modifies conns
      ensures Valid()
      ensures Next(listenPorts, old(Table()), if paused then Pause(i) else Unpause(i), Table())
    {
      ghost var t := Table();
      conns[i].Stop(paused);
      OneSlotChanged(conns, t, i);
    }
  }

  /// The comparison of the demultiplexer.
  predicate SlotMatches(c: UipConn, k: Key)
    reads c
    ensures SlotMatches(c, k) <==> Matches(c.Value(), k)
  {
    (c.st != Closed || c.stopped) && c.lport == k.lport && c.rport == k.rport && c.ripaddr == k.ripaddr
  }

  ghost function Values(conns: seq<UipConn>): (t: seq<Conn>)
    reads conns
    ensures |t| == |conns|
    ensures forall i :: 0 <= i < |conns| ==> t[i] == conns[i].Value()
  {
    if conns == [] then [] else Values(conns[..|conns| - 1]) + [conns[|conns| - 1].Value()]
  }

  lemma OneSlotChanged(conns: seq<UipConn>, t: seq<Conn>, i: nat)
    requires i < |conns| == |t|
    requires forall j :: 0 <= j < |conns| && j != i ==> conns[j].Value() == t[j]
    ensures Values(conns) == t[i := conns[i].Value()]
  {
  }

  lemma OneFirstMatch(t: seq<Conn>, k: Key, i: nat)
    requires FirstMatch(t, k, i)
    ensures forall j: nat :: FirstMatch(t, k, j) ==> j == i
  {
  }
}
