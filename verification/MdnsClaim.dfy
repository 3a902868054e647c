/// How `mdns.c` claims names: probing, announcing, conflicts and renaming (sections 8.1, 8.3
/// and 9 of RFC 6762). Whether a record fits into the packet, whether an answer conflicts and
/// who wins a tie-break are inputs here.

module MdnsClaim {
  import opened Basics
  import opened MdnsName

  datatype State =
    | Unused | Disabled | ProbeWait | ProbePartialSent | ProbeSent | AnnounceWait | AnnounceSent | Active

  datatype Record = HostRecord | PtrRecord | SrvRecord | TxtRecord

  datatype Entry = Entry(
    state: State, pending: set<Record>, srv: bool, prefix: seq<Byte>, postfix: seq<Byte>,
    counter: nat, timeout: nat, numSent: nat)

  const NO_ENTRY := Entry(Unused, {}, false, [], [], 0, 0, 0)

  /// `timeafter` on the 32-bit timer.
  predicate TimeAfter(a: nat, b: nat) {
    (b - a) % TWO32 >= TWO32 / 2
  }

  // ----------------------------------------------------------- one entry

  function Claiming(e: Entry): Entry {
    e.(state := ProbeWait, numSent := 0)
  }

  predicate Probing(e: Entry) {
    e.state == ProbeWait || e.state == ProbeSent
  }

  /// A probe goes out: the entry is marked while questions are written and settled with its
  /// authority records.
  function ProbeEntry(e: Entry, fits: bool, now: nat): Entry {
    if e.state == ProbePartialSent || (e.state == ProbeWait && fits) then
      e.(state := ProbeSent, numSent := e.numSent + 1,
         timeout := (now + if e.counter < 15 then 25_000_000 else 250_000_000) % TWO32)
    else e
  }

  predicate SendsProbe(e: Entry, fits: bool) {
    e.state == ProbeWait && fits
  }

  /// An announcement, if one is due, and all answers pending.
  function AnnounceEntry(e: Entry, fits: bool, now: nat): Entry {
    if e.state == Unused || !fits then e
    else
      var a := if e.state == AnnounceWait
               then e.(state := AnnounceSent, numSent := e.numSent + 1, timeout := (now + 100_000_000) % TWO32)
               else e;
      a.(pending := {})
  }

  predicate SendsAnswer(e: Entry, fits: bool) {
    e.state != Unused && fits && (e.state == AnnounceWait || e.pending != {})
  }

  /// `mdns_periodic` on an entry.
  function TickEntry(e: Entry, now: nat): Entry {
    if e.state == ProbeSent && TimeAfter(now, e.timeout) then
      if e.numSent < 3 then e.(state := ProbeWait) else e.(state := AnnounceWait, numSent := 0)
    else if e.state == AnnounceSent && TimeAfter(now, e.timeout) then
      if e.numSent < 3 then e.(state := AnnounceWait) else e.(state := Active)
    else e
  }

  function StartEntry(e: Entry): Entry {
    if e.state != Unused then Claiming(e) else e
  }

  /// What `handle_mdns_response` found: the answer is for another name, it conflicts with the
  /// entry, or it says the same (and lasts long enough to answer in its stead).
  datatype Verdict = OtherName | Conflicts | SameData(suppress: bool)

  function ResponseEntry(e: Entry, v: Verdict): Entry {
    if e.state == Disabled || e.state == Unused || v == OtherName then e
    else if v == Conflicts then
      Claiming(if Probing(e) then e.(counter := e.counter + 1) else e)
    else if v.suppress then e.(pending := {})
    else e
  }

  function AuthorityEntry(e: Entry, loses: bool): Entry {
    if Probing(e) && loses then Claiming(e.(counter := e.counter + 1)) else e
  }

  function QuestionEntry(e: Entry, asked: set<Record>): Entry {
    if e.state == Active then e.(pending := e.pending + asked) else e
  }

  /// ".local"
  const DOT_LOCAL: seq<Byte> := [46, 108, 111, 99, 97, 108]

  function RegisterEntry(e: Entry, prefix: seq<Byte>, postfix: seq<Byte>, srv: bool): Entry {
    Entry(Disabled, {}, srv, prefix, if srv then postfix + DOT_LOCAL else postfix, 0, e.timeout, e.numSent)
  }

  // ----------------------------------------------------------- the table

  type Table = seq<Entry>

  function ProbeAll(t: Table, fits: seq<bool>, now: nat): Table
    requires |fits| == |t|
  {
    seq(|t|, i requires 0 <= i < |t| => ProbeEntry(t[i], fits[i], now))
  }

  predicate AnyProbe(t: Table, fits: seq<bool>)
    requires |fits| == |t|
  {
    exists i :: 0 <= i < |t| && SendsProbe(t[i], fits[i])
  }

  function AnnounceAll(t: Table, fits: seq<bool>, now: nat): Table
    requires |fits| == |t|
  {
    seq(|t|, i requires 0 <= i < |t| => AnnounceEntry(t[i], fits[i], now))
  }

  /// `mdns_send`: responses only go out when no probe does.
  function SendAll(t: Table, probeFits: seq<bool>, answerFits: seq<bool>, now: nat): Table
    requires |probeFits| == |answerFits| == |t|
  {
    var p := ProbeAll(t, probeFits, now);
    if AnyProbe(t, probeFits) then p else AnnounceAll(p, answerFits, now)
  }

  function StartAll(t: Table): Table {
    seq(|t|, i requires 0 <= i < |t| => StartEntry(t[i]))
  }

  function TickAll(t: Table, now: nat): Table {
    seq(|t|, i requires 0 <= i < |t| => TickEntry(t[i], now))
  }

  function ResponseAll(t: Table, v: seq<Verdict>): Table
    requires |v| == |t|
  {
    seq(|t|, i requires 0 <= i < |t| => ResponseEntry(t[i], v[i]))
  }

  function AuthorityAll(t: Table, loses: seq<bool>): Table
    requires |loses| == |t|
  {
    seq(|t|, i requires 0 <= i < |t| => AuthorityEntry(t[i], loses[i]))
  }

  function QuestionAll(t: Table, asked: seq<set<Record>>): Table
    requires |asked| == |t|
  {
    seq(|t|, i requires 0 <= i < |t| => QuestionEntry(t[i], asked[i]))
  }

  predicate SameName(e: Entry, prefix: seq<Byte>, postfix: seq<Byte>) {
    e.state != Unused && e.postfix == postfix && e.prefix == prefix
  }

  /// The slot of `mdns_add_entry`: that of the same name, else the first unused one, else the
  /// end of the table.
  function NamedSlot(t: Table, prefix: seq<Byte>, postfix: seq<Byte>, i: nat): (r: nat)
    requires i <= |t|
    ensures i <= r <= |t| && (r < |t| ==> SameName(t[r], prefix, postfix))
    ensures forall j :: i <= j < r ==> !SameName(t[j], prefix, postfix)
    decreases |t| - i
  {
    if i == |t| || SameName(t[i], prefix, postfix) then i else NamedSlot(t, prefix, postfix, i + 1)
  }

  function UnusedSlot(t: Table, i: nat): (r: nat)
    requires i <= |t|
    ensures i <= r <= |t| && (r < |t| ==> t[r].state == Unused)
    ensures forall j :: i <= j < r ==> t[j].state != Unused
    decreases |t| - i
  {
    if i == |t| || t[i].state == Unused then i else UnusedSlot(t, i + 1)
  }

  function SlotFor(t: Table, prefix: seq<Byte>, postfix: seq<Byte>): (r: nat)
    ensures r <= |t|
  {
    var n := NamedSlot(t, prefix, postfix, 0);
    if n < |t| then n else UnusedSlot(t, 0)
  }

  function Register(t: Table, prefix: seq<Byte>, postfix: seq<Byte>, srv: bool): Table {
    var i := SlotFor(t, prefix, postfix);
    if i < |t| then t[i := RegisterEntry(t[i], prefix, postfix, srv)] else t
  }

  // ------------------------------------------------------------------ runs

  /// `started` is `mdns_started`.
  datatype Responder = Responder(table: Table, started: nat)

  datatype Op =
    | Registration(prefix: seq<Byte>, postfix: seq<Byte>, srv: bool)
    | InterfaceUp
    | Poll(now: nat)
    | Send(probeFits: seq<bool>, answerFits: seq<bool>, now: nat)
    | Response(verdicts: seq<Verdict>)
    | Authority(loses: seq<bool>)
    | Question(asked: seq<set<Record>>)

  predicate Fits(op: Op, n: nat) {
    match op
    case Send(p, a, now) => |p| == |a| == n
    case Response(v) => |v| == n
    case Authority(l) => |l| == n
    case Question(q) => |q| == n
    case _ => true
  }

  function Apply(s: Responder, op: Op): (r: Responder)
    requires Fits(op, |s.table|)
    ensures |r.table| == |s.table|
  {
    match op
    case Registration(prefix, postfix, srv) => s.(table := Register(s.table, prefix, postfix, srv))
    case InterfaceUp => s.(started := 1)
    case Poll(now) =>
      if s.started == 1 then Responder(TickAll(StartAll(s.table), now), 2)
      else s.(table := TickAll(s.table, now))
    case Send(p, a, now) => s.(table := SendAll(s.table, p, a, now))
    case Response(v) => s.(table := ResponseAll(s.table, v))
    case Authority(l) => s.(table := AuthorityAll(s.table, l))
    case Question(q) => s.(table := QuestionAll(s.table, q))
  }

  /// What a step means for the claim of entry `i`.
  datatype Event = ProbeOut | AnnounceOut | Restart | Nothing

  function EventAt(s: Responder, op: Op, i: nat): Event
    requires Fits(op, |s.table|) && i < |s.table|
  {
    var e := s.table[i];
    match op
    case Registration(prefix, postfix, srv) => if SlotFor(s.table, prefix, postfix) == i then Restart else Nothing
    case InterfaceUp => Nothing
    case Poll(now) => if s.started == 1 && e.state != Unused then Restart else Nothing
    case Send(p, a, now) =>
      if SendsProbe(e, p[i]) then ProbeOut
      else if !AnyProbe(s.table, p) && e.state == AnnounceWait && a[i] then AnnounceOut
      else Nothing
    case Response(v) => if e.state != Disabled && e.state != Unused && v[i] == Conflicts then Restart else Nothing
    case Authority(l) => if Probing(e) && l[i] then Restart else Nothing
    case Question(_) => Nothing
  }

  /// The probes and announcements of entry `i` since its last conflict, start or registration.
  function Sent(before: seq<Event>, e: Event): seq<Event> {
    if e == Nothing then before else if e == Restart then [] else before + [e]
  }

  function Run(s: Responder, ops: seq<Op>): (r: Responder)
    requires forall op :: op in ops ==> Fits(op, |s.table|)
    ensures |r.table| == |s.table|
  {
    if ops == [] then s
    else Apply(Run(s, ops[..|ops| - 1]), ops[|ops| - 1])
  }

  function SentBy(s: Responder, ops: seq<Op>, i: nat): seq<Event>
    requires (forall op :: op in ops ==> Fits(op, |s.table|)) && i < |s.table|
  {
    if ops == [] then []
    else
      var before := ops[..|ops| - 1];
      Sent(SentBy(s, before, i), EventAt(Run(s, before), ops[|ops| - 1], i))
  }

  function Probes(n: nat): seq<Event> {
    seq(n, _ => ProbeOut)
  }

  function Announces(n: nat): seq<Event> {
    seq(n, _ => AnnounceOut)
  }

  /// How far an entry is in its claim.
  predicate InStep(e: Entry, sent: seq<Event>) {
    match e.state
    case Unused => sent == []
    case Disabled => sent == []
    case ProbeWait => e.numSent < 3 && sent == Probes(e.numSent)
    case ProbePartialSent => false
    case ProbeSent => 1 <= e.numSent <= 3 && sent == Probes(e.numSent)
    case AnnounceWait => e.numSent < 3 && sent == Probes(3) + Announces(e.numSent)
    case AnnounceSent => 1 <= e.numSent <= 3 && sent == Probes(3) + Announces(e.numSent)
    case Active => sent == Probes(3) + Announces(3)
  }

  lemma OneMore(n: nat)
    ensures Probes(n) + [ProbeOut] == Probes(n + 1)
    ensures Probes(3) + Announces(n) + [AnnounceOut] == Probes(3) + Announces(n + 1)
    ensures Probes(0) == [] && Probes(3) + Announces(0) == Probes(3)
  {
  }

  lemma StepStaysInStep(s: Responder, op: Op, i: nat, sent: seq<Event>)
    requires Fits(op, |s.table|) && i < |s.table| && InStep(s.table[i], sent)
    requires forall j :: 0 <= j < |s.table| ==> s.table[j].state != ProbePartialSent
    ensures InStep(Apply(s, op).table[i], Sent(sent, EventAt(s, op, i)))
  {
    OneMore(s.table[i].numSent);
    OneMore(0);
  }

  /// Over every run an entry becomes active only after exactly three probes and then exactly
  /// three announcements since its last conflict, start or registration; in each state the
  /// count so far is exact, and no entry is ever left half way through a probe.
  lemma {:induction false} ClaimDiscipline(s: Responder, ops: seq<Op>, i: nat)
    requires forall j :: 0 <= j < |s.table| ==> s.table[j].state == Unused
    requires (forall op :: op in ops ==> Fits(op, |s.table|)) && i < |s.table|
    ensures InStep(Run(s, ops).table[i], SentBy(s, ops, i))
    ensures Run(s, ops).table[i].state == Active ==> SentBy(s, ops, i) == Probes(3) + Announces(3)
  {
    if ops != [] {
      var before := ops[..|ops| - 1];
      forall j | 0 <= j < |s.table|
        ensures InStep(Run(s, before).table[j], SentBy(s, before, j))
      {
        ClaimDiscipline(s, before, j);
      }
      StepStaysInStep(Run(s, before), ops[|ops| - 1], i, SentBy(s, before, i));
    }
  }

  // -------------------------------------------------------------- progress

  /// How many of the six packets of a claim an entry that waits for its turn has sent.
  function Stage(e: Entry): Option<nat> {
    if e.state == ProbeWait && e.numSent < 3 then Some(e.numSent)
    else if e.state == AnnounceWait && e.numSent < 3 then Some(3 + e.numSent)
    else if e.state == Active then Some(6)
    else None
  }

  /// A transmission that serves entry `i`, and a poll after its timeout.
  datatype Round = Round(probeFits: seq<bool>, answerFits: seq<bool>, now: nat, later: nat)

  predicate Serves(r: Round, s: Responder, i: nat)
    requires i < |s.table|
  {
    && s.started != 1 && |r.probeFits| == |r.answerFits| == |s.table|
    && r.probeFits[i] && r.answerFits[i]
    && (s.table[i].state == AnnounceWait ==> !AnyProbe(s.table, r.probeFits))
    && TimeAfter(r.later, SendAll(s.table, r.probeFits, r.answerFits, r.now)[i].timeout)
  }

  function AfterRound(s: Responder, r: Round): (m: Responder)
    requires |r.probeFits| == |r.answerFits| == |s.table|
    ensures |m.table| == |s.table|
  {
    Apply(Apply(s, Send(r.probeFits, r.answerFits, r.now)), Poll(r.later))
  }

  predicate AllServe(rounds: seq<Round>, s: Responder, i: nat)
    requires i < |s.table|
    decreases |rounds|
  {
    rounds != [] ==> Serves(rounds[0], s, i) && AllServe(rounds[1..], AfterRound(s, rounds[0]), i)
  }

  function AfterRounds(s: Responder, rounds: seq<Round>, i: nat): (m: Responder)
    requires i < |s.table| && AllServe(rounds, s, i)
    ensures |m.table| == |s.table|
    decreases |rounds|
  {
    if rounds == [] then s else AfterRounds(AfterRound(s, rounds[0]), rounds[1..], i)
  }

  lemma RoundAdvances(s: Responder, r: Round, i: nat)
    requires i < |s.table| && Serves(r, s, i) && Stage(s.table[i]).Some? && Stage(s.table[i]).value < 6
    ensures Stage(AfterRound(s, r).table[i]) == Some(Stage(s.table[i]).value + 1)
    ensures AfterRound(s, r).started != 1
  {
    var e := s.table[i];
    if e.state == ProbeWait {
      assert SendsProbe(s.table[i], r.probeFits[i]);
    }
  }

  lemma {:induction false} RoundsAdvance(s: Responder, rounds: seq<Round>, i: nat)
    requires i < |s.table| && AllServe(rounds, s, i)
    requires Stage(s.table[i]).Some? && Stage(s.table[i]).value + |rounds| <= 6
    ensures Stage(AfterRounds(s, rounds, i).table[i]) == Some(Stage(s.table[i]).value + |rounds|)
    decreases |rounds|
  {
    if rounds != [] {
      RoundAdvances(s, rounds[0], i);
      RoundsAdvance(AfterRound(s, rounds[0]), rounds[1..], i);
    }
  }

  /// A claim nobody contests takes six rounds, no more and no fewer.
  lemma UncontestedClaim(s: Responder, rounds: seq<Round>, i: nat)
    requires i < |s.table| && AllServe(rounds, s, i) && |rounds| <= 6
    requires s.table[i].state == ProbeWait && s.table[i].numSent == 0
    ensures AfterRounds(s, rounds, i).table[i].state == Active <==> |rounds| == 6
  {
    RoundsAdvance(s, rounds, i);
  }

  /// An entry registered after the responder has started is not claimed until the interface
  /// comes up again.
  lemma {:induction false} LateEntryWaits(s: Responder, ops: seq<Op>, i: nat)
    requires (forall op :: op in ops ==> Fits(op, |s.table|)) && i < |s.table|
    requires s.started != 1 && s.table[i].state == Disabled && InterfaceUp !in ops
    ensures Run(s, ops).table[i].state == Disabled && Run(s, ops).started != 1
  {
    if ops != [] {
      LateEntryWaits(s, ops[..|ops| - 1], i);
    }
  }

  // ------------------------------------------- answering only what is owned

  /// Only active entries have answers waiting.
  predicate Quiet(t: Table) {
    forall i :: 0 <= i < |t| && t[i].pending != {} ==> t[i].state == Active
  }

  /// The step takes an active entry with answers waiting back to probing.
  predicate UnseatsPending(s: Responder, op: Op, i: nat)
    requires Fits(op, |s.table|) && i < |s.table|
  {
    && s.table[i].state == Active && s.table[i].pending != {}
    && match op
       case Response(v) => v[i] == Conflicts
       case Poll(now) => s.started == 1
       case _ => false
  }

  lemma QuietAt(s: Responder, op: Op, i: nat)
    requires Fits(op, |s.table|) && i < |s.table| && Quiet(s.table)
    ensures var e := Apply(s, op).table[i];
            (e.pending != {} ==> e.state == Active) <==> !UnseatsPending(s, op, i)
  {
  }

  /// An entry that is not active keeps silent about its name, except after a conflict or a
  /// restart has hit it while answers were waiting: those are not withdrawn.
  lemma QuietIff(s: Responder, op: Op)
    requires Fits(op, |s.table|) && Quiet(s.table)
    ensures Quiet(Apply(s, op).table) <==> forall i :: 0 <= i < |s.table| ==> !UnseatsPending(s, op, i)
  {
    forall i | 0 <= i < |s.table|
      ensures var e := Apply(s, op).table[i];
              (e.pending != {} ==> e.state == Active) <==> !UnseatsPending(s, op, i)
    {
      QuietAt(s, op, i);
    }
  }

  /// A responder with one entry.
  const ONE_ENTRY := Responder([NO_ENTRY], 0)

  predicate AllFit(ops: seq<Op>) {
    forall op :: op in ops ==> Fits(op, 1)
  }

  /// After `ops` its uncontested claim has sent `n` packets and waits for its turn.
  predicate AtStage(ops: seq<Op>, n: nat) {
    && AllFit(ops)
    && var s := Run(ONE_ENTRY, ops);
       && s.started == 2 && |s.table| == 1 && s.table[0].pending == {} && s.table[0].counter == 0
       && Stage(s.table[0]) == Some(n)
  }

  lemma RunTwoMore(ops: seq<Op>, a: Op, b: Op)
    requires AllFit(ops) && Fits(a, 1) && Fits(b, 1)
    ensures AllFit(ops + [a, b])
    ensures Run(ONE_ENTRY, ops + [a, b]) == Apply(Apply(Run(ONE_ENTRY, ops), a), b)
  {
    var all := ops + [a, b];
    assert all[..|all| - 1] == ops + [a] && (ops + [a])[..|ops|] == ops;
  }

  lemma StageIsReached(ops: seq<Op>, n: nat) returns (all: seq<Op>)
    requires AtStage(ops, n) && n < 6
    ensures AtStage(all, n + 1)
  {
    var send, poll := Send([true], [true], 0), Poll(200_000_000);
    var s := Run(ONE_ENTRY, ops);
    var r := Round([true], [true], 0, 200_000_000);
    var sent := SendAll(s.table, [true], [true], 0)[0];
    assert sent.timeout == 25_000_000 || sent.timeout == 100_000_000;
    assert TimeAfter(200_000_000, 25_000_000) && TimeAfter(200_000_000, 100_000_000);
    RoundAdvances(s, r, 0);
    RunTwoMore(ops, send, poll);
    all := ops + [send, poll];
  }

  lemma {:induction false} StagesAreReached(n: nat) returns (ops: seq<Op>)
    requires n <= 6
    ensures AtStage(ops, n)
  {
    if n == 0 {
      RunTwoMore([Registration([], [], false)], InterfaceUp, Poll(0));
      ops := [Registration([], [], false), InterfaceUp, Poll(0)];
      assert ops == [Registration([], [], false)] + [InterfaceUp, Poll(0)];
      assert Run(ONE_ENTRY, [Registration([], [], false)])
          == Apply(Run(ONE_ENTRY, []), Registration([], [], false));
    } else {
      var before := StagesAreReached(n - 1);
      ops := StageIsReached(before, n - 1);
    }
  }

  /// A conflict with an answer waiting does happen: the responder then has an answer pending
  /// for a name it is probing for.
  lemma PendingSurvivesConflict() returns (ops: seq<Op>, op: Op)
    ensures AllFit(ops) && Fits(op, 1)
    ensures var s := Run(ONE_ENTRY, ops);
            && Quiet(s.table) && UnseatsPending(s, op, 0) && !Quiet(Apply(s, op).table)
            && Apply(s, op).table[0].state == ProbeWait
  {
    var claimed := StagesAreReached(6);
    var question: Op := Question([{HostRecord}]);
    op := Response([Conflicts]);
    ops := claimed + [question];
    assert ops[..|ops| - 1] == claimed;
    var s := Run(ONE_ENTRY, ops);
    assert s.table[0].pending == {HostRecord};
    assert HostRecord in Apply(s, op).table[0].pending && Apply(s, op).table[0].state == ProbeWait;
    QuietIff(s, op);
  }

  /// An entry takes up the questions asked of a name it owns, and a transmission with room answers
  /// all of them, once; an answer seen from somebody else, lasting long enough, answers in its stead.
  lemma QuestionsAreAnsweredOnce(e: Entry, asked: set<Record>, fits: bool, now: nat, v: Verdict)
    ensures QuestionEntry(e, asked).pending == e.pending + if e.state == Active then asked else {}
    ensures QuestionEntry(e, asked).(pending := e.pending) == e
    ensures var f := AnnounceEntry(e, fits, now);
            && (fits && e.state != Unused ==> f.pending == {} && !SendsAnswer(f, fits) && f.state != AnnounceWait)
            && (!fits || e.state == Unused ==> f == e)
            && (e.pending != {} && fits && e.state != Unused ==> SendsAnswer(e, fits))
    ensures e.state == Active && v.SameData? ==>
              ResponseEntry(e, v) == e.(pending := if v.suppress then {} else e.pending)
  {
  }

  /// Time moves an entry only past its timeout: 250 ms after a probe, 2.5 s from the fifteenth
  /// renaming on, one second after an announcement (the timer counts in units of 10 ns).
  lemma NothingBeforeTheTimeout(e: Entry, fits: bool, now: nat, later: nat)
    requires e.state == ProbeWait || e.state == AnnounceWait
    ensures var f := if e.state == ProbeWait then ProbeEntry(e, fits, now) else AnnounceEntry(e, fits, now);
            var wait := if e.state == AnnounceWait then 100_000_000 else if e.counter < 15 then 25_000_000 else 250_000_000;
            if fits then
              && f.numSent == e.numSent + 1 && f.timeout == (now + wait) % TWO32
              && (TickEntry(f, later) != f <==> TimeAfter(later, f.timeout))
            else f == e
  {
  }

  // ----------------------------------------------------------------- names

  /// The counter as it shows in the name: nothing, "-7", or " (7)" for a service.
  function Suffix(counter: nat, srv: bool): seq<Byte> {
    if counter == 0 then []
    else if srv then [32, 40] + Digits(counter) + [41]
    else [45] + Digits(counter)
  }

  /// `update_name`
  function NameOf(e: Entry): seq<Byte> {
    e.prefix + Suffix(e.counter, e.srv) + [DOT] + e.postfix
  }

  function Number(d: seq<Byte>): int {
    if d == [] then 0 else 10 * Number(d[..|d| - 1]) + d[|d| - 1] - DIGIT_0
  }

  lemma {:induction false} DigitsDetermine(x: nat)
    ensures Number(Digits(x)) == x
  {
    if x >= 10 {
      DivisionByTen(x);
      DigitsDetermine(Tenth(x));
      assert Digits(x)[..|Digits(x)| - 1] == Digits(Tenth(x));
    } else {
      assert Digits(x)[..0] == [];
    }
  }

  lemma CancelAround(p: seq<Byte>, a: seq<Byte>, b: seq<Byte>, q: seq<Byte>)
    requires p + a + q == p + b + q
    ensures a == b
  {
    assert |a| == |b|;
    assert a == (p + a + q)[|p|..|p| + |a|];
    assert b == (p + b + q)[|p|..|p| + |b|];
  }

  lemma SuffixesDiffer(c: nat, d: nat, srv: bool)
    requires Suffix(c, srv) == Suffix(d, srv)
    ensures c == d
  {
    DigitsDetermine(c);
    DigitsDetermine(d);
    if c != 0 && d != 0 {
      if srv {
        CancelAround([32, 40], Digits(c), Digits(d), [41]);
      } else {
        assert [45] + Digits(c) + [] == [45] + Digits(d) + [];
        CancelAround([45], Digits(c), Digits(d), []);
      }
    }
  }

  /// Different counts give different names, so an entry that keeps losing never comes back to
  /// a name it lost.
  lemma RenamingIsFresh(e: Entry, counter: nat)
    requires counter != e.counter
    ensures NameOf(e.(counter := counter)) != NameOf(e)
  {
    var f := e.(counter := counter);
    if NameOf(f) == NameOf(e) {
      var tail := [DOT] + e.postfix;
      assert NameOf(e) == e.prefix + Suffix(e.counter, e.srv) + tail;
      assert NameOf(f) == e.prefix + Suffix(counter, e.srv) + tail;
      CancelAround(e.prefix, Suffix(counter, e.srv), Suffix(e.counter, e.srv), tail);
      SuffixesDiffer(counter, e.counter, e.srv);
    }
  }

  /// A conflict renames an entry exactly when it was still probing: one that announced or owned
  /// its name probes for the same name again.
  lemma ConflictRenamesIff(e: Entry)
    requires e.state != Unused && e.state != Disabled
    ensures var f := ResponseEntry(e, Conflicts);
            && f.state == ProbeWait && f.numSent == 0
            && (NameOf(f) != NameOf(e) <==> Probing(e))
  {
    if Probing(e) {
      RenamingIsFresh(e, e.counter + 1);
    }
  }

  /// A lost tie-break renames an entry exactly when it was probing, and sends it back to the
  /// start of its claim.
  lemma TieBreakRenamesIff(e: Entry, loses: bool)
    ensures var f := AuthorityEntry(e, loses);
            && (NameOf(f) != NameOf(e) <==> Probing(e) && loses)
            && (NameOf(f) != NameOf(e) ==> f.state == ProbeWait && f.numSent == 0)
            && (NameOf(f) == NameOf(e) ==> f == e)
  {
    if Probing(e) && loses {
      RenamingIsFresh(e, e.counter + 1);
    }
  }

  /// The step takes the name of probing entry `i` away.
  predicate LosesName(s: Responder, op: Op, i: nat)
    requires Fits(op, |s.table|) && i < |s.table|
  {
    && Probing(s.table[i])
    && match op
       case Response(v) => v[i] == Conflicts
       case Authority(l) => l[i]
       case _ => false
  }

  lemma CounterCountsLosses(s: Responder, op: Op, i: nat)
    requires Fits(op, |s.table|) && i < |s.table| && !op.Registration?
    ensures var e, f := s.table[i], Apply(s, op).table[i];
            && f.prefix == e.prefix && f.postfix == e.postfix && f.srv == e.srv
            && f.counter == e.counter + if LosesName(s, op, i) then 1 else 0
  {
  }

  lemma {:induction false} CounterOnlyGrows(s: Responder, ops: seq<Op>, i: nat, k: nat, n: nat)
    requires (forall op :: op in ops ==> Fits(op, |s.table|) && !op.Registration?)
    requires i < |s.table| && k <= n <= |ops|
    ensures var e, f := Run(s, ops[..k]).table[i], Run(s, ops[..n]).table[i];
            && f.prefix == e.prefix && f.postfix == e.postfix && f.srv == e.srv && f.counter >= e.counter
  {
    if k < n {
      assert ops[..n][..n - 1] == ops[..n - 1] && ops[..n][n - 1] == ops[n - 1];
      CounterOnlyGrows(s, ops, i, k, n - 1);
      CounterCountsLosses(Run(s, ops[..n - 1]), ops[n - 1], i);
    }
  }

  /// Over runs without registration, whatever takes the name of an entry, a conflicting response
  /// or a lost tie-break, gives it one it has not had before; nothing else changes its name.
  lemma LosingGivesANewName(s: Responder, ops: seq<Op>, i: nat, n: nat)
    requires (forall op :: op in ops ==> Fits(op, |s.table|) && !op.Registration?)
    requires i < |s.table| && n < |ops|
    ensures var e, f := Run(s, ops[..n]).table[i], Run(s, ops[..n + 1]).table[i];
            if LosesName(Run(s, ops[..n]), ops[n], i) then
              forall k :: 0 <= k <= n ==> NameOf(f) != NameOf(Run(s, ops[..k]).table[i])
            else
              NameOf(f) == NameOf(e)
  {
    var f := Run(s, ops[..n + 1]).table[i];
    assert ops[..n + 1][..n] == ops[..n] && ops[..n + 1][n] == ops[n];
    CounterCountsLosses(Run(s, ops[..n]), ops[n], i);
    if LosesName(Run(s, ops[..n]), ops[n], i) {
      forall k | 0 <= k <= n
        ensures NameOf(f) != NameOf(Run(s, ops[..k]).table[i])
      {
        CounterOnlyGrows(s, ops, i, k, n);
        DifferentCounters(Run(s, ops[..k]).table[i], f);
      }
    }
  }

  lemma DifferentCounters(e: Entry, f: Entry)
    requires f.prefix == e.prefix && f.postfix == e.postfix && f.srv == e.srv && f.counter != e.counter
    ensures NameOf(f) != NameOf(e)
  {
    RenamingIsFresh(e, f.counter);
  }

  // ---------------------------------------------------------- registration

  /// A registration starts a claim afresh, under its own name and, for a service, in ".local"; no
  /// other entry changes.
  lemma RegistrationStartsAfresh(t: Table, prefix: seq<Byte>, postfix: seq<Byte>, srv: bool)
    ensures var i := SlotFor(t, prefix, postfix); var u := Register(t, prefix, postfix, srv);
            && |u| == |t| && (forall j :: 0 <= j < |t| && j != i ==> u[j] == t[j])
            && (i < |t| ==>
                 && u[i].state == Disabled && u[i].pending == {} && u[i].srv == srv
                 && NameOf(u[i]) == prefix + [DOT] + postfix + (if srv then DOT_LOCAL else []))
            && (i == |t| <==> forall j :: 0 <= j < |t| ==> t[j].state != Unused && !SameName(t[j], prefix, postfix))
  {
    var i := SlotFor(t, prefix, postfix);
    if i < |t| {
      var u := Register(t, prefix, postfix, srv);
      assert NameOf(u[i]) == prefix + [] + [DOT] + u[i].postfix;
      assert prefix + [] == prefix && postfix + [] == postfix;
    }
  }

  /// Registering the same name again uses its entry again for a host and another one for a
  /// service, because the type of a service is compared before ".local" is added.
  lemma SecondRegistrationIff(t: Table, prefix: seq<Byte>, postfix: seq<Byte>, srv: bool)
    ensures var i := SlotFor(t, prefix, postfix);
            i < |t| ==> (SlotFor(Register(t, prefix, postfix, srv), prefix, postfix) == i <==> !srv)
  {
    var i := SlotFor(t, prefix, postfix);
    if i < |t| {
      var u := Register(t, prefix, postfix, srv);
      if srv {
        assert |u[i].postfix| != |postfix|;
      } else {
        assert SameName(u[i], prefix, postfix);
        assert forall j :: 0 <= j < |t| && j != i ==> u[j] == t[j];
      }
    }
  }

  // ------------------------------------------------------------ the module

  class Mdns {
    const table: array<Entry>
    var started: nat

    /// `mdns_init`
    constructor (n: nat)
      ensures fresh(table) && table.Length == n && started == 0
      ensures forall i :: 0 <= i < n ==> table[i].state == Unused
    {
      table := new Entry[n](_ => NO_ENTRY);
      started := 0;
    }

    method StartEntries()
      modifies this`started, table
      ensures started == 2 && table[..] == StartAll(old(table[..]))
    {
      var i := 0;
      while i < table.Length
        invariant 0 <= i <= table.Length
        invariant forall k :: 0 <= k < table.Length ==> table[k] == if k < i then StartEntry(old(table[k])) else old(table[k])
      {
        if table[i].state != Unused {
          table[i] := table[i].(state := ProbeWait, numSent := 0);
        }
        i := i + 1;
      }
      started := 2;
    }

    /// The number of questions; the entries asked about go through `PROBE_PARTIAL_SENT`.
    method SendProbes(fits: seq<bool>, now: nat) returns (numProbes: nat)
      requires |fits| == table.Length
      modifies table
      ensures table[..] == ProbeAll(old(table[..]), fits, now)
      ensures numProbes > 0 <==> AnyProbe(old(table[..]), fits)
    {
      numProbes := 0;
      var i := 0;
      while i < table.Length
        invariant 0 <= i <= table.Length
        invariant forall k :: 0 <= k < table.Length ==>
                    table[k] == if k < i && SendsProbe(old(table[k]), fits[k]) then old(table[k]).(state := ProbePartialSent) else old(table[k])
        invariant numProbes > 0 <==> exists k :: 0 <= k < i && SendsProbe(old(table[k]), fits[k])
      {
        if table[i].state == ProbeWait {
          if fits[i] {
            table[i] := table[i].(state := ProbePartialSent);
            numProbes := numProbes + 1;
          }
        }
        i := i + 1;
      }
      SettleProbes(now);
    }

    method SettleProbes(now: nat)
      modifies table
      ensures table[..] == ProbeAll(old(table[..]), seq(table.Length, _ => false), now)
    {
      var i := 0;
      while i < table.Length
        invariant 0 <= i <= table.Length
        invariant forall k :: 0 <= k < table.Length ==>
                    table[k] == if k < i then ProbeEntry(old(table[k]), false, now) else old(table[k])
      {
        if table[i].state == ProbePartialSent {
          var wait := if table[i].counter < 15 then 250 * 1000 * 100 else 2500 * 1000 * 100;
          table[i] := table[i].(numSent := table[i].numSent + 1, state := ProbeSent, timeout := (now + wait) % TWO32);
        }
        i := i + 1;
      }
    }

    method SendResponses(fits: seq<bool>, now: nat) returns (numAnswers: nat)
      requires |fits| == table.Length
      modifies table
      ensures table[..] == AnnounceAll(old(table[..]), fits, now)
      ensures numAnswers > 0 <==> exists i :: 0 <= i < table.Length && SendsAnswer(old(table[i]), fits[i])
    {
      numAnswers := 0;
      var i := 0;
      while i < table.Length
        invariant 0 <= i <= table.Length
        invariant forall k :: 0 <= k < table.Length ==>
                    table[k] == if k < i then AnnounceEntry(old(table[k]), fits[k], now) else old(table[k])
        invariant numAnswers > 0 <==> exists k :: 0 <= k < i && SendsAnswer(old(table[k]), fits[k])
      {
        if table[i].state != Unused && fits[i] {
          if table[i].state == AnnounceWait {
            numAnswers := numAnswers + if table[i].srv then 3 else 1;
            table[i] := table[i].(numSent := table[i].numSent + 1, state := AnnounceSent, timeout := (now + 1000 * 1000 * 100) % TWO32);
          }
          numAnswers := numAnswers + |table[i].pending|;
          table[i] := table[i].(pending := {});
        }
        i := i + 1;
      }
    }

    method MdnsSend(probeFits: seq<bool>, answerFits: seq<bool>, now: nat)
      requires |probeFits| == |answerFits| == table.Length
      modifies table
      ensures table[..] == SendAll(old(table[..]), probeFits, answerFits, now)
    {
      var probes := SendProbes(probeFits, now);
      if probes == 0 {
        var answers := SendResponses(answerFits, now);
      }
    }

    /// True when an entry has become active.
    method Periodic(now: nat) returns (active: bool)
      modifies this`started, table
      ensures Responder(table[..], started) == Apply(Responder(old(table[..]), old(started)), Poll(now))
      ensures active <==>
                exists i :: 0 <= i < table.Length && old(table[i]).state != Active && table[i].state == Active
    {
      if started == 1 {
        StartEntries();
      }
      active := false;
      ghost var before := table[..];
      var i := 0;
      while i < table.Length
        invariant 0 <= i <= table.Length && started == if old(started) == 1 then 2 else old(started)
        invariant forall k :: 0 <= k < table.Length ==> table[k] == if k < i then TickEntry(before[k], now) else before[k]
        invariant active <==> exists k :: 0 <= k < i && before[k].state != Active && table[k].state == Active
      {
        var e := table[i];
        if e.state == ProbeSent {
          if TimeAfter(now, e.timeout) {
            table[i] := if e.numSent < 3 then e.(state := ProbeWait) else e.(state := AnnounceWait, numSent := 0);
          }
        } else if e.state == AnnounceSent {
          if TimeAfter(now, e.timeout) {
            if e.numSent < 3 {
              table[i] := e.(state := AnnounceWait);
            } else {
              table[i] := e.(state := Active);
              active := true;
            }
          }
        }
        i := i + 1;
      }
      assert table[..] == TickAll(before, now);
    }

    /// True when a name was lost.
    method HandleResponse(v: seq<Verdict>) returns (lost: bool)
      requires |v| == table.Length
      modifies table
      ensures table[..] == ResponseAll(old(table[..]), v)
      ensures lost <==> exists i :: 0 <= i < table.Length && Probing(old(table[i])) && v[i] == Conflicts
    {
      lost := false;
      var i := 0;
      while i < table.Length
        invariant 0 <= i <= table.Length
        invariant forall k :: 0 <= k < table.Length ==>
                    table[k] == if k < i then ResponseEntry(old(table[k]), v[k]) else old(table[k])
        invariant lost <==> exists k :: 0 <= k < i && Probing(old(table[k])) && v[k] == Conflicts
      {
        if table[i].state != Disabled && table[i].state != Unused && v[i] != OtherName {
          if v[i] == Conflicts {
            if table[i].state == ProbeWait || table[i].state == ProbeSent {
              table[i] := table[i].(counter := table[i].counter + 1);
              lost := true;
            }
            table[i] := table[i].(state := ProbeWait, numSent := 0);
          } else if v[i].suppress {
            table[i] := table[i].(pending := {});
          }
        }
        i := i + 1;
      }
    }

    method HandleAuth(loses: seq<bool>) returns (lost: bool)
      requires |loses| == table.Length
      modifies table
      ensures table[..] == AuthorityAll(old(table[..]), loses)
      ensures lost <==> exists i :: 0 <= i < table.Length && Probing(old(table[i])) && loses[i]
    {
      lost := false;
      var i := 0;
      while i < table.Length
        invariant 0 <= i <= table.Length
        invariant forall k :: 0 <= k < table.Length ==>
                    table[k] == if k < i then AuthorityEntry(old(table[k]), loses[k]) else old(table[k])
        invariant lost <==> exists k :: 0 <= k < i && Probing(old(table[k])) && loses[k]
      {
        if table[i].state == ProbeWait || table[i].state == ProbeSent {
          if loses[i] {
            table[i] := table[i].(counter := table[i].counter + 1, state := ProbeWait, numSent := 0);
            lost := true;
          }
        }
        i := i + 1;
      }
    }

    method AddEntry(prefix: seq<Byte>, postfix: seq<Byte>, srv: bool)
      modifies table
      ensures table[..] == Register(old(table[..]), prefix, postfix, srv)
    {
      ghost var t := table[..];
      var i := 0;
      while i < table.Length && !SameName(table[i], prefix, postfix)
        invariant i <= table.Length && table[..] == t
        invariant NamedSlot(t, prefix, postfix, 0) == NamedSlot(t, prefix, postfix, i)
      {
        i := i + 1;
      }
      if i == table.Length {
        i := 0;
        while i < table.Length && table[i].state != Unused
          invariant i <= table.Length && table[..] == t && UnusedSlot(t, 0) == UnusedSlot(t, i)
        {
          i := i + 1;
        }
      }
      assert i == SlotFor(t, prefix, postfix);
      if i < table.Length {
        table[i] := RegisterEntry(table[i], prefix, postfix, srv);
      }
    }
  }
}
