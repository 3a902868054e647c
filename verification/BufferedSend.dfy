/// The transmit half of the buffered client: a char buffer with the cursors
/// tx_buf <= tx_prev_rdptr <= tx_rdptr <= tx_wrptr <= tx_end, compacted in place.

module BufferedSend {
  import opened Basics

  /// What the buffer stands for. `accepted` is every byte `xtcp_buffered_send` took so far;
  /// `prev` and `rd` are stream positions: [prev, rd) is the segment in flight, kept for
  /// retransmission, [rd, |accepted|) waits to be sent.
  datatype Tx = Tx(accepted: seq<Byte>, prev: nat, rd: nat, cap: nat, lowmark: int) {
    predicate Ok() {
      prev <= rd <= |accepted| && |accepted| - prev <= cap
    }

    /// `xtcp_buffered_send_buffer_remaining`
    function Free(): int {
      cap - (|accepted| - prev)
    }
  }

  datatype Queued = Queued(ok: bool, initSend: bool, pause: bool)

  function Enqueue(t: Tx, data: seq<Byte>): Tx {
    if t.Free() < |data| then t else t.(accepted := t.accepted + data)
  }

  function EnqueueResult(t: Tx, data: seq<Byte>): Queued {
    if t.Free() < |data| then Queued(false, false, false)
    else Queued(true, t.rd == |t.accepted|, t.Free() - |data| < t.lowmark)
  }

  /// The segment handed over for XTCP_SENT_DATA and XTCP_REQUEST_DATA.
  function NextSegment(t: Tx, mss: nat): seq<Byte>
    requires t.Ok()
  {
    t.accepted[t.rd..t.rd + Min(|t.accepted| - t.rd, mss)]
  }

  function Fetch(t: Tx, mss: nat): Tx
    requires t.Ok()
  {
    t.(prev := t.rd, rd := t.rd + |NextSegment(t, mss)|)
  }

  /// The segment handed over for XTCP_RESEND_DATA.
  function LastSegment(t: Tx): seq<Byte>
    requires t.Ok()
  {
    t.accepted[t.prev..t.rd]
  }

  /// Whether handing over the next segment lifts the pause of a nearly full buffer.
  predicate Unpauses(t: Tx, mss: nat)
    requires t.Ok()
  {
    t.Free() < t.lowmark <= t.Free() + |NextSegment(t, mss)|
  }

  // ------------------------------------------------------ runs of the client

  datatype Op = Send(data: seq<Byte>) | Handle(mss: nat) | Resend

  /// The client after some operations, with the segments its handler handed over.
  datatype History = History(tx: Tx, fetched: seq<seq<Byte>>, resent: seq<seq<Byte>>)

  function Last(ss: seq<seq<Byte>>): seq<Byte> {
    if ss == [] then [] else ss[|ss| - 1]
  }

  predicate Consistent(h: History) {
    && h.tx.Ok()
    && Flatten(h.fetched) == h.tx.accepted[..h.tx.rd]
    && LastSegment(h.tx) == Last(h.fetched)
  }

  function StepClient(h: History, op: Op): (r: History)
    requires h.tx.Ok()
    ensures r.tx.Ok()
  {
    match op
    case Send(data) => h.(tx := Enqueue(h.tx, data))
    case Handle(mss) => h.(tx := Fetch(h.tx, mss), fetched := h.fetched + [NextSegment(h.tx, mss)])
    case Resend => h.(resent := h.resent + [LastSegment(h.tx)])
  }

  function RunClient(h: History, ops: seq<Op>): (r: History)
    requires h.tx.Ok()
    ensures r.tx.Ok()
    decreases |ops|
  {
    if ops == [] then h else RunClient(StepClient(h, ops[0]), ops[1..])
  }

  lemma EnqueueExtends(t: Tx, data: seq<Byte>)
    requires t.Ok()
    ensures var u := Enqueue(t, data);
            u.Ok() && u.accepted[..t.rd] == t.accepted[..t.rd] && LastSegment(u) == LastSegment(t)
  {
  }

  lemma FetchAdvances(t: Tx, mss: nat)
    requires t.Ok()
    ensures var u := Fetch(t, mss);
            && u.Ok() && LastSegment(u) == NextSegment(t, mss)
            && u.accepted[..u.rd] == t.accepted[..t.rd] + NextSegment(t, mss)
  {
  }

  lemma StepKeepsConsistent(h: History, op: Op)
    requires Consistent(h)
    ensures Consistent(StepClient(h, op))
  {
    match op {
      case Send(data) =>
        EnqueueExtends(h.tx, data);
      case Handle(mss) =>
        FetchAdvances(h.tx, mss);
        FlattenSnoc(h.fetched, NextSegment(h.tx, mss));
      case Resend =>
    }
  }

  /// Whatever was queued or refused in between, the segments handed over spell a prefix of
  /// the accepted bytes and a retransmission repeats the last one of them.
  lemma {:induction false} RunKeepsConsistent(h: History, ops: seq<Op>)
    requires Consistent(h)
    ensures Consistent(RunClient(h, ops))
    decreases |ops|
  {
    if ops != [] {
      StepKeepsConsistent(h, ops[0]);
      RunKeepsConsistent(StepClient(h, ops[0]), ops[1..]);
    }
  }

  lemma RetransmissionRepeatsLastSegment(cap: nat, lowmark: int, ops: seq<Op>)
    ensures var start := History(Tx([], 0, 0, cap, lowmark), [], []);
            var h := RunClient(start, ops);
            && Flatten(h.fetched) <= h.tx.accepted
            && StepClient(h, Resend).resent == h.resent + [Last(h.fetched)]
  {
    RunKeepsConsistent(History(Tx([], 0, 0, cap, lowmark), [], []), ops);
  }

  // ------------------------------------------------------------- accepting

  /// Bytes in flight, and bytes waiting behind them.
  function InFlight(t: Tx): int { t.rd - t.prev }
  function Waiting(t: Tx): int { |t.accepted| - t.rd }

  /// A write is accepted exactly if there is room beside what is retained and what waits; all of
  /// it then joins the stream, and sending is asked for exactly if nothing was waiting.
  lemma WriteIsAcceptedIff(t: Tx, data: seq<Byte>)
    requires t.Ok()
    ensures var q := EnqueueResult(t, data);
            && (q.ok <==> InFlight(t) + Waiting(t) + |data| <= t.cap)
            && Enqueue(t, data) == t.(accepted := t.accepted + if q.ok then data else [])
            && (q.initSend <==> q.ok && Waiting(t) == 0)
            && (q.pause <==> q.ok && t.cap - InFlight(t) - Waiting(t) - |data| < t.lowmark)
  {
    assert t.accepted + [] == t.accepted;
  }

  /// Writes one after the other, and whether all are accepted.
  function Written(t: Tx, writes: seq<seq<Byte>>): Tx
    decreases |writes|
  {
    if writes == [] then t else Written(Enqueue(t, writes[0]), writes[1..])
  }

  predicate AllAccepted(t: Tx, writes: seq<seq<Byte>>)
    decreases |writes|
  {
    writes == [] || (EnqueueResult(t, writes[0]).ok && AllAccepted(Enqueue(t, writes[0]), writes[1..]))
  }

  /// Writes are all accepted exactly if together they fit, and are then one stream.
  lemma {:induction false} WritesAreAcceptedIff(t: Tx, writes: seq<seq<Byte>>)
    requires t.Ok()
    ensures AllAccepted(t, writes) <==> InFlight(t) + Waiting(t) + |Flatten(writes)| <= t.cap
    ensures AllAccepted(t, writes) ==> Written(t, writes) == t.(accepted := t.accepted + Flatten(writes))
    decreases |writes|
  {
    if writes == [] {
      assert t.accepted + [] == t.accepted;
    } else {
      WriteIsAcceptedIff(t, writes[0]);
      if EnqueueResult(t, writes[0]).ok {
        WritesAreAcceptedIff(Enqueue(t, writes[0]), writes[1..]);
        Associative(t.accepted, writes[0], Flatten(writes[1..]));
      }
    }
  }

  // ------------------------------------------------------ lifting the pause

  /// The handler reads the segment size of the connection anew at every call, and the window of
  /// the peer changes it. Handing over segments of at most these sizes, with nothing queued in
  /// between: does some call lift the pause?
  predicate DrainLifts(t: Tx, sizes: seq<nat>)
    requires t.Ok()
    decreases |sizes|
  {
    sizes != [] && (Unpauses(t, sizes[0]) || DrainLifts(Fetch(t, sizes[0]), sizes[1..]))
  }

  function Drained(t: Tx, sizes: seq<nat>): (r: Tx)
    requires t.Ok()
    ensures r.Ok()
    decreases |sizes|
  {
    if sizes == [] then t else Drained(Fetch(t, sizes[0]), sizes[1..])
  }

  function Sum(sizes: seq<nat>): nat {
    if sizes == [] then 0 else sizes[0] + Sum(sizes[1..])
  }

  /// Bytes handed over by the first `k` calls, and the space call `k` finds: what was in flight
  /// is free after the first call, what call `k` hands over only after call `k + 1`.
  function HandedOver(t: Tx, sizes: seq<nat>, k: nat): int
    requires k <= |sizes|
  {
    Min(Waiting(t), Sum(sizes[..k]))
  }

  function SpaceAt(t: Tx, sizes: seq<nat>, k: nat): int
    requires k <= |sizes|
  {
    if k == 0 then t.Free() else t.Free() + InFlight(t) + HandedOver(t, sizes, k - 1)
  }

  /// Call `k` finds the mark above the space it has and within the segment it hands over.
  predicate LiftsAt(t: Tx, sizes: seq<nat>, k: nat)
    requires k < |sizes|
  {
    var segment := HandedOver(t, sizes, k + 1) - HandedOver(t, sizes, k);
    SpaceAt(t, sizes, k) < t.lowmark <= SpaceAt(t, sizes, k) + segment
  }

  lemma LiftsLater(t: Tx, sizes: seq<nat>, k: nat)
    requires t.Ok() && 0 < k < |sizes|
    ensures LiftsAt(t, sizes, k) <==> LiftsAt(Fetch(t, sizes[0]), sizes[1..], k - 1)
  {
    assert sizes[..k + 1][1..] == sizes[1..][..k];
    assert sizes[..k][1..] == sizes[1..][..k - 1];
    if k > 1 {
      assert sizes[..k - 1][1..] == sizes[1..][..k - 2];
    } else {
      assert sizes[..1] == [sizes[0]] && Sum(sizes[..1]) == sizes[0] + Sum([]);
    }
  }

  lemma LiftsFirst(t: Tx, sizes: seq<nat>)
    requires t.Ok() && sizes != []
    ensures LiftsAt(t, sizes, 0) <==> Unpauses(t, sizes[0])
  {
    assert sizes[..1] == [sizes[0]] && Sum(sizes[..1]) == sizes[0] + Sum([]);
  }

  /// The low-water test counts the new segment where the space freed is the old one's. The
  /// pause is lifted exactly if some call finds the mark between the space it has and the
  /// same with the segment it hands over, whatever the sizes.
  lemma {:induction false} DrainLiftsIff(t: Tx, sizes: seq<nat>)
    requires t.Ok()
    ensures DrainLifts(t, sizes) <==> exists k :: 0 <= k < |sizes| && LiftsAt(t, sizes, k)
    decreases |sizes|
  {
    if sizes != [] {
      var u, rest := Fetch(t, sizes[0]), sizes[1..];
      DrainLiftsIff(u, rest);
      LiftsFirst(t, sizes);
      if Unpauses(t, sizes[0]) {
        assert LiftsAt(t, sizes, 0);
      } else if k :| 0 <= k < |rest| && LiftsAt(u, rest, k) {
        LiftsLater(t, sizes, k + 1);
      } else {
        forall k | 0 <= k < |sizes|
          ensures !LiftsAt(t, sizes, k)
        {
          if k > 0 {
            LiftsLater(t, sizes, k);
            assert !LiftsAt(u, rest, k - 1);
          }
        }
      }
    }
  }

  /// The call at which the space of a paused buffer passes the mark.
  lemma {:induction false} CrossingCall(t: Tx, sizes: seq<nat>, n: nat) returns (k: nat)
    requires t.Ok() && n <= |sizes| && t.Free() < t.lowmark <= SpaceAt(t, sizes, n)
    ensures k < n && SpaceAt(t, sizes, k) < t.lowmark <= SpaceAt(t, sizes, k + 1)
  {
    if t.lowmark <= SpaceAt(t, sizes, n - 1) {
      k := CrossingCall(t, sizes, n - 1);
    } else {
      k := n - 1;
    }
  }

  /// A pause that is not lifted although the space passes the mark was missed at a call that
  /// handed over less than it freed.
  lemma MissedOnlyByShorterSegment(t: Tx, sizes: seq<nat>) returns (k: nat)
    requires t.Ok() && t.Free() < t.lowmark <= SpaceAt(t, sizes, |sizes|) && !DrainLifts(t, sizes)
    ensures k < |sizes| && SpaceAt(t, sizes, k) < t.lowmark <= SpaceAt(t, sizes, k + 1)
    ensures HandedOver(t, sizes, k + 1) - HandedOver(t, sizes, k) < SpaceAt(t, sizes, k + 1) - SpaceAt(t, sizes, k)
  {
    k := CrossingCall(t, sizes, |sizes|);
    DrainLiftsIff(t, sizes);
    assert !LiftsAt(t, sizes, k);
  }

  predicate AllOfSize(sizes: seq<nat>, mss: nat) {
    forall k :: 0 <= k < |sizes| ==> sizes[k] == mss
  }

  lemma {:induction false} NothingToLift(t: Tx, sizes: seq<nat>)
    requires t.Ok() && t.lowmark <= t.Free()
    ensures !DrainLifts(t, sizes)
    decreases |sizes|
  {
    if sizes != [] {
      NothingToLift(Fetch(t, sizes[0]), sizes[1..]);
    }
  }

  /// With one segment size throughout, draining a paused buffer completely lifts the pause
  /// exactly when the first call finds the mark within the segment it hands over, or the mark
  /// lies above the space the segment in flight frees and at least `mss` below the top.
  lemma {:induction false} FixedSizeLiftsIff(t: Tx, mss: nat, sizes: seq<nat>)
    requires t.Ok() && mss > 0 && t.Free() < t.lowmark
    requires AllOfSize(sizes, mss) && Drained(t, sizes).prev == |t.accepted|
    ensures DrainLifts(t, sizes) <==>
            || t.lowmark <= t.Free() + Min(Waiting(t), mss)
            || t.Free() + InFlight(t) < t.lowmark <= t.cap - mss
    decreases |sizes|
  {
    if sizes != [] {
      var u := Fetch(t, mss);
      assert u.Free() == t.Free() + InFlight(t) && InFlight(u) == Min(Waiting(t), mss);
      if u.Free() < u.lowmark {
        FixedSizeLiftsIff(u, mss, sizes[1..]);
      } else {
        NothingToLift(u, sizes[1..]);
      }
    }
  }

  /// For one size it is enough that the mark is a whole segment below the capacity; a higher
  /// one depends on the buffer the pause is asked in.
  lemma LowMarkIsLiftedIff(t: Tx, mss: nat, sizes: seq<nat>)
    requires t.Ok() && mss > 0 && t.Free() < t.lowmark && InFlight(t) <= mss
    requires AllOfSize(sizes, mss) && Drained(t, sizes).prev == |t.accepted|
    ensures DrainLifts(t, sizes) <==>
            t.lowmark <= t.cap - mss || t.lowmark <= t.Free() + Min(Waiting(t), mss)
  {
    FixedSizeLiftsIff(t, mss, sizes);
  }

  /// A buffer that asks for a pause and then drains completely without the pause being lifted.
  lemma PauseMayNeverBeLifted() returns (data: seq<Byte>, sizes: seq<nat>)
    ensures var t0 := Tx([], 0, 0, 10, 9);
            var t1 := Enqueue(t0, data);
            && EnqueueResult(t0, data).ok && EnqueueResult(t0, data).pause
            && Drained(t1, sizes).prev == |data| && AllOfSize(sizes, 4) && !DrainLifts(t1, sizes)
  {
    data := [1, 2, 3, 4, 5, 6, 7, 8];
    sizes := [4, 4, 4];
    var t1 := Tx(data, 0, 0, 10, 9);
    assert Enqueue(Tx([], 0, 0, 10, 9), data) == t1;
    assert Fetch(t1, 4) == t1.(rd := 4);
    assert Fetch(t1.(rd := 4), 4) == t1.(prev := 4, rd := 8);
    assert Fetch(t1.(prev := 4, rd := 8), 4) == t1.(prev := 8, rd := 8);
    DrainedByThree(t1, 4, 4, 4);
    FixedSizeLiftsIff(t1, 4, sizes);
  }

  lemma DrainedByThree(t: Tx, a: nat, b: nat, c: nat)
    requires t.Ok()
    ensures Drained(t, [a, b, c]) == Fetch(Fetch(Fetch(t, a), b), c)
  {
    assert [a, b, c][1..] == [b, c] && [b, c][1..] == [c] && [c][1..] == [];
    assert Drained(Fetch(Fetch(t, a), b), [c]) == Drained(Fetch(Fetch(Fetch(t, a), b), c), []);
    assert Drained(Fetch(t, a), [b, c]) == Drained(Fetch(Fetch(t, a), b), [c]);
  }

  /// A mark that is a whole segment below the capacity at the start is no guarantee when the
  /// peer then shrinks the segments: the first two bytes of `data` are in flight, and the rest
  /// goes out byte by byte.
  lemma ShrinkingSegmentsMissTheMark(data: seq<Byte>) returns (sizes: seq<nat>)
    requires |data| == 4
    ensures var t0 := Tx([], 0, 0, 5, 3);
            var t := Fetch(Enqueue(t0, data), 2);
            && EnqueueResult(t0, data).pause && t.lowmark <= t.cap - 2
            && DrainLifts(t, [2, 2]) && Drained(t, [2, 2]).prev == 4
            && Drained(t, sizes).prev == 4 && !DrainLifts(t, sizes)
  {
    var t := Tx(data, 0, 2, 5, 3);
    assert Enqueue(Tx([], 0, 0, 5, 3), data) == Tx(data, 0, 0, 5, 3);
    assert Fetch(Tx(data, 0, 0, 5, 3), 2) == t;
    assert Fetch(t, 2) == t.(prev := 2, rd := 4);
    assert Fetch(t.(prev := 2, rd := 4), 2) == t.(prev := 4, rd := 4);
    assert Unpauses(t, 2);
    assert [2, 2][1..] == [2] && [2][1..] == [];
    assert Drained(t, [2, 2]) == Drained(t.(prev := 2, rd := 4), [2]) == Drained(t.(prev := 4, rd := 4), []);
    sizes := [1, 1, 1];
    assert Fetch(t, 1) == t.(prev := 2, rd := 3);
    assert Fetch(t.(prev := 2, rd := 3), 1) == t.(prev := 3, rd := 4);
    assert Fetch(t.(prev := 3, rd := 4), 1) == t.(prev := 4, rd := 4);
    DrainedByThree(t, 1, 1, 1);
    NothingToLift(t.(prev := 2, rd := 3), [1, 1]);
    assert !Unpauses(t, 1) && sizes[1..] == [1, 1];
  }

  // ---------------------------------------------------------- the real buffer

  /// `memmove` towards the front of the buffer.
  method MoveDown(a: array<Byte>, src: nat, n: nat)
    requires src + n <= a.Length
    modifies a
    ensures forall k :: 0 <= k < n ==> a[k] == old(a[src + k])
    ensures forall k :: n <= k < a.Length ==> a[k] == old(a[k])
  {
    var i := 0;
    while i < n
      invariant i <= n
      invariant forall k :: 0 <= k < i ==> a[k] == old(a[src + k])
      invariant forall k :: i <= k < a.Length ==> a[k] == old(a[k])
    {
      a[i] := a[src + i];
      i := i + 1;
    }
  }

  /// `memcpy` of `data` to index `at`.
  method CopyIn(a: array<Byte>, at: nat, data: seq<Byte>)
    requires at + |data| <= a.Length
    modifies a
    ensures forall k :: at <= k < at + |data| ==> a[k] == data[k - at]
    ensures forall k :: 0 <= k < at ==> a[k] == old(a[k])
  {
    var i := 0;
    while i < |data|
      invariant i <= |data|
      invariant forall k :: at <= k < at + i ==> a[k] == data[k - at]
      invariant forall k :: 0 <= k < at ==> a[k] == old(a[k])
    {
      a[at + i] := data[i];
      i := i + 1;
    }
  }

  class TxBuffer {
    const buf: array<Byte>
    const lowmark: int
    var prev: nat
    var rd: nat
    var wr: nat
    ghost var accepted: seq<Byte>

    ghost predicate Valid()
      reads this, buf
    {
      && prev <= rd <= wr <= buf.Length
      && wr - prev <= |accepted|
      && forall k :: prev <= k < wr ==> buf[k] == accepted[|accepted| - wr + k]
    }

    ghost function Value(): (t: Tx)
      requires Valid()
      reads this, buf
      ensures t.Ok()
    {
      Tx(accepted, |accepted| - (wr - prev), |accepted| - (wr - rd), buf.Length, lowmark)
    }

    /// `xtcp_buffered_set_tx_buffer`
    constructor (b: array<Byte>, low: int)
      ensures Valid() && buf == b && Value() == Tx([], 0, 0, b.Length, low)
    {
      buf, lowmark := b, low;
      prev, rd, wr := 0, 0, 0;
      accepted := [];
    }

    method Compact()
      requires Valid()
      modifies this`prev, this`rd, this`wr, buf
      ensures Valid() && Value() == old(Value())
      ensures prev == 0 && wr == old(wr) - old(prev)
    {
      var remaining := wr - prev;
      MoveDown(buf, prev, remaining);
      wr := wr - prev;
      rd := rd - prev;
      prev := 0;
    }

    /// `xtcp_buffered_send`
    method Send(data: seq<Byte>) returns (r: Queued)
      requires Valid()
      modifies this, buf
      ensures Valid()
      ensures Value() == Enqueue(old(Value()), data)
      ensures r == EnqueueResult(old(Value()), data)
      ensures r.ok <==> |data| <= buf.Length - (old(wr) - old(prev))
      ensures accepted == old(accepted) + if r.ok then data else []
      ensures r.initSend <==> r.ok && old(rd) == old(wr)
    {
      var spaceLeft := buf.Length - wr;
      if spaceLeft < |data| {
        spaceLeft := spaceLeft + prev;
        Compact();
      }
      if spaceLeft < |data| {
        return Queued(false, false, false);
      }
      Append(data);
      var initSend := rd == wr - |data|;
      spaceLeft := spaceLeft - |data| + prev;
      r := Queued(true, initSend, spaceLeft < lowmark);
    }

    method Append(data: seq<Byte>)
      requires Valid() && wr + |data| <= buf.Length
      modifies this`wr, this`accepted, buf
      ensures Valid() && wr == old(wr) + |data|
      ensures accepted == old(accepted) + data
    {
      CopyIn(buf, wr, data);
      wr := wr + |data|;
      accepted := accepted + data;
    }

    lemma BytesOf(from: nat, to: nat)
      requires Valid() && prev <= from <= to <= wr
      ensures buf[from..to] == accepted[|accepted| - wr + from..|accepted| - wr + to]
    {
      ghost var base := |accepted| - wr;
      forall k | from <= k < to
        ensures buf[k] == accepted[base + k]
      {
      }
    }

    /// As much as waits, up to one segment.
    method NextBytes(mss: nat) returns (segment: seq<Byte>)
      requires Valid()
      ensures segment == NextSegment(Value(), mss)
    {
      var len := wr - rd;
      if len > mss {
        len := mss;
      }
      BytesOf(rd, rd + len);
      segment := buf[rd..rd + len];
    }

    /// `xtcp_buffered_send_handler`: the bytes given to `xtcp_send`, and whether the
    /// connection is unpaused.
    method SendHandler(resend: bool, mss: nat) returns (segment: seq<Byte>, unpause: bool)
      requires Valid()
      modifies this
      ensures Valid()
      ensures segment == if resend then LastSegment(old(Value())) else NextSegment(old(Value()), mss)
      ensures Value() == if resend then old(Value()) else Fetch(old(Value()), mss)
      ensures unpause <==> !resend && Unpauses(old(Value()), mss)
    {
      if resend {
        BytesOf(prev, rd);
        return buf[prev..rd], false;
      }
      var spaceLeft := (buf.Length - wr) + prev;
      segment := NextBytes(mss);
      var len := |segment|;
      unpause := spaceLeft < lowmark && spaceLeft + len >= lowmark;
      prev := rd;
      rd := rd + len;
    }
  }
}
