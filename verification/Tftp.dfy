/// The TFTP receiver, `tftp_process_packet` and the server loop that calls it, against a sender
/// that follows section 2 of RFC 1350, over a network that loses, duplicates and reorders packets.

module Tftp {
  import opened Basics

  const TFTP_BLOCK_SIZE: nat := 512
  const TFTP_MIN_PKT_SIZE: nat := 4
  const TFTP_MAX_FILE_SIZE: nat := 128 * 1024
  const U16: nat := 0x1_0000

  datatype ErrorCode = NotDefined | AccessViolation | DiskFull | IllegalOperation

  datatype Packet =
    | Rrq
    | Wrq(filenameExpected: bool, octetMode: bool)
    | Data(blockNum: nat, data: seq<Byte>)
    | AckPacket
    | ErrorPacket
    | UnknownOpcode

  datatype Reply = Ack(blockNum: nat) | Error(code: ErrorCode) | CloseSilently

  /// The static `prev_block_num`, the flags reported to the caller, and every data block the
  /// application callback was given.
  datatype Receiver = Receiver(
    prev: nat, blockNum: nat, error: bool, complete: bool, passed: seq<seq<Byte>>)

  const IDLE := Receiver(0, 0, false, false, [])

  /// `tftp_process_packet`; `appFails` is the verdict of the application callback.
  function Process(r: Receiver, p: Packet, appFails: bool): (Receiver, Reply) {
    match p
    case Rrq => (r.(error := true), Error(NotDefined))
    case Wrq(filenameExpected, octetMode) =>
      if filenameExpected && octetMode then (r, Ack(0)) else (r.(error := true), Error(NotDefined))
    case Data(n, data) => ProcessData(r, n, data, appFails)
    case AckPacket => (r.(error := true), Error(IllegalOperation))
    case ErrorPacket => (r, CloseSilently)
    case UnknownOpcode => (r.(error := true), Error(IllegalOperation))
  }

  function ProcessData(r: Receiver, n: nat, data: seq<Byte>, appFails: bool): (Receiver, Reply) {
    var r := r.(complete := r.complete || |data| < TFTP_BLOCK_SIZE, blockNum := n);
    if n != r.prev + 1 then (r, Ack(n))
    else if n * TFTP_BLOCK_SIZE >= TFTP_MAX_FILE_SIZE then
      (r.(prev := n, error := true), Error(DiskFull))
    else
      var r := r.(prev := n, passed := r.passed + [data]);
      if appFails then (r.(error := true), Error(AccessViolation)) else (r, Ack(n))
  }

  /// TFTP_WAITING_FOR_DATA, TFTP_SENDING_ACK, and the two ends of a transfer: Failed is
  /// TFTP_WAITING_FOR_CONNECTION after `tftp_app_transfer_error`, Completed is TFTP_COMPLETE.
  datatype State = WaitingForData | SendingAck | Failed | Completed

  datatype Server = Server(rx: Receiver, state: State)

  /// XTCP_RECV_DATA: packets that find the server busy or done are dropped.
  function ReceiveData(v: Server, p: Packet, appFails: bool): (Server, Option<Reply>) {
    if v.state != WaitingForData then (v, None)
    else
      var (rx, reply) := Process(v.rx, p, appFails);
      if reply.CloseSilently? then (Server(rx, Failed), None) else (Server(rx, SendingAck), Some(reply))
  }

  /// XTCP_SENT_DATA, which does not look at the state unless the transfer is complete: an error
  /// is reported before completion is looked at.
  function SentData(v: Server): Server {
    if v.state == Completed then v
    else v.(state := if v.rx.error then Failed else if v.rx.complete then Completed else WaitingForData)
  }

  class Transfer {
    var prev: nat
    var blockNum: nat
    var error: bool
    var complete: bool
    ghost var passed: seq<seq<Byte>>

    ghost function Value(): Receiver
      reads this
    {
      Receiver(prev, blockNum, error, complete, passed)
    }

    constructor ()
      ensures Value() == IDLE
    {
      prev, blockNum, error, complete, passed := 0, 0, false, false, [];
    }

    /// The C function as it updates its statics and out-parameters.
    method ProcessPacket(p: Packet, appFails: bool) returns (reply: Reply)
      modifies this
      ensures (Value(), reply) == Process(old(Value()), p, appFails)
    {
      match p {
        case Rrq => reply := MakeError(NotDefined);
        case Wrq(filenameExpected, octetMode) =>
          if !filenameExpected {
            reply := MakeError(NotDefined);
          } else if !octetMode {
            reply := MakeError(NotDefined);
          } else {
            reply := Ack(0);
          }
        case Data(n, data) =>
          if TFTP_MIN_PKT_SIZE + |data| < TFTP_BLOCK_SIZE + TFTP_MIN_PKT_SIZE {
            complete := true;
          }
          blockNum := n;
          if n == prev + 1 {
            prev := n;
            if n * TFTP_BLOCK_SIZE >= TFTP_MAX_FILE_SIZE {
              reply := MakeError(DiskFull);
              return;
            }
            passed := passed + [data];
            if appFails {
              reply := MakeError(AccessViolation);
              return;
            }
          }
          reply := Ack(n);
        case AckPacket => reply := MakeError(IllegalOperation);
        case ErrorPacket => reply := CloseSilently;
        case UnknownOpcode => reply := MakeError(IllegalOperation);
      }
    }

    /// `tftp_make_error_pkt`
    method MakeError(code: ErrorCode) returns (reply: Reply)
      modifies this`error
      ensures error && reply == Error(code)
    {
      error := true;
      reply := Error(code);
    }
  }

  class TftpServer {
    const transfer: Transfer
    var state: State

    ghost function Value(): Server
      reads this, transfer
    {
      Server(transfer.Value(), state)
    }

    constructor ()
      ensures Value() == Server(IDLE, WaitingForData) && fresh(transfer)
    {
      transfer := new Transfer();
      state := WaitingForData;
    }

    /// The RECV_DATA case of `tftp_handle_event`.
    method HandleRecvData(p: Packet, appFails: bool) returns (reply: Option<Reply>)
      modifies this, transfer
      ensures (Value(), reply) == ReceiveData(old(Value()), p, appFails)
    {
      reply := None;
      if state == WaitingForData {
        var answer := transfer.ProcessPacket(p, appFails);
        if !answer.CloseSilently? {
          state := SendingAck;
          reply := Some(answer);
        } else {
          state := Failed;
        }
      }
    }

    /// The SENT_DATA case.
    method HandleSentData()
      modifies this
      ensures Value() == SentData(old(Value()))
    {
      if state == Completed {
        return;
      }
      if transfer.error {
        state := Failed;
        return;
      }
      if transfer.complete {
        state := Completed;
        return;
      }
      state := WaitingForData;
    }
  }

  // ------------------------------------------------------------- the sender

  /// A file as RFC 1350 numbers it: full blocks and one short last block, empty if need be.
  function Blocks(file: seq<Byte>): (b: seq<seq<Byte>>)
    ensures |b| == |file| / TFTP_BLOCK_SIZE + 1
    decreases |file|
  {
    if |file| < TFTP_BLOCK_SIZE then [file]
    else [file[..TFTP_BLOCK_SIZE]] + Blocks(file[TFTP_BLOCK_SIZE..])
  }

  /// The blocks spell the file, and only the last one is short.
  lemma {:induction false} BlocksSpellFile(file: seq<Byte>)
    ensures Flatten(Blocks(file)) == file
    decreases |file|
  {
    if |file| < TFTP_BLOCK_SIZE {
      assert file + [] == file;
    } else {
      BlocksSpellFile(file[TFTP_BLOCK_SIZE..]);
      assert Blocks(file)[1..] == Blocks(file[TFTP_BLOCK_SIZE..]);
    }
  }

  lemma {:induction false} OnlyLastBlockIsShort(file: seq<Byte>, i: nat)
    requires i < |Blocks(file)|
    ensures |Blocks(file)[i]| < TFTP_BLOCK_SIZE <==> i == |Blocks(file)| - 1
    ensures |Blocks(file)[i]| <= TFTP_BLOCK_SIZE
    decreases |file|
  {
    if |file| >= TFTP_BLOCK_SIZE && i > 0 {
      OnlyLastBlockIsShort(file[TFTP_BLOCK_SIZE..], i - 1);
    }
  }

  /// The sender holds block `current` until it is acknowledged (0: the write request), all
  /// packets ever sent may arrive at any time, any number of times, or never.
  datatype System = System(
    file: seq<Byte>, current: nat, stopped: bool, server: Server, toRx: seq<Packet>, toTx: seq<Reply>)

  datatype Step = DeliverToRx(i: nat, appFails: bool) | Sent | DeliverToTx(i: nat) | Resend

  function Last(s: System): nat {
    |Blocks(s.file)|
  }

  /// The packet numbered `k`, with the 16-bit block number of the wire.
  function PacketNumber(file: seq<Byte>, k: nat): Packet
    requires k <= |Blocks(file)|
  {
    if k == 0 then Wrq(true, true) else Data(Reduce(U16, k), Blocks(file)[k - 1])
  }

  function Start(file: seq<Byte>): System {
    System(file, 0, false, Server(IDLE, WaitingForData), [PacketNumber(file, 0)], [])
  }

  function Next(s: System, t: Step): (r: System)
    requires s.current <= Last(s)
    ensures r.current <= Last(r) && r.file == s.file
  {
    match t
    case DeliverToRx(i, appFails) =>
      if i < |s.toRx| then
        var (server, reply) := ReceiveData(s.server, s.toRx[i], appFails);
        s.(server := server, toTx := s.toTx + (if reply.Some? then [reply.value] else []))
      else s
    case Sent => s.(server := SentData(s.server))
    case DeliverToTx(i) =>
      if i >= |s.toTx| || s.stopped then s
      else
        (match s.toTx[i]
         case Ack(n) =>
           if n == Reduce(U16, s.current) && s.current < Last(s) then
             s.(current := s.current + 1, toRx := s.toRx + [PacketNumber(s.file, s.current + 1)])
           else s
         case _ => s.(stopped := true))
    case Resend =>
      if s.stopped then s else s.(toRx := s.toRx + [PacketNumber(s.file, s.current)])
  }

  function Run(s: System, steps: seq<Step>): (r: System)
    requires s.current <= Last(s)
    ensures r.current <= Last(r) && r.file == s.file
    decreases |steps|
  {
    if steps == [] then s else Run(Next(s, steps[0]), steps[1..])
  }

  // ------------------------------------------------------------- the safety

  /// Blocks the receiver hands on before its size limit strikes.
  const BLOCK_LIMIT: nat := TFTP_MAX_FILE_SIZE / TFTP_BLOCK_SIZE - 1

  /// One of the packets sent so far.
  predicate WasSent(s: System, p: Packet)
    requires s.current <= Last(s)
  {
    || p == PacketNumber(s.file, 0)
    || (p.Data? && 1 <= p.blockNum <= s.current && p == PacketNumber(s.file, p.blockNum))
  }

  /// Because the server stops at its first error, nobody gets past block 256 of any file.
  ghost predicate Invariant(s: System) {
    && s.current <= Last(s)
    && s.current <= s.server.rx.prev + 1 && s.server.rx.prev <= s.current
    && s.server.rx.prev <= BLOCK_LIMIT + 1
    && (forall p :: p in s.toRx ==> WasSent(s, p))
    && (forall a :: a in s.toTx && a.Ack? ==> a.blockNum <= s.server.rx.prev)
    && s.server.rx.passed == Blocks(s.file)[..Min(s.server.rx.prev, BLOCK_LIMIT)]
    && ServerInvariant(s.server, Last(s))
  }

  predicate ServerInvariant(v: Server, last: nat) {
    && (v.rx.complete ==> v.rx.prev == last)
    && (v.rx.prev > BLOCK_LIMIT ==> v.rx.error)
    && (v.state == WaitingForData ==> !v.rx.error && !v.rx.complete)
    && (v.state == Completed ==> v.rx.complete && !v.rx.error)
    && (v.state == Failed ==> v.rx.error)
  }

  lemma NextKeepsInvariant(s: System, t: Step)
    requires Invariant(s)
    ensures Invariant(Next(s, t))
  {
    match t {
      case DeliverToRx(i, appFails) =>
        if i < |s.toRx| && s.server.state == WaitingForData {
          DeliveryKeepsInvariant(s, s.toRx[i], appFails);
        }
      case Sent =>
      case DeliverToTx(i) =>
        SenderKeepsInvariant(s, i);
      case Resend =>
    }
  }

  lemma SenderKeepsInvariant(s: System, i: nat)
    requires Invariant(s)
    ensures Invariant(Next(s, DeliverToTx(i)))
  {
    var r := Next(s, DeliverToTx(i));
    if r.current != s.current {
      assert s.toTx[i] in s.toTx;
      assert r.current == s.current + 1 <= s.server.rx.prev + 1;
      assert WasSent(r, PacketNumber(s.file, s.current + 1));
    }
    assert forall p :: WasSent(s, p) ==> WasSent(r, p);
  }

  lemma DeliveryKeepsInvariant(s: System, p: Packet, appFails: bool)
    requires Invariant(s) && WasSent(s, p) && s.server.state == WaitingForData
    ensures var (server, reply) := ReceiveData(s.server, p, appFails);
            && reply.Some?
            && Invariant(s.(server := server, toTx := s.toTx + [reply.value]))
  {
    if p.Data? && p.blockNum == s.server.rx.prev + 1 {
      NextBlockKeepsInvariant(s, p.data, appFails);
    } else if p.Data? {
      OnlyLastBlockIsShort(s.file, p.blockNum - 1);
    }
  }

  lemma NextBlockKeepsInvariant(s: System, data: seq<Byte>, appFails: bool)
    requires Invariant(s) && s.server.state == WaitingForData
    requires var n := s.server.rx.prev + 1; n <= s.current && data == Blocks(s.file)[n - 1]
    ensures var (server, reply) := ReceiveData(s.server, Data(s.server.rx.prev + 1, data), appFails);
            && reply.Some?
            && Invariant(s.(server := server, toTx := s.toTx + [reply.value]))
  {
    var prev := s.server.rx.prev;
    var b := Blocks(s.file);
    OnlyLastBlockIsShort(s.file, prev);
    assert b[..prev + 1] == b[..prev] + [data];
    assert prev <= BLOCK_LIMIT;
  }

  lemma {:induction false} RunKeepsInvariant(s: System, steps: seq<Step>)
    requires Invariant(s)
    ensures Invariant(Run(s, steps))
    decreases |steps|
  {
    if steps != [] {
      NextKeepsInvariant(s, steps[0]);
      RunKeepsInvariant(Next(s, steps[0]), steps[1..]);
    }
  }

  ghost predicate Reachable(file: seq<Byte>, s: System) {
    exists steps :: Run(Start(file), steps) == s
  }

  lemma ReachableInvariant(file: seq<Byte>, s: System)
    requires Reachable(file, s)
    ensures Invariant(s) && s.file == file
  {
    var steps :| Run(Start(file), steps) == s;
    RunKeepsInvariant(Start(file), steps);
  }

  /// A transfer reported complete has passed on the whole file, whatever its length.
  lemma CompletionMeansWholeFile(file: seq<Byte>, s: System)
    requires Reachable(file, s)
    requires s.server.state == Completed || (s.server.rx.complete && !s.server.rx.error)
    ensures Flatten(s.server.rx.passed) == file
  {
    ReachableInvariant(file, s);
    BlocksSpellFile(file);
    assert s.server.rx.passed == Blocks(file);
  }

  /// The application has been given exactly the blocks 1 to prev, in order and once each.
  ghost predicate InOrder(file: seq<Byte>) {
    forall s :: Reachable(file, s) ==>
      && s.server.rx.prev <= |Blocks(file)|
      && s.server.rx.passed == Blocks(file)[..s.server.rx.prev]
  }

  lemma SafeBelowLimit(file: seq<Byte>, s: System)
    requires |file| < BLOCK_LIMIT * TFTP_BLOCK_SIZE && Reachable(file, s)
    ensures s.server.rx.prev <= |Blocks(file)| && s.server.rx.passed == Blocks(file)[..s.server.rx.prev]
    ensures s.server.rx.complete ==> Flatten(s.server.rx.passed) == file
  {
    ReachableInvariant(file, s);
    BlocksSpellFile(file);
    if s.server.rx.complete {
      assert s.server.rx.passed == Blocks(file);
    }
  }

  // ---------------------------------------------------- and its exact range

  lemma {:induction false} RunAppend(s: System, steps: seq<Step>, t: Step)
    requires s.current <= Last(s)
    ensures Run(s, steps + [t]) == Next(Run(s, steps), t)
    decreases |steps|
  {
    if steps == [] {
      assert Run(s, [t]) == Run(Next(s, t), []);
    } else {
      assert (steps + [t])[1..] == steps[1..] + [t];
      RunAppend(Next(s, steps[0]), steps[1..], t);
    }
  }

  /// Nothing the application does fails.
  predicate AppNeverFails(steps: seq<Step>) {
    forall i :: 0 <= i < |steps| && steps[i].DeliverToRx? ==> !steps[i].appFails
  }

  /// Reachable by a run in which the application never refuses a block.
  ghost predicate ReachableUnhindered(file: seq<Byte>, s: System) {
    exists steps :: AppNeverFails(steps) && Run(Start(file), steps) == s
  }

  lemma ReachableNext(file: seq<Byte>, s: System, t: Step)
    requires ReachableUnhindered(file, s) && s.current <= Last(s)
    requires t.DeliverToRx? ==> !t.appFails
    ensures ReachableUnhindered(file, Next(s, t))
  {
    var steps :| AppNeverFails(steps) && Run(Start(file), steps) == s;
    RunAppend(Start(file), steps, t);
    assert AppNeverFails(steps + [t]);
  }

  /// The sender has just sent block `k`, nothing has gone wrong so far.
  predicate Sending(file: seq<Byte>, s: System, k: nat) {
    && s.file == file && 1 <= k <= |Blocks(file)| && k <= BLOCK_LIMIT + 1
    && s.current == k && !s.stopped && s.server.state == WaitingForData
    && !s.server.rx.complete && !s.server.rx.error
    && s.toRx != [] && s.toRx[|s.toRx| - 1] == PacketNumber(file, k)
    && s.server.rx.prev == k - 1
    && s.server.rx.passed == Blocks(file)[..k - 1]
  }

  /// The newest packet is delivered and its reply sent.
  function Deliver(s: System): (r: System)
    requires s.current <= Last(s)
    ensures r.current <= Last(r) && r.file == s.file
  {
    if s.toRx == [] then s else Next(Next(s, DeliverToRx(|s.toRx| - 1, false)), Sent)
  }

  lemma DeliverIsReachable(file: seq<Byte>, s: System)
    requires ReachableUnhindered(file, s) && s.current <= Last(s)
    ensures ReachableUnhindered(file, Deliver(s))
  {
    if s.toRx != [] {
      ReachableNext(file, s, DeliverToRx(|s.toRx| - 1, false));
      ReachableNext(file, Next(s, DeliverToRx(|s.toRx| - 1, false)), Sent);
    }
  }

  /// What becomes of block `k`: refused, the end of the file, or acknowledged.
  lemma DeliverBlock(file: seq<Byte>, s: System, k: nat)
    requires Sending(file, s, k)
    ensures var r := Deliver(s);
            && r == s.(server := r.server, toTx := r.toTx) && r.server.rx.prev == k
            && if k > BLOCK_LIMIT then r.server.state == Failed && r.server.rx.passed == Blocks(file)[..k - 1]
               else if k == |Blocks(file)| then r.server.state == Completed
               else
                 && r.server.state == WaitingForData && !r.server.rx.complete && !r.server.rx.error
                 && r.toTx == s.toTx + [Ack(k)] && r.server.rx.passed == Blocks(file)[..k]
  {
    var b := Blocks(file);
    OnlyLastBlockIsShort(file, k - 1);
    assert b[..k] == b[..k - 1] + [b[k - 1]];
    assert Process(s.server.rx, PacketNumber(file, k), false) == ProcessData(s.server.rx, k, b[k - 1], false);
  }

  lemma OneBlock(file: seq<Byte>, s: System, k: nat) returns (r: System)
    requires ReachableUnhindered(file, s) && Sending(file, s, k) && k < |Blocks(file)| && k <= BLOCK_LIMIT
    ensures ReachableUnhindered(file, r) && Sending(file, r, k + 1)
  {
    DeliverBlock(file, s, k);
    DeliverIsReachable(file, s);
    var d := Deliver(s);
    ReachableNext(file, d, DeliverToTx(|d.toTx| - 1));
    r := Next(d, DeliverToTx(|d.toTx| - 1));
  }

  lemma {:induction false} SendingIsReachable(file: seq<Byte>, k: nat) returns (s: System)
    requires 1 <= k <= |Blocks(file)| && k <= BLOCK_LIMIT + 1
    ensures ReachableUnhindered(file, s) && Sending(file, s, k)
  {
    if k == 1 {
      var s0 := Start(file);
      assert AppNeverFails([]) && Run(s0, []) == s0;
      DeliverIsReachable(file, s0);
      var s1 := Deliver(s0);
      ReachableNext(file, s1, DeliverToTx(0));
      s := Next(s1, DeliverToTx(0));
    } else {
      var r := SendingIsReachable(file, k - 1);
      s := OneBlock(file, r, k - 1);
    }
  }

  /// Lock-step delivery holds for exactly the files of fewer than 255 full blocks: block 256
  /// is recorded as received before the size limit refuses it.
  lemma InOrderIff(file: seq<Byte>)
    ensures InOrder(file) <==> |file| < BLOCK_LIMIT * TFTP_BLOCK_SIZE
  {
    if |file| < BLOCK_LIMIT * TFTP_BLOCK_SIZE {
      forall s | Reachable(file, s)
        ensures s.server.rx.prev <= |Blocks(file)|
        ensures s.server.rx.passed == Blocks(file)[..s.server.rx.prev]
      {
        SafeBelowLimit(file, s);
      }
    } else {
      var k := BLOCK_LIMIT + 1;
      var s := SendingIsReachable(file, k);
      DeliverBlock(file, s, k);
      DeliverIsReachable(file, s);
      assert |Deliver(s).server.rx.passed| == BLOCK_LIMIT;
      assert !InOrder(file);
    }
  }

  /// Some run ends with the transfer reported complete.
  ghost predicate CanComplete(file: seq<Byte>) {
    exists s :: Reachable(file, s) && s.server.state == Completed
  }

  /// A file can be transferred if and only if it has fewer than 255 full blocks: the advertised
  /// limit of 256 blocks, less one for the `>=`, and less the last byte for the empty block that
  /// ends a file of whole blocks.
  lemma CanCompleteIff(file: seq<Byte>)
    ensures CanComplete(file) <==> |file| < BLOCK_LIMIT * TFTP_BLOCK_SIZE
  {
    if CanComplete(file) {
      var s :| Reachable(file, s) && s.server.state == Completed;
      ReachableInvariant(file, s);
    }
    if |file| < BLOCK_LIMIT * TFTP_BLOCK_SIZE {
      var k := |Blocks(file)|;
      var s := SendingIsReachable(file, k);
      DeliverBlock(file, s, k);
      DeliverIsReachable(file, s);
      assert Deliver(s).server.state == Completed;
    }
  }

  /// Some run in which the application accepts every block ends with an error.
  ghost predicate CanFail(file: seq<Byte>) {
    exists s :: ReachableUnhindered(file, s) && s.server.rx.error
  }

  /// Unless the application refuses a block, exactly the files that cannot complete can fail.
  lemma CanFailIff(file: seq<Byte>)
    ensures CanFail(file) <==> !CanComplete(file)
  {
    CanCompleteIff(file);
    if |file| < BLOCK_LIMIT * TFTP_BLOCK_SIZE {
      forall s | ReachableUnhindered(file, s)
        ensures !s.server.rx.error
      {
        var steps :| AppNeverFails(steps) && Run(Start(file), steps) == s;
        SmallFilesMeetNoError(Start(file), steps);
      }
    } else {
      var s := SendingIsReachable(file, BLOCK_LIMIT + 1);
      DeliverBlock(file, s, BLOCK_LIMIT + 1);
      DeliverIsReachable(file, s);
      ReachableInvariant(file, Deliver(s));
      assert Deliver(s).server.rx.error;
    }
  }

  lemma {:induction false} SmallFilesMeetNoError(s: System, steps: seq<Step>)
    requires Invariant(s) && !s.server.rx.error && Last(s) <= BLOCK_LIMIT && AppNeverFails(steps)
    ensures !Run(s, steps).server.rx.error
    decreases |steps|
  {
    if steps != [] {
      NextKeepsInvariant(s, steps[0]);
      NoErrorStep(s, steps[0]);
      SmallFilesMeetNoError(Next(s, steps[0]), steps[1..]);
    }
  }

  lemma NoErrorStep(s: System, t: Step)
    requires Invariant(s) && !s.server.rx.error && Last(s) <= BLOCK_LIMIT
    requires t.DeliverToRx? ==> !t.appFails
    ensures !Next(s, t).server.rx.error
  {
    if t.DeliverToRx? && t.i < |s.toRx| {
      assert WasSent(s, s.toRx[t.i]);
    }
  }

  // ------------------------------------------------- what the replies mean

  /// Only a request for the expected file in octet mode, and data, are acknowledged, by number;
  /// data is refused exactly if it is new and past the limit, or new and not wanted.
  lemma AcknowledgedIff(r: Receiver, p: Packet, appFails: bool)
    ensures var (q, reply) := Process(r, p, appFails);
            var isNext := p.Data? && p.blockNum == r.prev + 1;
            && (reply.Ack? <==>
                  || p == Wrq(true, true)
                  || (p.Data? && !(isNext && (p.blockNum > BLOCK_LIMIT || appFails))))
            && (reply.Ack? ==> reply.blockNum == if p.Data? then p.blockNum else 0)
            && q.blockNum == (if p.Data? then p.blockNum else r.blockNum)
            && (q.error <==> r.error || reply.Error?)
            && (reply.CloseSilently? <==> p.ErrorPacket?)
            && q.passed == r.passed + (if isNext && p.blockNum <= BLOCK_LIMIT then [p.data] else [])
  {
    assert r.passed + [] == r.passed;
  }

  /// The application is given a block in this step and refuses it.
  predicate Refuses(s: System, t: Step) {
    && t.DeliverToRx? && t.appFails && t.i < |s.toRx| && s.server.state == WaitingForData
    && s.toRx[t.i].Data? && s.toRx[t.i].blockNum == s.server.rx.prev + 1 <= BLOCK_LIMIT
  }

  predicate RefusedSomewhere(s: System, steps: seq<Step>)
    requires s.current <= Last(s)
    decreases |steps|
  {
    steps != [] && (Refuses(s, steps[0]) || RefusedSomewhere(Next(s, steps[0]), steps[1..]))
  }

  lemma {:induction false} ErrorsStay(s: System, steps: seq<Step>)
    requires s.current <= Last(s) && s.server.rx.error && s.server.state != Completed
    ensures var r := Run(s, steps); r.server.rx.error && r.server.state != Completed
    decreases |steps|
  {
    if steps != [] {
      if steps[0].DeliverToRx? && steps[0].i < |s.toRx| {
        AcknowledgedIff(s.server.rx, s.toRx[steps[0].i], steps[0].appFails);
      }
      ErrorsStay(Next(s, steps[0]), steps[1..]);
    }
  }

  /// A transfer is never reported complete after the application refused a block of it.
  lemma {:induction false} RefusalIsFinal(s: System, steps: seq<Step>)
    requires s.current <= Last(s) && RefusedSomewhere(s, steps)
    ensures var r := Run(s, steps); r.server.rx.error && r.server.state != Completed
    decreases |steps|
  {
    if Refuses(s, steps[0]) {
      AcknowledgedIff(s.server.rx, s.toRx[steps[0].i], true);
      ErrorsStay(Next(s, steps[0]), steps[1..]);
    } else {
      RefusalIsFinal(Next(s, steps[0]), steps[1..]);
    }
  }
}
