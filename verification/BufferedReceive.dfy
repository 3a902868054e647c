/// The receive half of the buffered client and the two framing loops built on it: delimited
/// frames (`xtcp_buffered_recv_upto`) and length-prefixed messages (`demo_protocol_recv`).
/// What they deliver does not depend on how TCP cut the stream into receive events.

module BufferedReceive {
  import opened Basics
  import BufferedSend

  /// Most bytes one receive event can carry.
  const XTCP_CLIENT_BUF_SIZE: nat := 1472

  // ----------------------------------------------------- the stream, uncut

  datatype Frames = Frames(frames: seq<seq<Byte>>, rest: seq<Byte>)

  /// Length of the shortest prefix that ends in `delim`, or 0.
  function FrameLength(s: seq<Byte>, delim: Byte): (n: nat)
    ensures n <= |s|
  {
    if s == [] then 0
    else if s[0] == delim then 1
    else
      var n := FrameLength(s[1..], delim);
      if n == 0 then 0 else n + 1
  }

  lemma {:induction false} FrameLengthMeaning(s: seq<Byte>, delim: Byte)
    ensures var n := FrameLength(s, delim);
            if n == 0 then delim !in s else s[n - 1] == delim && delim !in s[..n - 1]
  {
    if s != [] && s[0] != delim {
      FrameLengthMeaning(s[1..], delim);
      var n := FrameLength(s[1..], delim);
      if n > 0 {
        assert s[..n] == [s[0]] + s[1..][..n - 1];
      }
    }
  }

  /// Cutting a stream after every delimiter.
  function Split(s: seq<Byte>, delim: Byte): Frames
    decreases |s|
  {
    var n := FrameLength(s, delim);
    if n == 0 then Frames([], s)
    else
      Then([s[..n]], Split(s[n..], delim))
  }

  predicate IsFrame(f: seq<Byte>, delim: Byte) {
    |f| > 0 && f[|f| - 1] == delim && delim !in f[..|f| - 1]
  }

  /// Split loses and reorders nothing, and its pieces are frames.
  lemma SplitIsACut(s: seq<Byte>, delim: Byte)
    ensures var f := Split(s, delim);
            && Flatten(f.frames) + f.rest == s
            && delim !in f.rest
            && forall i :: 0 <= i < |f.frames| ==> IsFrame(f.frames[i], delim)
  {
    SplitKeepsBytes(s, delim);
    SplitMakesFrames(s, delim);
    RestIsUnfinished(s, delim);
    FrameLengthMeaning(Split(s, delim).rest, delim);
  }

  lemma {:induction false} SplitKeepsBytes(s: seq<Byte>, delim: Byte)
    ensures var f := Split(s, delim);
            Flatten(f.frames) + f.rest == s
    decreases |s|
  {
    var n := FrameLength(s, delim);
    if n > 0 {
      var t := s[n..];
      SplitKeepsBytes(t, delim);
      var f := Split(t, delim);
      FlattenCons(s[..n], f.frames);
      Associative(s[..n], Flatten(f.frames), f.rest);
    }
  }

  lemma {:induction false} RestIsUnfinished(s: seq<Byte>, delim: Byte)
    ensures FrameLength(Split(s, delim).rest, delim) == 0
    decreases |s|
  {
    var n := FrameLength(s, delim);
    if n > 0 {
      RestIsUnfinished(s[n..], delim);
    }
  }

  lemma {:induction false} SplitMakesFrames(s: seq<Byte>, delim: Byte)
    ensures forall f :: f in Split(s, delim).frames ==> IsFrame(f, delim)
    decreases |s|
  {
    var n := FrameLength(s, delim);
    if n > 0 {
      FirstFrame(s, delim);
      SplitMakesFrames(s[n..], delim);
    }
  }

  lemma FirstFrame(s: seq<Byte>, delim: Byte)
    requires FrameLength(s, delim) > 0
    ensures IsFrame(s[..FrameLength(s, delim)], delim)
  {
    var n := FrameLength(s, delim);
    FrameLengthMeaning(s, delim);
    assert s[..n][..n - 1] == s[..n - 1];
  }

  lemma FlattenCons(f: seq<Byte>, ss: seq<seq<Byte>>)
    ensures Flatten([f] + ss) == f + Flatten(ss)
  {
    assert ([f] + ss)[1..] == ss;
  }

  /// The first frame of a longer stream.
  lemma {:induction false} FrameLengthOfConcat(a: seq<Byte>, b: seq<Byte>, delim: Byte)
    requires FrameLength(a, delim) > 0
    ensures FrameLength(a + b, delim) == FrameLength(a, delim)
  {
    assert (a + b)[1..] == a[1..] + b;
    if a[0] != delim {
      FrameLengthOfConcat(a[1..], b, delim);
    }
  }

  /// More bytes arriving later only continue the unfinished frame.
  lemma {:induction false} SplitOfConcat(a: seq<Byte>, b: seq<Byte>, delim: Byte)
    ensures var f := Split(a, delim);
            Split(a + b, delim) == Then(f.frames, Split(f.rest + b, delim))
    decreases |a|
  {
    var n := FrameLength(a, delim);
    if n > 0 {
      FrameLengthOfConcat(a, b, delim);
      assert (a + b)[..n] == a[..n];
      assert (a + b)[n..] == a[n..] + b;
      SplitOfConcat(a[n..], b, delim);
      var f := Split(a[n..], delim);
      ThenThen([a[..n]], f.frames, Split(f.rest + b, delim));
    }
  }

  /// Frames already delivered, followed by what comes next.
  function Then(frames: seq<seq<Byte>>, next: Frames): Frames {
    Frames(frames + next.frames, next.rest)
  }

  lemma ThenThen(a: seq<seq<Byte>>, b: seq<seq<Byte>>, next: Frames)
    ensures Then(a, Then(b, next)) == Then(a + b, next)
    ensures Then([], next) == next
  {
  }

  // ------------------------------------------------------------ its events

  /// What comes out of some events: the frames, the unfinished rest, whether the buffer ever
  /// overflowed and dropped its rest, and whether it is ready for the data of another event.
  datatype Outcome = Outcome(got: Frames, overflow: bool, armed: bool)

  /// One receive event carrying `chunk`, drained from a buffer that holds `room` bytes besides
  /// the largest event. The event after an overflow is not taken in; it only readies the buffer.
  function OneEvent(room: int, pending: seq<Byte>, armed: bool, chunk: seq<Byte>, delim: Byte): Outcome {
    if !armed then Outcome(Frames([], pending), false, true)
    else
      var f := Split(pending + chunk, delim);
      if |f.rest| > room then Outcome(Frames(f.frames, []), true, false) else Outcome(f, false, true)
  }

  function Before(e: Outcome, next: Outcome): Outcome {
    Outcome(Then(e.got.frames, next.got), e.overflow || next.overflow, next.armed)
  }

  /// Successive receive events.
  function DrainRun(room: int, pending: seq<Byte>, armed: bool, chunks: seq<seq<Byte>>, delim: Byte): Outcome
    decreases |chunks|
  {
    if chunks == [] then Outcome(Frames([], pending), false, armed)
    else
      var e := OneEvent(room, pending, armed, chunks[0], delim);
      Before(e, DrainRun(room, e.got.rest, e.armed, chunks[1..], delim))
  }

  // ------------------------------------------------------- the real buffer

  datatype Received =
    | Frame(at: nat, len: nat)
    | Starved
    | Overflow(at: nat, len: nat)

  lemma CutSlice(s: seq<Byte>, from: nat, to: nat, n: nat)
    requires from + n <= to <= |s|
    ensures s[from..to][..n] == s[from..from + n]
    ensures s[from..to][n..] == s[from + n..to]
  {
  }

  class RxBuffer {
    const buf: array<Byte>
    var newEvent: bool
    var rd: nat
    var wr: nat

    /// While an event is awaited there is room for the largest one.
    ghost predicate Valid()
      reads this
    {
      && buf.Length >= XTCP_CLIENT_BUF_SIZE && rd <= wr <= buf.Length
      && (newEvent ==> wr + XTCP_CLIENT_BUF_SIZE <= buf.Length)
    }

    /// Bytes received and not yet consumed.
    ghost function Pending(): seq<Byte>
      requires Valid()
      reads this, buf
    {
      buf[rd..wr]
    }

    /// `xtcp_buffered_set_rx_buffer`
    constructor (b: array<Byte>)
      requires b.Length >= XTCP_CLIENT_BUF_SIZE
      ensures Valid() && buf == b && newEvent && Pending() == []
    {
      buf, newEvent := b, true;
      rd, wr := 0, 0;
    }

    /// The common opening: take in the data of the event, if it was not taken in yet.
    method TakeEvent(chunk: seq<Byte>)
      requires Valid() && |chunk| <= XTCP_CLIENT_BUF_SIZE
      modifies this, buf
      ensures Valid() && !newEvent && rd == old(rd)
      ensures Pending() == old(Pending()) + (if old(newEvent) then chunk else [])
    {
      if newEvent {
        BufferedSend.CopyIn(buf, wr, chunk);
        wr := wr + |chunk|;
        newEvent := false;
        assert buf[rd..wr] == old(buf[rd..wr]) + chunk;
      } else {
        assert old(Pending()) + [] == old(Pending());
      }
    }

    /// The common ending when the pending bytes do not suffice: move them to the front and
    /// wait for another event, or give up if one could not be stored.
    method MoveToFront() returns (r: Received)
      requires Valid() && !newEvent
      modifies this, buf
      ensures Valid()
      ensures if buf.Length - |old(Pending())| < XTCP_CLIENT_BUF_SIZE then
                && r == Overflow(0, |old(Pending())|) && buf[..r.len] == old(Pending())
                && !newEvent && Pending() == []
              else
                r == Starved && newEvent && Pending() == old(Pending())
    {
      var remaining := wr - rd;
      BufferedSend.MoveDown(buf, rd, remaining);
      assert buf[..remaining] == old(buf[rd..wr]);
      rd := 0;
      wr := remaining;
      if buf.Length - wr < XTCP_CLIENT_BUF_SIZE {
        wr := 0;
        return Overflow(0, remaining);
      }
      newEvent := true;
      r := Starved;
    }

    /// `xtcp_buffered_recv_upto`
    method RecvUpto(chunk: seq<Byte>, delim: Byte) returns (r: Received)
      requires Valid() && |chunk| <= XTCP_CLIENT_BUF_SIZE
      modifies this, buf
      ensures Valid()
      ensures var all := old(Pending()) + (if old(newEvent) then chunk else []);
              var n := FrameLength(all, delim);
              if n > 0 then
                && r.Frame? && r.len == n && r.at + n <= buf.Length
                && buf[r.at..r.at + n] == all[..n] && Pending() == all[n..] && !newEvent
              else if buf.Length - |all| < XTCP_CLIENT_BUF_SIZE then
                r == Overflow(0, |all|) && buf[..|all|] == all && Pending() == [] && !newEvent
              else
                r == Starved && Pending() == all && newEvent
    {
      TakeEvent(chunk);
      var len := Search(delim);
      if len == 0 {
        r := MoveToFront();
      } else {
        CutSlice(buf[..], rd, wr, len);
        r := Frame(rd, len);
        rd := rd + len;
      }
    }

    /// The loop that looks for the delimiter.
    method Search(delim: Byte) returns (len: nat)
      requires Valid()
      ensures len == FrameLength(Pending(), delim)
    {
      len := 0;
      ghost var all := Pending();
      var p := rd;
      while len == 0 && p < wr
        invariant rd <= p <= wr
        invariant len == 0 ==> delim !in all[..p - rd]
        invariant len > 0 ==> len == p - rd && all[len - 1] == delim && delim !in all[..len - 1]
      {
        if buf[p] == delim {
          len := p - rd + 1;
        }
        p := p + 1;
        assert all[..p - rd] == all[..p - 1 - rd] + [buf[p - 1]];
      }
      if len == 0 {
        assert all[..p - rd] == all;
      }
      FrameLengthUnique(all, delim, len);
    }

    /// `xtcp_buffered_recv`
    method Recv(chunk: seq<Byte>, len: nat) returns (r: Received)
      requires Valid() && |chunk| <= XTCP_CLIENT_BUF_SIZE
      modifies this, buf
      ensures Valid()
      ensures var all := old(Pending()) + (if old(newEvent) then chunk else []);
              if len <= |all| then
                && r.Frame? && r.len == len && r.at + len <= buf.Length
                && buf[r.at..r.at + len] == all[..len] && Pending() == all[len..] && !newEvent
              else if buf.Length - |all| < XTCP_CLIENT_BUF_SIZE then
                r == Overflow(0, |all|) && buf[..|all|] == all && Pending() == [] && !newEvent
              else
                r == Starved && Pending() == all && newEvent
    {
      TakeEvent(chunk);
      if wr - rd < len {
        r := MoveToFront();
      } else {
        CutSlice(buf[..], rd, wr, len);
        r := Frame(rd, len);
        rd := rd + len;
      }
    }

    /// One call of `xtcp_buffered_recv_upto` with the frame read out, empty if there is none.
    method NextFrame(chunk: seq<Byte>, delim: Byte, ghost left: seq<Byte>)
        returns (frame: seq<Byte>, overflow: bool)
      requires Valid() && |chunk| <= XTCP_CLIENT_BUF_SIZE
      requires left == Pending() + (if newEvent then chunk else [])
      modifies this, buf
      ensures Valid() && |frame| == FrameLength(left, delim) && frame == left[..|frame|]
      ensures frame != [] ==> !overflow && !newEvent && Pending() == left[|frame|..]
      ensures frame == [] ==> (overflow <==> |left| > buf.Length - XTCP_CLIENT_BUF_SIZE)
      ensures frame == [] && !overflow ==> newEvent && Pending() == left
      ensures overflow ==> Pending() == [] && !newEvent
    {
      var r := RecvUpto(chunk, delim);
      frame := [];
      overflow := r.Overflow?;
      if r.Frame? {
        frame := buf[r.at..r.at + r.len];
      }
    }

    /// The receive loop of `app_buffered_protocol_demo_2`: call until nothing is left.
    method Drain(chunk: seq<Byte>, delim: Byte) returns (frames: seq<seq<Byte>>, overflow: bool)
      requires Valid() && (newEvent || Pending() == []) && |chunk| <= XTCP_CLIENT_BUF_SIZE
      modifies this, buf
      ensures Valid()
      ensures Outcome(Frames(frames, Pending()), overflow, newEvent)
              == OneEvent(buf.Length - XTCP_CLIENT_BUF_SIZE, old(Pending()), old(newEvent), chunk, delim)
    {
      frames := [];
      ghost var all := Pending() + (if newEvent then chunk else []);
      ghost var left := all;
      while true
        invariant Valid()
        invariant left == Pending() + (if newEvent then chunk else [])
        invariant Split(all, delim) == Then(frames, Split(left, delim))
        decreases |left|
      {
        var frame;
        frame, overflow := NextFrame(chunk, delim, left);
        if frame == [] {
          NoFrameLeft(frames, left, delim);
          assert Split(all, delim) == Frames(frames, left);
          if !old(newEvent) {
            assert all == [] && FrameLength(all, delim) == 0;
          }
          return;
        }
        OneFrameLess(frames, left, delim);
        frames := frames + [frame];
        left := left[|frame|..];
        assert left == Pending() + [];
      }
    }
  }

  lemma NoFrameLeft(frames: seq<seq<Byte>>, left: seq<Byte>, delim: Byte)
    requires FrameLength(left, delim) == 0
    ensures Then(frames, Split(left, delim)) == Frames(frames, left)
  {
    assert frames + [] == frames;
  }

  lemma OneFrameLess(frames: seq<seq<Byte>>, left: seq<Byte>, delim: Byte)
    requires FrameLength(left, delim) > 0
    ensures var n := FrameLength(left, delim);
            Then(frames, Split(left, delim)) == Then(frames + [left[..n]], Split(left[n..], delim))
  {
    var n := FrameLength(left, delim);
    ThenThen(frames, [left[..n]], Split(left[n..], delim));
  }

  lemma FrameLengthUnique(s: seq<Byte>, delim: Byte, n: nat)
    requires n <= |s|
    requires if n == 0 then delim !in s else s[n - 1] == delim && delim !in s[..n - 1]
    ensures FrameLength(s, delim) == n
  {
    FrameLengthMeaning(s, delim);
  }

  // ------------------------------------------- independence of packetisation

  /// Every frame can be completed, and the rest kept, in such a buffer.
  predicate Fits(f: Frames, room: int) {
    && (forall i :: 0 <= i < |f.frames| ==> |f.frames[i]| <= room + 1)
    && |f.rest| <= room
  }

  /// The stream cut into events that one packet can carry.
  predicate IsCutting(chunks: seq<seq<Byte>>, s: seq<Byte>) {
    && (forall i :: 0 <= i < |chunks| ==> |chunks[i]| <= XTCP_CLIENT_BUF_SIZE)
    && Flatten(chunks) == s
  }

  /// Whatever the cutting, a run without overflow gives the frames of the uncut stream.
  lemma {:induction false} FramingIgnoresPacketisation(
      room: int, pending: seq<Byte>, chunks: seq<seq<Byte>>, delim: Byte)
    requires FrameLength(pending, delim) == 0
    requires !DrainRun(room, pending, true, chunks, delim).overflow
    ensures DrainRun(room, pending, true, chunks, delim)
            == Outcome(Split(pending + Flatten(chunks), delim), false, true)
    decreases |chunks|
  {
    if chunks == [] {
      assert pending + Flatten(chunks) == pending;
    } else {
      var f := Split(pending + chunks[0], delim);
      RestIsUnfinished(pending + chunks[0], delim);
      FramingIgnoresPacketisation(room, f.rest, chunks[1..], delim);
      SplitAfterEvent(pending, chunks, delim);
    }
  }

  lemma SplitAfterEvent(pending: seq<Byte>, chunks: seq<seq<Byte>>, delim: Byte)
    requires chunks != []
    ensures var f := Split(pending + chunks[0], delim);
            Split(pending + Flatten(chunks), delim) == Then(f.frames, Split(f.rest + Flatten(chunks[1..]), delim))
  {
    var tail := Flatten(chunks[1..]);
    SplitOfConcat(pending + chunks[0], tail, delim);
    Associative(pending, chunks[0], tail);
  }

  /// A stream whose frames fit overflows in no cutting.
  lemma {:induction false} FittingNeverOverflows(
      room: int, pending: seq<Byte>, chunks: seq<seq<Byte>>, delim: Byte)
    requires Fits(Split(pending + Flatten(chunks), delim), room)
    ensures !DrainRun(room, pending, true, chunks, delim).overflow
    decreases |chunks|
  {
    if chunks != [] {
      var f := Split(pending + chunks[0], delim);
      var tail := Flatten(chunks[1..]);
      var g := Split(f.rest + tail, delim);
      SplitAfterEvent(pending, chunks, delim);
      LaterFramesFit(f.frames, g, room);
      RestIsUnfinished(pending + chunks[0], delim);
      PartOfFrameFits(f.rest, tail, delim, room);
      FittingNeverOverflows(room, f.rest, chunks[1..], delim);
    }
  }

  lemma LaterFramesFit(frames: seq<seq<Byte>>, next: Frames, room: int)
    requires Fits(Then(frames, next), room)
    ensures Fits(next, room)
  {
    forall i | 0 <= i < |next.frames|
      ensures |next.frames[i]| <= room + 1
    {
      assert Then(frames, next).frames[|frames| + i] == next.frames[i];
    }
  }

  /// An unfinished rest is shorter than the frame it becomes part of.
  lemma PartOfFrameFits(rest: seq<Byte>, tail: seq<Byte>, delim: Byte, room: int)
    requires FrameLength(rest, delim) == 0 && Fits(Split(rest + tail, delim), room)
    ensures |rest| <= room
  {
    var n := FrameLength(rest + tail, delim);
    FrameLengthMeaning(rest, delim);
    FrameLengthMeaning(rest + tail, delim);
    if n > 0 {
      assert n > |rest|;
      assert Split(rest + tail, delim).frames[0] == (rest + tail)[..n];
    }
  }

  /// The finest cutting.
  function OneByteEvents(s: seq<Byte>): (chunks: seq<seq<Byte>>)
    ensures |chunks| == |s|
  {
    if s == [] then [] else [[s[0]]] + OneByteEvents(s[1..])
  }

  lemma {:induction false} OneByteEventsAreACutting(s: seq<Byte>)
    ensures IsCutting(OneByteEvents(s), s)
  {
    if s != [] {
      OneByteEventsAreACutting(s[1..]);
      FlattenCons([s[0]], OneByteEvents(s[1..]));
      assert s == [s[0]] + s[1..];
    }
  }

  /// Byte by byte every unfinished frame is carried over at its full length.
  lemma {:induction false} OneByteEventsShowOverflow(room: int, pending: seq<Byte>, s: seq<Byte>, delim: Byte)
    requires FrameLength(pending, delim) == 0 && |pending| <= room
    requires !DrainRun(room, pending, true, OneByteEvents(s), delim).overflow
    ensures Fits(Split(pending + s, delim), room)
    decreases |s|
  {
    if s == [] {
      assert pending + s == pending;
    } else {
      var f := Split(pending + [s[0]], delim);
      SplitOfOneMore(pending, s[0], delim);
      DrainOneByte(room, pending, s, delim);
      OneByteEventsShowOverflow(room, f.rest, s[1..], delim);
      SplitAfterByte(pending, s, delim);
      FirstFrameFits(f.frames, Split(f.rest + s[1..], delim), room);
    }
  }

  lemma SplitAfterByte(pending: seq<Byte>, s: seq<Byte>, delim: Byte)
    requires s != []
    ensures var f := Split(pending + [s[0]], delim);
            Split(pending + s, delim) == Then(f.frames, Split(f.rest + s[1..], delim))
  {
    SplitOfConcat(pending + [s[0]], s[1..], delim);
    assert pending + s == pending + [s[0]] + s[1..];
  }

  lemma DrainOneByte(room: int, pending: seq<Byte>, s: seq<Byte>, delim: Byte)
    requires s != [] && !DrainRun(room, pending, true, OneByteEvents(s), delim).overflow
    ensures var f := Split(pending + [s[0]], delim);
            |f.rest| <= room && !DrainRun(room, f.rest, true, OneByteEvents(s[1..]), delim).overflow
  {
    assert OneByteEvents(s)[1..] == OneByteEvents(s[1..]);
  }

  lemma FirstFrameFits(frames: seq<seq<Byte>>, next: Frames, room: int)
    requires Fits(next, room)
    requires |frames| > 0 ==> |frames| == 1 && |frames[0]| <= room + 1
    ensures Fits(Then(frames, next), room)
  {
  }

  lemma SplitOfOneMore(pending: seq<Byte>, b: Byte, delim: Byte)
    requires FrameLength(pending, delim) == 0
    ensures Split(pending + [b], delim) ==
            if b == delim then Frames([pending + [b]], []) else Frames([], pending + [b])
  {
    var s := pending + [b];
    FrameLengthMeaning(pending, delim);
    if b == delim {
      assert s[..|s| - 1] == pending;
      FrameLengthUnique(s, delim, |s|);
      assert s[..|s|] == s && s[|s|..] == [];
    } else {
      FrameLengthUnique(s, delim, 0);
    }
  }

  /// The buffer size a protocol needs. Every cutting of a stream into receive events gives its
  /// frames without overflow if and only if no frame is longer than `room + 1` bytes and the
  /// rest no longer than `room`.
  lemma EveryCuttingIsFramedIff(room: nat, s: seq<Byte>, delim: Byte)
    ensures (forall chunks :: IsCutting(chunks, s) ==>
               DrainRun(room, [], true, chunks, delim) == Outcome(Split(s, delim), false, true))
            <==> Fits(Split(s, delim), room)
  {
    if Fits(Split(s, delim), room) {
      forall chunks | IsCutting(chunks, s)
        ensures DrainRun(room, [], true, chunks, delim) == Outcome(Split(s, delim), false, true)
      {
        assert [] + Flatten(chunks) == s;
        FittingNeverOverflows(room, [], chunks, delim);
        FramingIgnoresPacketisation(room, [], chunks, delim);
      }
    } else {
      OneByteEventsAreACutting(s);
      assert [] + s == s;
      if !DrainRun(room, [], true, OneByteEvents(s), delim).overflow {
        OneByteEventsShowOverflow(room, [], s, delim);
      }
      assert DrainRun(room, [], true, OneByteEvents(s), delim) != Outcome(Split(s, delim), false, true);
    }
  }

  /// The documented size, the largest event plus the largest frame, is one byte more than needed.
  lemma DocumentedSizeSuffices(len: nat, s: seq<Byte>, chunks: seq<seq<Byte>>, delim: Byte)
    requires IsCutting(chunks, s)
    requires forall i :: 0 <= i < |Split(s, delim).frames| ==>
               XTCP_CLIENT_BUF_SIZE + |Split(s, delim).frames[i]| <= len
    requires XTCP_CLIENT_BUF_SIZE + |Split(s, delim).rest| <= len
    ensures DrainRun(len - XTCP_CLIENT_BUF_SIZE, [], true, chunks, delim) == Outcome(Split(s, delim), false, true)
  {
    EveryCuttingIsFramedIff(len - XTCP_CLIENT_BUF_SIZE, s, delim);
  }

  lemma {:induction false} DrainRunOfConcat(
      room: int, pending: seq<Byte>, armed: bool, a: seq<seq<Byte>>, b: seq<seq<Byte>>, delim: Byte)
    ensures var o := DrainRun(room, pending, armed, a, delim);
            DrainRun(room, pending, armed, a + b, delim)
            == Before(o, DrainRun(room, o.got.rest, o.armed, b, delim))
    decreases |a|
  {
    if a == [] {
      assert a + b == b;
      ThenThen([], [], DrainRun(room, pending, armed, b, delim).got);
    } else {
      var e := OneEvent(room, pending, armed, a[0], delim);
      DrainRunOfConcat(room, e.got.rest, e.armed, a[1..], b, delim);
      assert (a + b)[1..] == a[1..] + b;
      var o := DrainRun(room, e.got.rest, e.armed, a[1..], delim);
      ThenThen(e.got.frames, o.got.frames, DrainRun(room, o.got.rest, o.armed, b, delim).got);
    }
  }

  lemma DrainOneMore(
      room: int, pending: seq<Byte>, armed: bool, chunks: seq<seq<Byte>>, chunk: seq<Byte>, delim: Byte)
    ensures var o := DrainRun(room, pending, armed, chunks, delim);
            DrainRun(room, pending, armed, chunks + [chunk], delim)
            == Before(o, OneEvent(room, o.got.rest, o.armed, chunk, delim))
  {
    var o := DrainRun(room, pending, armed, chunks, delim);
    DrainRunOfConcat(room, pending, armed, chunks, [chunk], delim);
    assert [chunk][1..] == [];
    assert DrainRun(room, o.got.rest, o.armed, [chunk], delim) == OneEvent(room, o.got.rest, o.armed, chunk, delim);
  }

  lemma {:induction false} NothingPendingAfterOverflow(
      room: int, pending: seq<Byte>, armed: bool, chunks: seq<seq<Byte>>, delim: Byte)
    requires armed || pending == []
    ensures var o := DrainRun(room, pending, armed, chunks, delim);
            o.armed || o.got.rest == []
    decreases |chunks|
  {
    if chunks != [] {
      var e := OneEvent(room, pending, armed, chunks[0], delim);
      NothingPendingAfterOverflow(room, e.got.rest, e.armed, chunks[1..], delim);
    }
  }

  /// An overflow costs the unfinished frame and, with it, the whole next event, whatever that
  /// carries; then the framing starts afresh in an empty buffer.
  lemma OverflowLosesNextEvent(
      room: int, before: seq<seq<Byte>>, lost: seq<Byte>, later: seq<seq<Byte>>, delim: Byte)
    requires !DrainRun(room, [], true, before, delim).armed
    ensures DrainRun(room, [], true, before + ([lost] + later), delim)
            == Before(DrainRun(room, [], true, before, delim), DrainRun(room, [], true, later, delim))
  {
    DrainRunOfConcat(room, [], true, before, [lost] + later, delim);
    NothingPendingAfterOverflow(room, [], true, before, delim);
    assert ([lost] + later)[1..] == later;
    ThenThen([], [], DrainRun(room, [], true, later, delim).got);
  }

  /// The client's side of it: the real buffer, one `Drain` per receive event.
  method DrainEvents(rx: RxBuffer, chunks: seq<seq<Byte>>, delim: Byte)
      returns (frames: seq<seq<Byte>>, overflow: bool)
    requires rx.Valid() && (rx.newEvent || rx.Pending() == [])
    requires forall i :: 0 <= i < |chunks| ==> |chunks[i]| <= XTCP_CLIENT_BUF_SIZE
    modifies rx, rx.buf
    ensures rx.Valid() && (rx.newEvent || rx.Pending() == [])
    ensures Outcome(Frames(frames, rx.Pending()), overflow, rx.newEvent)
            == DrainRun(rx.buf.Length - XTCP_CLIENT_BUF_SIZE, old(rx.Pending()), old(rx.newEvent), chunks, delim)
  {
    frames, overflow := [], false;
    ghost var room := rx.buf.Length - XTCP_CLIENT_BUF_SIZE;
    ghost var start, armed := rx.Pending(), rx.newEvent;
    var i := 0;
    while i < |chunks|
      invariant i <= |chunks| && rx.Valid() && (rx.newEvent || rx.Pending() == [])
      invariant Outcome(Frames(frames, rx.Pending()), overflow, rx.newEvent)
                == DrainRun(room, start, armed, chunks[..i], delim)
    {
      DrainOneMore(room, start, armed, chunks[..i], chunks[i], delim);
      assert chunks[..i] + [chunks[i]] == chunks[..i + 1];
      var more, full := rx.Drain(chunks[i], delim);
      frames := frames + more;
      overflow := overflow || full;
      i := i + 1;
    }
    assert chunks[..|chunks|] == chunks;
  }
}
