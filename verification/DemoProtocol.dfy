/// The length-prefixed framing loop `demo_protocol_recv` of the buffered protocol demo.

module DemoProtocol {
  import opened Basics
  import opened BufferedReceive

  const DEMO_PROTOCOL_HDR_SIZE: nat := 1
  const DEMO_PROTOCOL_MAX_MSG_SIZE: nat := 100
  const DEMO_PROTOCOL_RXBUF_LEN: nat := 2048

  /// Where the parse of the stream stands: waiting for a header or for `need` message bytes,
  /// with the bytes not yet consumed.
  datatype Parser = Parser(gotHeader: bool, need: nat, rest: seq<Byte>)

  datatype Parsed = Parsed(messages: seq<seq<Byte>>, rejected: bool, state: Parser)

  /// The header is one char; whether char is signed or not, values outside 1 to 100 are refused.
  predicate BadHeader(h: Byte) {
    h == 0 || h > DEMO_PROTOCOL_MAX_MSG_SIZE
  }

  /// The parse of the bytes in hand, as one pure function of the stream.
  function Parse(p: Parser): Parsed
    decreases 2 * |p.rest| + (if p.gotHeader then 1 else 0)
  {
    if !p.gotHeader then
      if |p.rest| < DEMO_PROTOCOL_HDR_SIZE then Parsed([], false, p)
      else if BadHeader(p.rest[0]) then Parsed([], true, Parser(false, 0, p.rest[1..]))
      else Parse(Parser(true, p.rest[0], p.rest[1..]))
    else if |p.rest| < p.need then Parsed([], false, p)
    else After([p.rest[..p.need]], Parse(Parser(false, p.need, p.rest[p.need..])))
  }

  function After(messages: seq<seq<Byte>>, next: Parsed): Parsed {
    next.(messages := messages + next.messages)
  }

  /// A connection is still in the state in which one more event can be taken.
  predicate Pending(p: Parser) {
    if p.gotHeader then 0 < p.need <= DEMO_PROTOCOL_MAX_MSG_SIZE && |p.rest| < p.need else p.rest == []
  }

  lemma {:induction false} ParseEndsPending(p: Parser)
    requires p.gotHeader ==> 0 < p.need <= DEMO_PROTOCOL_MAX_MSG_SIZE
    ensures !Parse(p).rejected ==> Pending(Parse(p).state)
    decreases 2 * |p.rest| + (if p.gotHeader then 1 else 0)
  {
    if !p.gotHeader {
      if |p.rest| > 0 && !BadHeader(p.rest[0]) {
        ParseEndsPending(Parser(true, p.rest[0], p.rest[1..]));
      }
    } else if |p.rest| >= p.need {
      ParseEndsPending(Parser(false, p.need, p.rest[p.need..]));
    }
  }

  class Connection {
    const rx: RxBuffer
    var gotHeader: bool
    var len: nat

    ghost predicate Valid()
      reads this, rx
    {
      && rx.Valid() && rx.buf.Length == DEMO_PROTOCOL_RXBUF_LEN
      && (gotHeader ==> 0 < len <= DEMO_PROTOCOL_MAX_MSG_SIZE)
    }

    ghost function State(): Parser
      requires Valid()
      reads this, rx, rx.buf
    {
      Parser(gotHeader, len, rx.Pending())
    }

    /// The relevant part of `demo_protocol_init_state`.
    constructor (inbuf: array<Byte>)
      requires inbuf.Length == DEMO_PROTOCOL_RXBUF_LEN
      ensures Valid() && rx.newEvent && fresh(rx) && rx.buf == inbuf && State() == Parser(false, 0, [])
    {
      rx := new RxBuffer(inbuf);
      gotHeader, len := false, 0;
    }

    /// `demo_protocol_recv`, called for one receive event: the messages processed, whether the
    /// connection was aborted for a bad header, and whether it was aborted for overflow.
    method Receive(chunk: seq<Byte>)
      returns (messages: seq<seq<Byte>>, rejected: bool, overflow: bool)
      requires Valid() && rx.newEvent && |chunk| <= XTCP_CLIENT_BUF_SIZE
      modifies this, rx, rx.buf
      ensures Valid() && !overflow
      ensures var whole := Parse(old(State()).(rest := old(State()).rest + chunk));
              && messages == whole.messages && rejected == whole.rejected
              && (!rejected ==> rx.newEvent && State() == whole.state)
    {
      messages, rejected, overflow := [], false, false;
      ghost var left := rx.Pending() + chunk;
      ghost var whole := Parse(Parser(gotHeader, len, left));
      var more := true;
      while more && !overflow
        invariant Valid() && !overflow
        invariant more ==> left == rx.Pending() + (if rx.newEvent then chunk else [])
        invariant more ==> whole == After(messages, Parse(Parser(gotHeader, len, left)))
        invariant !more ==> rx.newEvent && whole == Parsed(messages, false, State())
        decreases more, 2 * |left| + (if gotHeader then 1 else 0)
      {
        var want := if gotHeader then len else DEMO_PROTOCOL_HDR_SIZE;
        var data;
        more, data, overflow := Take(chunk, want);
        if more {
          left := left[want..];
          if gotHeader {
            AfterAfter(messages, [data], Parse(Parser(false, len, left)));
            messages := messages + [data];
            gotHeader := false;
          } else {
            if BadHeader(data[0]) {
              return messages, true, false;
            }
            len := data[0];
            gotHeader := true;
          }
        }
      }
    }

    /// One call of `xtcp_buffered_recv` for a header or a message.
    method Take(chunk: seq<Byte>, want: nat) returns (more: bool, data: seq<Byte>, overflow: bool)
      requires Valid() && |chunk| <= XTCP_CLIENT_BUF_SIZE && 0 < want <= DEMO_PROTOCOL_MAX_MSG_SIZE
      modifies rx, rx.buf
      ensures Valid() && !overflow
      ensures var all := old(rx.Pending()) + (if old(rx.newEvent) then chunk else []);
              && (more <==> want <= |all|)
              && (more ==> data == all[..want] && rx.Pending() == all[want..] && !rx.newEvent)
              && (!more ==> rx.Pending() == all && rx.newEvent)
    {
      var r := rx.Recv(chunk, want);
      more, overflow := r.Frame?, r.Overflow?;
      data := if r.Frame? then rx.buf[r.at..r.at + r.len] else [];
    }
  }

  lemma AfterAfter(a: seq<seq<Byte>>, b: seq<seq<Byte>>, next: Parsed)
    ensures After(a, After(b, next)) == After(a + b, next)
    ensures After([], next) == next
  {
  }

  // ------------------------------------------- independence of packetisation

  /// Parsing on from where an earlier parse stopped; a refused connection stays refused.
  function Continue(p: Parsed, more: seq<Byte>): Parsed {
    if p.rejected then p else After(p.messages, Parse(p.state.(rest := p.state.rest + more)))
  }

  /// The messages and the verdict of a parse; what a refused connection left unread is not
  /// part of the outcome.
  predicate SameOutcome(p: Parsed, q: Parsed) {
    p.messages == q.messages && p.rejected == q.rejected && (p.rejected || p.state == q.state)
  }

  lemma {:induction false} ParseOfConcat(p: Parser, more: seq<Byte>)
    ensures SameOutcome(Continue(Parse(p), more), Parse(p.(rest := p.rest + more)))
    decreases 2 * |p.rest| + (if p.gotHeader then 1 else 0)
  {
    var all := p.rest + more;
    if !p.gotHeader {
      if |p.rest| > 0 {
        assert all[1..] == p.rest[1..] + more;
        if !BadHeader(p.rest[0]) {
          ParseOfConcat(Parser(true, p.rest[0], p.rest[1..]), more);
        }
      }
    } else if |p.rest| >= p.need {
      assert all[..p.need] == p.rest[..p.need];
      assert all[p.need..] == p.rest[p.need..] + more;
      var q := Parser(false, p.need, p.rest[p.need..]);
      ParseOfConcat(q, more);
      AfterAfter([p.rest[..p.need]], Parse(q).messages, Parse(Parse(q).state.(rest := Parse(q).state.rest + more)));
    }
  }

  /// What the connection does over successive receive events.
  function ParseEvents(p: Parser, chunks: seq<seq<Byte>>): Parsed
    decreases |chunks|
  {
    if chunks == [] then Parsed([], false, p)
    else
      var q := Parse(p.(rest := p.rest + chunks[0]));
      if q.rejected then q else After(q.messages, ParseEvents(q.state, chunks[1..]))
  }

  /// For every cutting into events: the messages, and the verdict, of the uncut stream.
  lemma {:induction false} MessagesIgnorePacketisation(p: Parser, chunks: seq<seq<Byte>>)
    requires Parse(p) == Parsed([], false, p)
    ensures SameOutcome(ParseEvents(p, chunks), Parse(p.(rest := p.rest + Flatten(chunks))))
    decreases |chunks|
  {
    if chunks == [] {
      assert p.rest + Flatten(chunks) == p.rest;
    } else {
      var tail := Flatten(chunks[1..]);
      var first := p.(rest := p.rest + chunks[0]);
      var q := Parse(first);
      assert p.rest + Flatten(chunks) == first.rest + tail;
      ParseOfConcat(first, tail);
      if !q.rejected {
        ParseStops(first);
        MessagesIgnorePacketisation(q.state, chunks[1..]);
      }
    }
  }

  /// A parse that was not refused has consumed all it can.
  lemma {:induction false} ParseStops(p: Parser)
    ensures var q := Parse(p); !q.rejected ==> Parse(q.state) == Parsed([], false, q.state)
    decreases 2 * |p.rest| + (if p.gotHeader then 1 else 0)
  {
    if !p.gotHeader {
      if |p.rest| > 0 && !BadHeader(p.rest[0]) {
        ParseStops(Parser(true, p.rest[0], p.rest[1..]));
      }
    } else if |p.rest| >= p.need {
      ParseStops(Parser(false, p.need, p.rest[p.need..]));
    }
  }

  // ---------------------------------------------------------- the encoding

  /// Messages as a sender writes them, each behind its length.
  function Encode(messages: seq<seq<Byte>>): seq<Byte>
    requires AllFit(messages)
  {
    if messages == [] then [] else [|messages[0]|] + messages[0] + Encode(messages[1..])
  }

  predicate AllFit(messages: seq<seq<Byte>>) {
    forall i :: 0 <= i < |messages| ==> 0 < |messages[i]| <= DEMO_PROTOCOL_MAX_MSG_SIZE
  }

  lemma ParseOne(need: nat, m: seq<Byte>, rest: seq<Byte>)
    requires 0 < |m| <= DEMO_PROTOCOL_MAX_MSG_SIZE
    ensures Parse(Parser(false, need, [|m|] + m + rest)) == After([m], Parse(Parser(false, |m|, rest)))
  {
    var all := [|m|] + m + rest;
    assert all[1..] == m + rest;
    assert (m + rest)[..|m|] == m && (m + rest)[|m|..] == rest;
  }

  /// Parsing gives back exactly the messages encoded, and goes on behind them.
  lemma {:induction false} ParseEncoded(need: nat, messages: seq<seq<Byte>>, tail: seq<Byte>) returns (n: nat)
    requires AllFit(messages)
    ensures Parse(Parser(false, need, Encode(messages) + tail)) == After(messages, Parse(Parser(false, n, tail)))
    decreases |messages|
  {
    if messages == [] {
      n := need;
      assert Encode(messages) + tail == tail;
      AfterAfter([], [], Parse(Parser(false, n, tail)));
    } else {
      var m, more := messages[0], messages[1..];
      n := ParseEncoded(|m|, more, tail);
      assert Encode(messages) + tail == [|m|] + m + (Encode(more) + tail);
      ParseOne(need, m, Encode(more) + tail);
      AfterAfter([m], more, Parse(Parser(false, n, tail)));
      assert [m] + more == messages;
    }
  }

  /// Whole messages and then a header: it is refused exactly if it is zero or above the limit, after
  /// all messages before it were processed; otherwise its message is awaited.
  lemma HeaderIsRefusedIff(messages: seq<seq<Byte>>, header: Byte)
    requires AllFit(messages)
    ensures var p := Parse(Parser(false, 0, Encode(messages) + [header]));
            && p.messages == messages && (p.rejected <==> header == 0 || header > DEMO_PROTOCOL_MAX_MSG_SIZE)
            && (!p.rejected ==> p.state == Parser(true, header, []))
  {
    var n := ParseEncoded(0, messages, [header]);
    assert [header][1..] == [] && messages + [] == messages;
    if !BadHeader(header) {
      assert Parse(Parser(false, n, [header])) == Parse(Parser(true, header, []));
    }
  }

  /// What an unfinished parse has in hand.
  function InHand(p: Parser): seq<Byte>
    requires p.gotHeader ==> p.need <= DEMO_PROTOCOL_MAX_MSG_SIZE
  {
    (if p.gotHeader then [p.need] else []) + p.rest
  }

  /// Nothing is lost or invented: messages and what is in hand spell the bytes that came.
  lemma {:induction false} MessagesSpellStream(p: Parser)
    requires !p.gotHeader && !Parse(p).rejected
    ensures var q := Parse(p);
            && AllFit(q.messages) && (q.state.gotHeader ==> q.state.need <= DEMO_PROTOCOL_MAX_MSG_SIZE)
            && p.rest == Encode(q.messages) + InHand(q.state)
    decreases |p.rest|
  {
    if |p.rest| > 0 {
      var n, rest := p.rest[0], p.rest[1..];
      assert p.rest == [n] + rest;
      assert Parse(p) == Parse(Parser(true, n, rest));
      if |rest| >= n {
        var m, more := rest[..n], Parser(false, n, rest[n..]);
        MessagesSpellStream(more);
        assert Parse(p) == After([m], Parse(more));
        assert rest == m + more.rest;
        EncodeCons(m, Parse(more).messages);
        Regroup([n], m, Encode(Parse(more).messages), InHand(Parse(more).state));
      }
    }
  }

  lemma EncodeCons(m: seq<Byte>, more: seq<seq<Byte>>)
    requires 0 < |m| <= DEMO_PROTOCOL_MAX_MSG_SIZE && AllFit(more)
    ensures AllFit([m] + more) && Encode([m] + more) == [|m|] + m + Encode(more)
  {
    assert ([m] + more)[1..] == more;
  }

  lemma Regroup(a: seq<Byte>, b: seq<Byte>, c: seq<Byte>, d: seq<Byte>)
    ensures a + (b + (c + d)) == (a + b + c) + d
  {
  }
}
