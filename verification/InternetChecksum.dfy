/// The Internet checksum: the folding sum of `chksum`, filling a checksum field so that it
/// verifies, and the two shortcuts that patch a checksum instead of recomputing it.

module InternetChecksum {
  import opened Basics

  /// The word with these octets.
  function Pair(high: Byte, low: Byte): Word {
    var h: int := high;
    256 * h + low
  }

  // ------------------------------------------------------------ the standard

  /// One's complement addition: the carry out of bit 15 is added back in.
  function OnesAdd(a: Word, b: Word): Word {
    if a + b >= 0x1_0000 then a + b - 0xffff else a + b
  }

  /// Section 1 of RFC 1071: the one's complement sum of the big-endian words, an odd last
  /// octet counting as the high half of a word.
  function OnesSum(seed: Word, data: seq<Byte>): Word
    decreases |data|
  {
    if data == [] then seed
    else if |data| == 1 then OnesAdd(seed, Pair(data[0], 0))
    else OnesSum(OnesAdd(seed, Pair(data[0], data[1])), data[2..])
  }

  // ------------------------------------------------------------ plain sums

  /// The same words added as integers, read big-endian and little-endian.
  function BigSum(data: seq<Byte>): nat {
    if data == [] then 0
    else if |data| == 1 then Pair(data[0], 0)
    else Pair(data[0], data[1]) + BigSum(data[2..])
  }

  function LittleSum(data: seq<Byte>): nat {
    if data == [] then 0
    else if |data| == 1 then data[0]
    else Pair(data[1], data[0]) + LittleSum(data[2..])
  }

  /// The representative of a sum modulo 65535 that is zero only for the sum zero.
  function Canonical(s: nat): Word {
    if s <= 0xffff then s else Canonical(s - 0xffff)
  }

  lemma {:induction false} CanonicalOf(s: nat, r: Word, k: int)
    requires s == r + 0xffff * k && (r == 0 <==> s == 0)
    ensures Canonical(s) == r
    decreases s
  {
    if s > 0xffff {
      CanonicalOf(s - 0xffff, r, k - 1);
    }
  }

  lemma {:induction false} CanonicalSplit(s: nat) returns (k: nat)
    ensures s == Canonical(s) + 0xffff * k && (Canonical(s) == 0 <==> s == 0)
  {
    if s <= 0xffff {
      k := 0;
    } else {
      k := CanonicalSplit(s - 0xffff);
      k := k + 1;
    }
  }

  lemma OnesAddIsCanonical(s: nat, w: Word)
    ensures OnesAdd(Canonical(s), w) == Canonical(s + w)
  {
    var k := CanonicalSplit(s);
    var r := OnesAdd(Canonical(s), w);
    CanonicalOf(s + w, r, if r == Canonical(s) + w then k else k + 1);
  }

  lemma {:induction false} OnesSumIsCanonical(s: nat, data: seq<Byte>)
    ensures OnesSum(Canonical(s), data) == Canonical(s + BigSum(data))
    decreases |data|
  {
    if |data| == 1 {
      OnesAddIsCanonical(s, Pair(data[0], 0));
    } else if |data| > 1 {
      OnesAddIsCanonical(s, Pair(data[0], data[1]));
      OnesSumIsCanonical(s + Pair(data[0], data[1]), data[2..]);
    }
  }

  lemma SumFromSeed(seed: Word, data: seq<Byte>)
    ensures OnesSum(seed, data) == Canonical(seed + BigSum(data))
  {
    CanonicalOf(seed, seed, 0);
    OnesSumIsCanonical(seed, data);
  }

  // ------------------------------------------------------------- the code

  /// `onesReduce` without carry: one fold of a 32-bit sum may leave a carry, two do not.
  method OnesReduce(s: nat) returns (r: Word)
    requires s < TWO32
    ensures r == Canonical(s)
  {
    var t := s % 0x1_0000 + s / 0x1_0000;
    r := t % 0x1_0000 + t / 0x1_0000;
    CanonicalOf(s, r, s / 0x1_0000 + t / 0x1_0000);
  }

  /// `chksum`. The accumulator is 32 bits wide and is shown never to wrap.
  method Chksum(seed: Word, data: seq<Byte>) returns (sum: Word)
    requires |data| < 0x1_0000
    ensures sum == OnesSum(seed, data)
    ensures sum == 0 <==> seed == 0 && forall i :: 0 <= i < |data| ==> data[i] == 0
  {
    var s: nat := seed;
    var i := 0;
    ghost var rest := data;
    while i < |data| / 2
      invariant i <= |data| / 2 && rest == data[2 * i..]
      invariant s <= 0xffff * (i + 1)
      invariant s + BigSum(rest) == seed + BigSum(data)
    {
      SumStep(data, i);
      s := Reduce(TWO32, s + Pair(data[2 * i], data[2 * i + 1]));
      i := i + 1;
      rest := data[2 * i..];
    }
    if |data| % 2 == 1 {
      s := Reduce(TWO32, s + Pair(data[2 * i], 0));
    }
    SumFromSeed(seed, data);
    ZeroSum(data);
    ghost var k := CanonicalSplit(s);
    sum := OnesReduce(s);
  }

  lemma SumStep(data: seq<Byte>, i: nat)
    requires 2 * i + 1 < |data|
    ensures BigSum(data[2 * i..]) == Pair(data[2 * i], data[2 * i + 1]) + BigSum(data[2 * (i + 1)..])
  {
    assert data[2 * i..][2..] == data[2 * (i + 1)..];
  }

  lemma {:induction false} ZeroSum(data: seq<Byte>)
    ensures BigSum(data) == 0 <==> forall i :: 0 <= i < |data| ==> data[i] == 0
    decreases |data|
  {
    if |data| > 1 {
      ZeroSum(data[2..]);
      assert forall i :: 2 <= i < |data| ==> data[i] == data[2..][i - 2];
    }
  }

  // --------------------------------------------------- composing and filling

  lemma {:induction false} BigSumOfConcat(a: seq<Byte>, b: seq<Byte>)
    requires |a| % 2 == 0
    ensures BigSum(a + b) == BigSum(a) + BigSum(b)
    decreases |a|
  {
    if a == [] {
      assert a + b == b;
    } else {
      assert (a + b)[2..] == a[2..] + b;
      BigSumOfConcat(a[2..], b);
    }
  }

  /// Summing in two calls, the second seeded with the first, is summing once.
  lemma ChksumComposes(seed: Word, a: seq<Byte>, b: seq<Byte>)
    requires |a| % 2 == 0
    ensures OnesSum(OnesSum(seed, a), b) == OnesSum(seed, a + b)
  {
    var n := seed + BigSum(a);
    calc {
      OnesSum(OnesSum(seed, a), b);
      { SumFromSeed(seed, a); }
      OnesSum(Canonical(n), b);
      { OnesSumIsCanonical(n, b); }
      Canonical(n + BigSum(b));
      { BigSumOfConcat(a, b); }
      Canonical(seed + BigSum(a + b));
      { SumFromSeed(seed, a + b); }
      OnesSum(seed, a + b);
    }
  }

  /// A 16-bit value as the little-endian machine stores and loads it.
  function Stored(w: Word): seq<Byte> {
    [w % 256, w / 256]
  }

  function Loaded(b: seq<Byte>): Word
    requires |b| == 2
  {
    Pair(b[1], b[0])
  }

  /// The value `uip_ipchksum` and `upper_layer_chksum` return for a sum.
  function Returned(sum: Word): Word {
    if sum == 0 then 0xffff else Htons(sum)
  }

  /// A checksum field cleared, then filled with the complement of the returned value, makes
  /// the same computation return 0xffff, wherever the field is and whatever is around it.
  lemma FillThenVerify(seed: Word, before: seq<Byte>, after: seq<Byte>)
    requires |before| % 2 == 0
    ensures var cleared := before + [0, 0] + after;
            var filled := before + Stored(0xffff - Returned(OnesSum(seed, cleared))) + after;
            Returned(OnesSum(seed, filled)) == 0xffff
  {
    var cleared := before + [0, 0] + after;
    var field: Word := 0xffff - Returned(OnesSum(seed, cleared));
    FillAddsField(before, after, field);
    SumFromSeed(seed, cleared);
    SumFromSeed(seed, before + Stored(field) + after);
    ComplementSum(seed + BigSum(cleared), field);
  }

  lemma FillAddsField(before: seq<Byte>, after: seq<Byte>, field: Word)
    requires |before| % 2 == 0
    ensures BigSum(before + Stored(field) + after) == BigSum(before + [0, 0] + after) + Htons(field)
  {
    ThreeParts(before, [0, 0], after);
    ThreeParts(before, Stored(field), after);
  }

  /// Adding the complement of a sum to it.
  lemma ComplementSum(s: nat, field: Word)
    requires field == 0xffff - Returned(Canonical(s))
    ensures Returned(Canonical(s + Htons(field))) == 0xffff
  {
    var k := CanonicalSplit(s);
    if s > 0 {
      HtonsComplement(Canonical(s));
      FillUp(s, 0xffff - Canonical(s));
    }
  }

  lemma FillUp(s: nat, h: nat)
    requires s > 0 && h == 0xffff - Canonical(s)
    ensures Canonical(s + h) == 0xffff
  {
    var k := CanonicalSplit(s);
    CanonicalOf(s + h, 0xffff, k);
  }

  lemma HtonsComplement(c: Word)
    ensures Htons(0xffff - Htons(c)) == 0xffff - c
  {
    var h, l := c / 256, c % 256;
    assert 0xffff - Htons(c) == 256 * (255 - l) + (255 - h);
  }

  lemma ThreeParts(a: seq<Byte>, b: seq<Byte>, c: seq<Byte>)
    requires |a| % 2 == 0 && |b| == 2
    ensures BigSum(a + b + c) == BigSum(a) + Pair(b[0], b[1]) + BigSum(c)
  {
    BigSumOfConcat(a, b);
    BigSumOfConcat(a + b, c);
  }

  /// The sum `upper_layer_chksum` folds: pseudo-header first, then the segment.
  function UpperLayerSum(proto: Byte, addresses: seq<Byte>, segment: seq<Byte>): Word
    requires |segment| + proto < 0x1_0000
  {
    OnesSum(OnesSum(|segment| + proto, addresses), segment)
  }

  /// The pseudo-header of section 3.1 of RFC 793: both addresses, a zero octet, protocol, length.
  predicate IsPseudoHeader(h: seq<Byte>, proto: Byte, addresses: seq<Byte>, length: Word) {
    |h| == |addresses| + 4 && h[..|h| - 2] == addresses + [0, proto] && Pair(h[|h| - 2], h[|h| - 1]) == length
  }

  lemma OneWordMore(a: seq<Byte>, high: Byte, low: Byte)
    requires |a| % 2 == 0
    ensures BigSum(a + [high, low]) == BigSum(a) + Pair(high, low)
  {
    BigSumOfConcat(a, [high, low]);
    assert [high, low][2..] == [];
  }

  lemma PseudoHeaderSum(h: seq<Byte>, proto: Byte, addresses: seq<Byte>, length: Word)
    requires IsPseudoHeader(h, proto, addresses, length) && |addresses| % 2 == 0
    ensures |h| % 2 == 0 && BigSum(h) == BigSum(addresses) + proto + length
  {
    var front, high, low := h[..|h| - 2], h[|h| - 2], h[|h| - 1];
    assert h == front + [high, low];
    OneWordMore(front, high, low);
    OneWordMore(addresses, 0, proto);
  }

  lemma SumOfTwo(seed: Word, a: seq<Byte>, b: seq<Byte>, s: nat)
    requires |a| % 2 == 0 && s == seed + BigSum(a) + BigSum(b)
    ensures OnesSum(seed, a + b) == OnesSum(OnesSum(seed, a), b) == Canonical(s)
  {
    ChksumComposes(seed, a, b);
    SumFromSeed(seed, a + b);
    BigSumOfConcat(a, b);
  }

  /// Starting the sum with length and protocol is summing the pseudo-header in front of the segment.
  lemma UpperLayerCoversPseudoHeader(h: seq<Byte>, proto: Byte, addresses: seq<Byte>, segment: seq<Byte>)
    requires |segment| + proto < 0x1_0000 && |addresses| % 2 == 0
    requires IsPseudoHeader(h, proto, addresses, |segment|)
    ensures UpperLayerSum(proto, addresses, segment) == OnesSum(0, h + segment)
  {
    PseudoHeaderSum(h, proto, addresses, |segment|);
    HeaderInFront(|segment| + proto, h, addresses, segment);
  }

  lemma HeaderInFront(seed: Word, h: seq<Byte>, addresses: seq<Byte>, segment: seq<Byte>)
    requires |h| % 2 == 0 && |addresses| % 2 == 0 && BigSum(h) == seed + BigSum(addresses)
    ensures OnesSum(OnesSum(seed, addresses), segment) == OnesSum(0, h + segment)
  {
    var s := BigSum(h) + BigSum(segment);
    SumOfTwo(seed, addresses, segment, s);
    SumOfTwo(0, h, segment, s);
  }

  /// A transport checksum filled by the sender is accepted by the receiver.
  lemma TransportChecksumVerifies(proto: Byte, addresses: seq<Byte>, before: seq<Byte>, after: seq<Byte>)
    requires |before| % 2 == 0 && |before| + 2 + |after| + proto < 0x1_0000
    ensures var sum := UpperLayerSum(proto, addresses, before + [0, 0] + after);
            var filled := before + Stored(0xffff - Returned(sum)) + after;
            Returned(UpperLayerSum(proto, addresses, filled)) == 0xffff
  {
    var seed := OnesSum(|before| + 2 + |after| + proto, addresses);
    FillThenVerify(seed, before, after);
    SameLength(proto, addresses, before, [0, 0], after, seed);
    var sum := OnesSum(seed, before + [0, 0] + after);
    SameLength(proto, addresses, before, Stored(0xffff - Returned(sum)), after, seed);
  }

  lemma SameLength(proto: Byte, addresses: seq<Byte>, a: seq<Byte>, b: seq<Byte>, c: seq<Byte>, seed: Word)
    requires |b| == 2 && |a| + 2 + |c| + proto < 0x1_0000
    requires seed == OnesSum(|a| + 2 + |c| + proto, addresses)
    ensures UpperLayerSum(proto, addresses, a + b + c) == OnesSum(seed, a + b + c)
  {
  }

  // -------------------------------------------------------- byte order

  /// Sums of the octets at even and at odd positions.
  function EvenSum(data: seq<Byte>): nat {
    if data == [] then 0 else if |data| == 1 then data[0] else data[0] + EvenSum(data[2..])
  }

  function OddSum(data: seq<Byte>): nat {
    if |data| < 2 then 0 else data[1] + OddSum(data[2..])
  }

  /// Section 2(B) of RFC 1071 as two equations: swapping the octets of every word multiplies
  /// the sum by 256 modulo 65535, and back.
  lemma {:induction false} ByteOrderIndependence(data: seq<Byte>)
    ensures 256 * BigSum(data) == LittleSum(data) + 0xffff * EvenSum(data)
    ensures 256 * LittleSum(data) == BigSum(data) + 0xffff * OddSum(data)
    decreases |data|
  {
    if |data| > 1 {
      ByteOrderIndependence(data[2..]);
    }
  }

  /// A packet is intact when its big-endian sum is all ones.
  predicate Verifies(data: seq<Byte>) {
    OnesSum(0, data) == 0xffff
  }

  /// The multiple that makes up one sum from the other.
  lemma AllOnesTransfers(s: nat, t: nat, e: int)
    requires 256 * s == t + 0xffff * e && (s == 0 <==> t == 0) && Canonical(s) == 0xffff
    ensures Canonical(t) == 0xffff
  {
    var k := CanonicalSplit(s);
    CanonicalOf(t, 0xffff, 256 * (k + 1) - e - 1);
  }

  lemma {:induction false} ZeroInBothOrders(data: seq<Byte>)
    ensures BigSum(data) == 0 <==> LittleSum(data) == 0
    decreases |data|
  {
    if |data| > 1 {
      ZeroInBothOrders(data[2..]);
    }
  }

  /// A packet sums to all ones in one byte order exactly if it does in the other.
  lemma VerifiesInEitherOrder(data: seq<Byte>)
    ensures Verifies(data) <==> Canonical(LittleSum(data)) == 0xffff
  {
    SumFromSeed(0, data);
    ByteOrderIndependence(data);
    ZeroInBothOrders(data);
    if Canonical(BigSum(data)) == 0xffff {
      AllOnesTransfers(BigSum(data), LittleSum(data), EvenSum(data));
    }
    if Canonical(LittleSum(data)) == 0xffff {
      AllOnesTransfers(LittleSum(data), BigSum(data), OddSum(data));
    }
  }

  // --------------------------------------------------------- shortcuts

  /// Adding `delta` to a loaded checksum with the end-around carry of the two shortcuts,
  /// truncated to 16 bits.
  function Patched(field: Word, delta: Word): (r: Word)
    requires delta < 0xffff
    ensures r == field + delta || r == field + delta - 0xffff
  {
    if field >= 0xffff - delta then (field + delta + 1) % 0x1_0000 else field + delta
  }

  lemma {:induction false} LittleSumOfUpdate(data: seq<Byte>, i: nat, b: Byte)
    requires i < |data|
    ensures LittleSum(data[i := b]) == LittleSum(data) + if i % 2 == 0 then b - data[i] else 256 * (b - data[i])
    decreases |data|
  {
    if i >= 2 {
      assert data[i := b][2..] == data[2..][i - 2 := b];
      LittleSumOfUpdate(data[2..], i - 2, b);
    } else if |data| > 1 {
      assert data[i := b][2..] == data[2..];
    }
  }

  const ICMP_ECHO: Byte := 8
  const ICMP_ECHO_REPLY: Byte := 0

  /// An ICMP message with its type and checksum rewritten the way the echo reply is made.
  function EchoReply(icmp: seq<Byte>): seq<Byte>
    requires |icmp| >= 8
  {
    var field := Patched(Loaded(icmp[2..4]), Htons(ICMP_ECHO * 256));
    icmp[0 := ICMP_ECHO_REPLY][2 := field % 256][3 := field / 256]
  }

  /// Lines 1080-1086 on the packet buffer.
  method MakeEchoReply(icmp: array<Byte>)
    requires icmp.Length >= 8
    modifies icmp
    ensures icmp[..] == EchoReply(old(icmp[..]))
  {
    icmp[0] := ICMP_ECHO_REPLY;
    var field: Word := Pair(icmp[3], icmp[2]);
    if field >= Htons(0xffff - ICMP_ECHO * 256) {
      field := (field + Htons(ICMP_ECHO * 256) + 1) % 0x1_0000;
    } else {
      field := field + Htons(ICMP_ECHO * 256);
    }
    icmp[2], icmp[3] := field % 256, field / 256;
  }

  /// Nothing but type and checksum is set.
  predicate BlankEcho(icmp: seq<Byte>)
    requires |icmp| >= 8
  {
    icmp[1] == 0 && forall i :: 4 <= i < |icmp| ==> icmp[i] == 0
  }

  /// The shortcut keeps the sum unchanged modulo 65535. So the reply to an intact request is
  /// intact, except when that leaves a message of zeros, which sums to 0 and not to 0xffff.
  lemma EchoReplyVerifiesUnlessBlank(icmp: seq<Byte>)
    requires |icmp| >= 8 && icmp[0] == ICMP_ECHO && Verifies(icmp)
    ensures Verifies(EchoReply(icmp)) <==> !BlankEcho(icmp)
    ensures Returned(OnesSum(0, EchoReply(icmp))) == 0xffff
    ensures var r := EchoReply(icmp);
            && |r| == |icmp| && r[0] == ICMP_ECHO_REPLY && r[1] == icmp[1]
            && forall i :: 4 <= i < |icmp| ==> r[i] == icmp[i]
  {
    var r := EchoReply(icmp);
    EchoReplySum(icmp);
    VerifiesInEitherOrder(icmp);
    VerifiesInEitherOrder(r);
    SameSumOrZero(LittleSum(icmp), LittleSum(r));
    ZeroInBothOrders(r);
    ZeroSum(r);
    SumFromSeed(0, r);
    if BlankEcho(icmp) {
      BlankEchoIsZero(icmp);
    } else {
      assert r[1] != 0 || exists i :: 4 <= i < |r| && r[i] != 0;
    }
  }

  lemma SameSumOrZero(s: nat, t: nat)
    requires Canonical(s) == 0xffff && (t == s || t == s - 0xffff)
    ensures Canonical(t) == if t == 0 then 0 else 0xffff
  {
  }

  lemma EchoReplySum(icmp: seq<Byte>)
    requires |icmp| >= 8 && icmp[0] == ICMP_ECHO
    ensures LittleSum(EchoReply(icmp)) - LittleSum(icmp) in {0, -0xffff}
  {
    var old16: int := Loaded(icmp[2..4]);
    var new16: int := Patched(old16, 8);
    var a := icmp[0 := ICMP_ECHO_REPLY];
    var b := a[2 := new16 % 256];
    LittleSumOfUpdate(icmp, 0, ICMP_ECHO_REPLY);
    LittleSumOfUpdate(a, 2, new16 % 256);
    LittleSumOfUpdate(b, 3, new16 / 256);
    var change := new16 - old16 - 8;
    assert LittleSum(EchoReply(icmp)) == LittleSum(icmp) + change && change in {0, -0xffff};
  }

  lemma BlankEchoIsZero(icmp: seq<Byte>)
    requires |icmp| >= 8 && icmp[0] == ICMP_ECHO && Verifies(icmp) && BlankEcho(icmp)
    ensures forall i :: 0 <= i < |icmp| ==> EchoReply(icmp)[i] == 0
  {
    VerifiesInEitherOrder(icmp);
    var rest := icmp[4..];
    ByteOrderIndependence(rest);
    ZeroSum(rest);
    assert icmp[2..][2..] == rest;
    assert LittleSum(icmp) == 8 + Loaded(icmp[2..4]) + LittleSum(rest);
  }

  const BLANK_REQUEST: seq<Byte> := [8, 0, 0xf7, 0xff, 0, 0, 0, 0]

  lemma BlankRequestSum()
    ensures OnesSum(0, BLANK_REQUEST) == 0xffff
  {
    var tail: seq<Byte> := [0, 0, 0, 0];
    var rest: seq<Byte> := [0xf7, 0xff, 0, 0, 0, 0];
    assert BLANK_REQUEST[2..] == rest && rest[2..] == tail;
    ZeroSum(tail);
    SumFromSeed(0xffff, tail);
    assert OnesSum(0x0800, rest) == OnesSum(0xffff, tail) == 0xffff;
    assert OnesSum(0, BLANK_REQUEST) == OnesSum(0x0800, rest);
  }

  /// The request 08 00 f7 ff with identifier and sequence number zero is such a message.
  lemma SomeEchoRepliesDoNotVerify()
    ensures exists icmp :: |icmp| >= 8 && icmp[0] == ICMP_ECHO && Verifies(icmp) && !Verifies(EchoReply(icmp))
  {
    BlankRequestSum();
    EchoReplyVerifiesUnlessBlank(BLANK_REQUEST);
  }

  /// An IPv4 header with TTL and checksum rewritten as `uip_fw_forward` does.
  function Forwarded(header: seq<Byte>): seq<Byte>
    requires |header| == 20 && header[8] > 1
  {
    var field := Patched(Loaded(header[10..12]), Htons(0x0100));
    header[8 := header[8] - 1][10 := field % 256][11 := field / 256]
  }

  /// Lines 468-476 of `uip_fw_forward`.
  method DecrementTtl(header: array<Byte>)
    requires header.Length == 20 && header[8] > 1
    modifies header
    ensures header[..] == Forwarded(old(header[..]))
  {
    header[8] := header[8] - 1;
    var field: Word := Pair(header[11], header[10]);
    if field >= Htons(0xffff - 0x0100) {
      field := (field + Htons(0x0100) + 1) % 0x1_0000;
    } else {
      field := field + Htons(0x0100);
    }
    header[10], header[11] := field % 256, field / 256;
  }

  /// Forwarding keeps every intact header intact; its version octet keeps the sum from zero.
  lemma ForwardedHeaderVerifies(header: seq<Byte>)
    requires |header| == 20 && header[0] == 0x45 && header[8] > 1 && Verifies(header)
    ensures Verifies(Forwarded(header))
    ensures var r := Forwarded(header);
            && |r| == 20 && r[8] == header[8] - 1
            && forall i :: 0 <= i < 20 && i !in {8, 10, 11} ==> r[i] == header[i]
  {
    var r := Forwarded(header);
    ForwardedSum(header);
    VerifiesInEitherOrder(header);
    VerifiesInEitherOrder(r);
    FirstOctetCounts(r);
    ZeroInBothOrders(r);
    SameSumOrZero(LittleSum(header), LittleSum(r));
  }

  lemma FirstOctetCounts(data: seq<Byte>)
    requires |data| >= 2 && data[0] > 0
    ensures BigSum(data) > 0
  {
  }

  lemma ForwardedSum(header: seq<Byte>)
    requires |header| == 20 && header[8] > 1
    ensures LittleSum(Forwarded(header)) - LittleSum(header) in {0, -0xffff}
  {
    var old16: int := Loaded(header[10..12]);
    var new16: int := Patched(old16, 1);
    var a := header[8 := header[8] - 1];
    var b := a[10 := new16 % 256];
    LittleSumOfUpdate(header, 8, header[8] - 1);
    LittleSumOfUpdate(a, 10, new16 % 256);
    LittleSumOfUpdate(b, 11, new16 / 256);
    var change := new16 - old16 - 1;
    assert LittleSum(Forwarded(header)) == LittleSum(header) + change && change in {0, -0xffff};
  }

  /// An IPv4 header with the addresses exchanged as for an echo reply: the old source becomes
  /// the destination, this host the source.
  function Turned(header: seq<Byte>, host: seq<Byte>): seq<Byte>
    requires |header| == 20 && |host| == 4
  {
    header[..12] + host + header[12..16]
  }

  /// The reply reuses the checksum of the request header, which is right exactly because the
  /// request was addressed to this host.
  lemma TurnedHeaderVerifies(header: seq<Byte>, host: seq<Byte>)
    requires |header| == 20 && |host| == 4 && header[16..] == host
    ensures OnesSum(0, Turned(header, host)) == OnesSum(0, header)
    ensures var r := Turned(header, host);
            |r| == 20 && r[..12] == header[..12] && r[12..16] == header[16..] && r[16..] == header[12..16]
  {
    var a, src := header[..12], header[12..16];
    assert header == a + src + host && Turned(header, host) == a + host + src;
    ExchangeKeepsSum(a, src, host);
    SumFromSeed(0, header);
    SumFromSeed(0, Turned(header, host));
  }

  lemma ExchangeKeepsSum(a: seq<Byte>, b: seq<Byte>, c: seq<Byte>)
    requires |a| == 12 && |b| == |c| == 4
    ensures BigSum(a + b + c) == BigSum(a + c + b)
  {
    BigSumOfConcat(a, b);
    BigSumOfConcat(a + b, c);
    BigSumOfConcat(a, c);
    BigSumOfConcat(a + c, b);
  }
}
