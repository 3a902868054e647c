/// `uip_split_output`: a large TCP segment leaves as two packets, the second made in place
/// by copying the rest of the payload down over the first half.

module PacketSplit {
  import opened Basics
  import opened InternetChecksum

  const UIP_IPH_LEN: nat := 20
  const UIP_TCPIP_HLEN: nat := 40
  const UIP_PROTO_TCP: Byte := 6

  /// `ACTUAL_UIP_PACKET_SPLIT_THRESHOLD` with the shipped buffer size of 1526 bytes.
  const SPLIT_THRESHOLD: nat := 763

  // Packets are taken from the IP header on, without options.

  function LengthOf(p: seq<Byte>): Word
    requires |p| >= UIP_TCPIP_HLEN
  {
    Pair(p[2], p[3])
  }

  function SeqnoOf(p: seq<Byte>): (s: nat)
    requires |p| >= UIP_TCPIP_HLEN
    ensures s < TWO32
  {
    var high: int := Pair(p[24], p[25]);
    0x1_0000 * high + Pair(p[26], p[27])
  }

  function PayloadOf(p: seq<Byte>): seq<Byte>
    requires |p| >= UIP_TCPIP_HLEN
  {
    p[UIP_TCPIP_HLEN..]
  }

  function IpSum(p: seq<Byte>): Word
    requires |p| >= UIP_TCPIP_HLEN
  {
    OnesSum(0, p[..UIP_IPH_LEN])
  }

  function TcpSum(p: seq<Byte>): Word
    requires UIP_TCPIP_HLEN <= |p| < 0xffff
  {
    UpperLayerSum(UIP_PROTO_TCP, p[12..20], p[UIP_IPH_LEN..])
  }

  /// What the receiving stack checks: length field, header checksum, TCP checksum.
  predicate Intact(p: seq<Byte>) {
    && UIP_TCPIP_HLEN <= |p| < 0xffff
    && LengthOf(p) == |p|
    && Returned(IpSum(p)) == 0xffff
    && Returned(TcpSum(p)) == 0xffff
  }

  /// Equal headers but for the fields splitting must rewrite: length, the two checksums and
  /// the sequence number.
  predicate SameHeader(p: seq<Byte>, q: seq<Byte>)
    requires |p| >= UIP_TCPIP_HLEN && |q| >= UIP_TCPIP_HLEN
  {
    forall i :: 0 <= i < UIP_TCPIP_HLEN && !(2 <= i < 4 || 10 <= i < 12 || 24 <= i < 28 || 36 <= i < 38)
      ==> p[i] == q[i]
  }

  /// The packets that must leave for packet `p`.
  predicate SplitOf(p: seq<Byte>, sent: seq<seq<Byte>>)
    requires |p| >= UIP_TCPIP_HLEN
  {
    && |sent| == 2 && Intact(sent[0]) && Intact(sent[1])
    && Halves(p, sent[0], sent[1])
    && SeqnoOf(sent[0]) == SeqnoOf(p)
    && SeqnoOf(sent[1]) == Reduce(TWO32, SeqnoOf(p) + |PayloadOf(sent[0])|)
  }

  predicate Halves(p: seq<Byte>, first: seq<Byte>, second: seq<Byte>)
    requires |p| >= UIP_TCPIP_HLEN && |first| >= UIP_TCPIP_HLEN && |second| >= UIP_TCPIP_HLEN
  {
    && SameHeader(p, first) && SameHeader(p, second)
    && PayloadOf(first) + PayloadOf(second) == PayloadOf(p)
    && |PayloadOf(first)| == FirstLength(|PayloadOf(p)|)
  }

  /// `(tcplen / 2) & ~3`
  function FirstLength(tcplen: nat): (n: nat)
    ensures n % 4 == 0 && n <= tcplen / 2 < n + 4
  {
    tcplen / 2 - tcplen / 2 % 4
  }

  method StoreWord(buf: array<Byte>, at: nat, w: Word)
    requires at + 2 <= buf.Length
    modifies buf
    ensures buf[at] == w / 256 && buf[at + 1] == w % 256
    ensures forall k :: 0 <= k < buf.Length && k != at && k != at + 1 ==> buf[k] == old(buf[k])
  {
    buf[at], buf[at + 1] := w / 256, w % 256;
  }

  /// `BUF->tcpchksum = 0; BUF->tcpchksum = ~(uip_tcpchksum());`
  method FillTcpChecksum(buf: array<Byte>, n: nat)
    requires UIP_TCPIP_HLEN <= n <= buf.Length && n < 0xffff
    modifies buf
    ensures Returned(TcpSum(buf[..n])) == 0xffff
    ensures forall k :: 0 <= k < buf.Length && k != 36 && k != 37 ==> buf[k] == old(buf[k])
  {
    buf[36], buf[37] := 0, 0;
    ghost var before, after := buf[20..36], buf[38..n];
    assert buf[20..n] == before + [0, 0] + after;
    var sum := Chksum(n - UIP_IPH_LEN + UIP_PROTO_TCP, buf[12..20]);
    sum := Chksum(sum, buf[UIP_IPH_LEN..n]);
    var field := 0xffff - Returned(sum);
    buf[36], buf[37] := field % 256, field / 256;
    TransportChecksumVerifies(UIP_PROTO_TCP, buf[12..20], before, after);
    ghost var p := buf[..n];
    assert p[12..20] == buf[12..20];
    assert p[UIP_IPH_LEN..] == before + Stored(field) + after;
  }

  /// `BUF->ipchksum = 0; BUF->ipchksum = ~(uip_ipchksum());`
  method FillIpChecksum(buf: array<Byte>)
    requires UIP_TCPIP_HLEN <= buf.Length
    modifies buf
    ensures Returned(OnesSum(0, buf[..UIP_IPH_LEN])) == 0xffff
    ensures forall k :: 0 <= k < buf.Length && k != 10 && k != 11 ==> buf[k] == old(buf[k])
  {
    buf[10], buf[11] := 0, 0;
    ghost var before, after := buf[..10], buf[12..20];
    assert buf[..UIP_IPH_LEN] == before + [0, 0] + after;
    var sum := Chksum(0, buf[..UIP_IPH_LEN]);
    var field := 0xffff - Returned(sum);
    buf[10], buf[11] := field % 256, field / 256;
    FillThenVerify(0, before, after);
    assert buf[..UIP_IPH_LEN] == before + Stored(field) + after;
  }

  /// `uip_split_output_send`, returning the packet given to the driver. The header checksum
  /// is computed after the TCP checksum, which does not cover it.
  method SplitOutputSend(buf: array<Byte>, n: nat) returns (sent: seq<Byte>)
    requires UIP_TCPIP_HLEN <= n <= buf.Length && n < 0xffff && Pair(buf[2], buf[3]) == n
    modifies buf
    ensures sent == buf[..n] && Intact(sent)
    ensures forall k :: 0 <= k < buf.Length && k !in {10, 11, 36, 37} ==> buf[k] == old(buf[k])
  {
    FillTcpChecksum(buf, n);
    ghost var p := buf[..n];
    FillIpChecksum(buf);
    sent := buf[..n];
    assert sent[12..20] == p[12..20];
    assert sent[UIP_IPH_LEN..] == p[UIP_IPH_LEN..];
    assert sent[..UIP_IPH_LEN] == buf[..UIP_IPH_LEN];
  }

  /// The copy: one halfword, then len2 / 4 + 1 words, front to back over the overlapping
  /// regions. Up to six bytes behind the payload are read.
  method CopyPayloadDown(buf: array<Byte>, len1: nat, len2: nat)
    requires UIP_TCPIP_HLEN + len1 + len2 + 6 <= buf.Length
    modifies buf
    ensures forall k {:trigger buf[k]} :: UIP_TCPIP_HLEN <= k < UIP_TCPIP_HLEN + len2 ==> buf[k] == old(buf[k + len1])
    ensures forall k {:trigger buf[k]} :: 0 <= k < UIP_TCPIP_HLEN ==> buf[k] == old(buf[k])
  {
    var app := UIP_TCPIP_HLEN;
    buf[app], buf[app + 1] := buf[app + len1], buf[app + len1 + 1];
    CopyWords(buf, app + 2, len1, len2 / 4 + 1);
  }

  method CopyWords(buf: array<Byte>, dst: nat, shift: nat, words: nat)
    requires dst + shift + 4 * words <= buf.Length
    modifies buf
    ensures forall k {:trigger buf[k]} :: dst <= k < dst + 4 * words ==> buf[k] == old(buf[k + shift])
    ensures forall k {:trigger buf[k]} :: 0 <= k < dst ==> buf[k] == old(buf[k])
  {
    var i := 0;
    while i < words
      invariant i <= words
      invariant forall k {:trigger buf[k]} :: dst <= k < dst + 4 * i ==> buf[k] == old(buf[k + shift])
      invariant forall k {:trigger buf[k]} :: dst + 4 * i <= k < buf.Length ==> buf[k] == old(buf[k])
      invariant forall k {:trigger buf[k]} :: 0 <= k < dst ==> buf[k] == old(buf[k])
    {
      CopyWord(buf, dst + 4 * i, shift);
      i := i + 1;
    }
  }

  /// One word, loaded before it is stored.
  method CopyWord(buf: array<Byte>, d: nat, shift: nat)
    requires d + shift + 4 <= buf.Length
    modifies buf
    ensures forall k {:trigger buf[k]} :: d <= k < d + 4 ==> buf[k] == old(buf[k + shift])
    ensures forall k {:trigger buf[k]} :: 0 <= k < buf.Length && !(d <= k < d + 4) ==> buf[k] == old(buf[k])
  {
    var s := d + shift;
    var a, b, c, e := buf[s], buf[s + 1], buf[s + 2], buf[s + 3];
    buf[d], buf[d + 1], buf[d + 2], buf[d + 3] := a, b, c, e;
  }

  /// `uip_add32(BUF->seqno, n)` stored back.
  method AddToSeqno(buf: array<Byte>, n: nat)
    requires buf.Length >= UIP_TCPIP_HLEN
    modifies buf
    ensures SeqnoOf(buf[..]) == Reduce(TWO32, SeqnoOf(old(buf[..])) + n)
    ensures forall k :: 0 <= k < buf.Length && !(24 <= k < 28) ==> buf[k] == old(buf[k])
  {
    var high: int := Pair(buf[24], buf[25]);
    var s := Reduce(TWO32, 0x1_0000 * high + Pair(buf[26], buf[27]) + n);
    StoreWord(buf, 24, s / 0x1_0000);
    StoreWord(buf, 26, s % 0x1_0000);
    assert Pair(buf[24], buf[25]) == s / 0x1_0000 && Pair(buf[26], buf[27]) == s % 0x1_0000;
  }

  /// `uip_split_output` for the packet of `n` bytes in `buf`. Small segments only get their
  /// TCP checksum; packets of other protocols leave untouched.
  method SplitOutput(buf: array<Byte>, n: nat) returns (sent: seq<seq<Byte>>)
    requires UIP_TCPIP_HLEN <= n < 0xffff && n + 6 <= buf.Length
    requires LengthOf(buf[..n]) == n
    modifies buf
    ensures var p := old(buf[..n]);
            if p[9] != UIP_PROTO_TCP then sent == [p]
            else if |PayloadOf(p)| > SPLIT_THRESHOLD then SplitOf(p, sent)
            else
              && |sent| == 1 && |sent[0]| == n && Returned(TcpSum(sent[0])) == 0xffff
              && forall k :: 0 <= k < n && k != 36 && k != 37 ==> sent[0][k] == p[k]
  {
    if buf[9] != UIP_PROTO_TCP {
      return [buf[..n]];
    }
    var tcplen := n - UIP_TCPIP_HLEN;
    if tcplen <= SPLIT_THRESHOLD {
      FillTcpChecksum(buf, n);
      return [buf[..n]];
    }
    sent := SplitInTwo(buf, n);
  }

  method SplitInTwo(buf: array<Byte>, n: nat) returns (sent: seq<seq<Byte>>)
    requires UIP_TCPIP_HLEN <= n < 0xffff && n + 6 <= buf.Length
    modifies buf
    ensures SplitOf(old(buf[..n]), sent)
  {
    ghost var b := buf[..];
    var tcplen := n - UIP_TCPIP_HLEN;
    var len1 := FirstLength(tcplen);
    var first := SendFirst(buf, len1);
    ghost var w := buf[..];
    var second := SendSecond(buf, len1, tcplen - len1);
    sent := [first, second];
    TwoHalves(b, n, w, first, second, len1);
    assert b[..n] == old(buf[..n]);
  }

  /// `b` is the buffer before the first half went out, `w` the one after.
  lemma TwoHalves(b: seq<Byte>, n: nat, w: seq<Byte>, first: seq<Byte>, second: seq<Byte>, len1: nat)
    requires UIP_TCPIP_HLEN <= n <= |b| == |w|
    requires len1 == FirstLength(n - UIP_TCPIP_HLEN) && UIP_TCPIP_HLEN + len1 <= n
    requires |first| == UIP_TCPIP_HLEN + len1 && |second| == n - len1
    requires SameHeader(b, first) && SameHeader(b, w) && SameHeader(w, second)
    requires forall k :: UIP_TCPIP_HLEN <= k < |first| ==> first[k] == b[k]
    requires forall k :: UIP_TCPIP_HLEN <= k < |b| ==> w[k] == b[k]
    requires forall k {:trigger second[k]} :: UIP_TCPIP_HLEN <= k < |second| ==> second[k] == w[k + len1]
    ensures Halves(b[..n], first, second) && SeqnoOf(b[..n]) == SeqnoOf(b)
  {
    var p := b[..n];
    PrefixHasHeader(b, n, first);
    SameHeaderTransitive(b, w, second);
    PrefixHasHeader(b, n, second);
    PayloadParts(p, first, second, len1);
    assert |PayloadOf(p)| == n - UIP_TCPIP_HLEN && |PayloadOf(first)| == len1;
  }

  lemma PrefixHasHeader(b: seq<Byte>, n: nat, q: seq<Byte>)
    requires UIP_TCPIP_HLEN <= n <= |b| && UIP_TCPIP_HLEN <= |q| && SameHeader(b, q)
    ensures SameHeader(b[..n], q) && SeqnoOf(b[..n]) == SeqnoOf(b)
  {
  }

  lemma SameHeaderTransitive(b: seq<Byte>, w: seq<Byte>, q: seq<Byte>)
    requires |b| >= UIP_TCPIP_HLEN && |w| >= UIP_TCPIP_HLEN && |q| >= UIP_TCPIP_HLEN
    requires SameHeader(b, w) && SameHeader(w, q)
    ensures SameHeader(b, q)
  {
  }

  lemma PayloadParts(p: seq<Byte>, first: seq<Byte>, second: seq<Byte>, len1: nat)
    requires UIP_TCPIP_HLEN + len1 <= |p| && |first| == UIP_TCPIP_HLEN + len1 && |second| == |p| - len1
    requires forall k :: UIP_TCPIP_HLEN <= k < |first| ==> first[k] == p[k]
    requires forall k {:trigger second[k]} :: UIP_TCPIP_HLEN <= k < |second| ==> second[k] == p[k + len1]
    ensures PayloadOf(first) + PayloadOf(second) == PayloadOf(p)
  {
    assert PayloadOf(first) == PayloadOf(p)[..len1];
    assert PayloadOf(second) == PayloadOf(p)[len1..];
  }

  method SendFirst(buf: array<Byte>, len1: nat) returns (sent: seq<Byte>)
    requires UIP_TCPIP_HLEN + len1 < 0xffff && UIP_TCPIP_HLEN + len1 <= buf.Length
    modifies buf
    ensures |sent| == UIP_TCPIP_HLEN + len1 && Intact(sent)
    ensures SameHeader(old(buf[..]), sent) && SeqnoOf(sent) == SeqnoOf(old(buf[..]))
    ensures SameHeader(old(buf[..]), buf[..]) && SeqnoOf(buf[..]) == SeqnoOf(old(buf[..]))
    ensures forall k :: UIP_TCPIP_HLEN <= k < |sent| ==> sent[k] == old(buf[k])
    ensures forall k :: UIP_TCPIP_HLEN <= k < buf.Length ==> buf[k] == old(buf[k])
  {
    StoreWord(buf, 2, UIP_TCPIP_HLEN + len1);
    sent := SplitOutputSend(buf, UIP_TCPIP_HLEN + len1);
  }

  method SendSecond(buf: array<Byte>, len1: nat, len2: nat) returns (sent: seq<Byte>)
    requires UIP_TCPIP_HLEN + len1 + len2 + 6 <= buf.Length && UIP_TCPIP_HLEN + len2 < 0xffff
    modifies buf
    ensures |sent| == UIP_TCPIP_HLEN + len2 && Intact(sent)
    ensures SameHeader(old(buf[..]), sent)
    ensures SeqnoOf(sent) == Reduce(TWO32, SeqnoOf(old(buf[..])) + len1)
    ensures forall k {:trigger sent[k]} :: UIP_TCPIP_HLEN <= k < |sent| ==> sent[k] == old(buf[k + len1])
  {
    StoreWord(buf, 2, UIP_TCPIP_HLEN + len2);
    CopyPayloadDown(buf, len1, len2);
    ghost var before := buf[..];
    assert SeqnoOf(before) == SeqnoOf(old(buf[..]));
    AddToSeqno(buf, len1);
    ghost var after := buf[..];
    sent := SplitOutputSend(buf, UIP_TCPIP_HLEN + len2);
    assert SeqnoOf(sent) == SeqnoOf(after);
  }
}
