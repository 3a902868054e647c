/// The names of `mdns.c`: dotted strings, their encoding as length-prefixed labels, and the
/// reverse-lookup names of IPv4 addresses. Compression pointers are only recognised.

module MdnsName {
  import opened Basics

  const DOT: Byte := 46
  const DIGIT_0: Byte := 48

  /// A C string without its terminating NUL.
  predicate IsString(s: seq<Byte>) {
    forall i :: 0 <= i < |s| ==> s[i] != 0
  }

  /// Reading a message; what follows it in the buffer reads as zero.
  function Char(m: seq<Byte>, p: nat): Byte {
    if p < |m| then m[p] else 0
  }

  /// The bytes `e` stand in the message at `p`.
  predicate HoldsAt(m: seq<Byte>, p: nat, e: seq<Byte>) {
    p <= |m| && e <= m[p..]
  }

  lemma HoldsPart(m: seq<Byte>, p: nat, a: seq<Byte>, b: seq<Byte>)
    requires HoldsAt(m, p, a + b)
    ensures HoldsAt(m, p, a) && HoldsAt(m, p + |a|, b)
    ensures a != [] ==> Char(m, p) == a[0]
  {
    assert a == (a + b)[..|a|] == m[p..][..|a|];
    assert m[p..][|a|..] == m[p + |a|..];
    assert b == (a + b)[|a|..];
    assert a != [] ==> m[p..][0] == (a + b)[0];
  }

  // -------------------------------------------------------------- encoding

  function LabelLength(t: seq<Byte>): (n: nat)
    ensures n <= |t|
  {
    if t == [] || t[0] == DOT then 0 else 1 + LabelLength(t[1..])
  }

  lemma {:induction false} LabelLengthMeaning(t: seq<Byte>)
    ensures var n := LabelLength(t); DOT !in t[..n] && (n < |t| ==> t[n] == DOT)
  {
    if t != [] && t[0] != DOT {
      LabelLengthMeaning(t[1..]);
      var n := LabelLength(t);
      assert t[..n] == [t[0]] + t[1..][..n - 1];
    }
  }

  /// `mdns_encode_name`: the length is stored in one byte.
  function Encode(t: seq<Byte>): (e: seq<Byte>)
    ensures |e| >= 2
    decreases |t|
  {
    var n := LabelLength(t);
    [U8(n)] + t[..n] + (if n + 1 < |t| then Encode(t[n + 1..]) else [0])
  }

  /// The labels of a dotted name; a dot at the end adds none.
  function Labels(t: seq<Byte>): (ls: seq<seq<Byte>>)
    ensures ls != []
    decreases |t|
  {
    var n := LabelLength(t);
    [t[..n]] + (if n + 1 < |t| then Labels(t[n + 1..]) else [])
  }

  /// Labels on the wire.
  function Wire(ls: seq<seq<Byte>>): (e: seq<Byte>)
    ensures e != []
  {
    if ls == [] then [0] else [U8(|ls[0]|)] + ls[0] + Wire(ls[1..])
  }

  lemma {:induction false} EncodeIsWire(t: seq<Byte>)
    ensures Encode(t) == Wire(Labels(t))
    decreases |t|
  {
    var n := LabelLength(t);
    if n + 1 < |t| {
      EncodeIsWire(t[n + 1..]);
      assert Labels(t)[1..] == Labels(t[n + 1..]);
    } else {
      assert Labels(t)[1..] == [];
    }
  }

  predicate NoEmptyLabelAfterFirst(ls: seq<seq<Byte>>) {
    forall i :: 1 <= i < |ls| ==> ls[i] != []
  }

  /// Section 2.3.4 of RFC 1035 allows 63; up to 127 the length byte is neither a pointer nor
  /// negative as a `char`.
  predicate ShortLabels(ls: seq<seq<Byte>>) {
    forall i :: 0 <= i < |ls| ==> |ls[i]| <= 127
  }

  lemma WireParts(m: seq<Byte>, p: nat, ls: seq<seq<Byte>>)
    requires ls != [] && ShortLabels(ls) && HoldsAt(m, p, Wire(ls))
    ensures var n := |ls[0]|;
            && Char(m, p) == n && HoldsAt(m, p + 1, ls[0]) && HoldsAt(m, p + 1 + n, Wire(ls[1..]))
            && Char(m, p + 1 + n) == (if |ls| == 1 then 0 else |ls[1]|)
            && |Wire(ls)| == 1 + n + |Wire(ls[1..])|
  {
    var n := |ls[0]|;
    var rest := Wire(ls[1..]);
    WireCons(ls);
    HoldsPart(m, p, [n], ls[0] + rest);
    HoldsPart(m, p + 1, ls[0], rest);
    HeldChar(m, p + 1 + n, rest, 0);
    WireFirst(ls[1..]);
  }

  lemma WireCons(ls: seq<seq<Byte>>)
    requires ls != [] && ShortLabels(ls)
    ensures Wire(ls) == [|ls[0]|] + (ls[0] + Wire(ls[1..]))
    ensures ShortLabels(ls[1..]) && (|ls| > 1 ==> ls[1..][0] == ls[1])
  {
    assert U8(|ls[0]|) == |ls[0]|;
  }

  lemma WireFirst(ls: seq<seq<Byte>>)
    requires ShortLabels(ls)
    ensures Wire(ls)[0] == if ls == [] then 0 else |ls[0]|
  {
  }

  lemma HeldChar(m: seq<Byte>, p: nat, e: seq<Byte>, k: nat)
    requires HoldsAt(m, p, e) && k < |e|
    ensures Char(m, p + k) == e[k]
  {
    assert m[p..][k] == e[k];
  }

  // --------------------------------------------------------------- parsing

  datatype Parsed = End(next: nat) | Malformed | Pointer

  /// `mdns_parse_name` from a label at `q`: where the name ends, or NULL at the limit.
  function Parse(m: seq<Byte>, q: nat, limit: nat): Parsed
    decreases limit - q
  {
    if q > limit || q + 1 > limit then Malformed
    else
      var n := Char(m, q);
      if n >= 192 then Pointer
      else
        var next := q + 1 + n;
        if next > limit then Malformed
        else if Char(m, next) == 0 then End(next + 1)
        else Parse(m, next, limit)
  }

  method ParseName(m: seq<Byte>, query: nat, limit: nat) returns (r: Parsed)
    ensures r == Parse(m, query, limit)
  {
    var q := query;
    if q > limit {
      return Malformed;
    }
    while true
      invariant q <= limit && Parse(m, q, limit) == Parse(m, query, limit)
      decreases limit - q
    {
      var n := Char(m, q);
      q := q + 1;
      if q > limit {
        return Malformed;
      }
      if n >= 192 {
        return Pointer;
      }
      ghost var start := q;
      while n > 0
        invariant start <= q <= limit && 0 <= n && q + n == start + Char(m, start - 1)
      {
        q := q + 1;
        n := n - 1;
        if q > limit {
          return Malformed;
        }
      }
      if Char(m, q) == 0 {
        return End(q + 1);
      }
    }
  }

  lemma {:induction false} ParseWire(m: seq<Byte>, q: nat, limit: nat, ls: seq<seq<Byte>>)
    requires ls != [] && ShortLabels(ls) && HoldsAt(m, q, Wire(ls)) && q + |Wire(ls)| <= limit
    ensures Parse(m, q, limit).End? && Parse(m, q, limit).next <= q + |Wire(ls)|
    ensures Parse(m, q, limit) == End(q + |Wire(ls)|) <==> NoEmptyLabelAfterFirst(ls)
    decreases |ls|
  {
    WireParts(m, q, ls);
    var rest := ls[1..];
    if rest == [] {
      assert Wire(rest) == [0];
    } else if ls[1] == [] {
      assert |Wire(rest)| >= 2;
    } else {
      ParseWire(m, q + 1 + |ls[0]|, limit, rest);
      assert forall i :: 1 <= i < |ls| ==> ls[i] == rest[i - 1];
      assert forall i :: 0 <= i < |rest| ==> rest[i] == ls[i + 1];
    }
  }

  /// Parsing skips exactly the bytes the encoder wrote if and only if no label after the first
  /// is empty; with an empty one it stops short.
  lemma ParseSkipsEncodedIff(m: seq<Byte>, q: nat, limit: nat, t: seq<Byte>)
    requires ShortLabels(Labels(t)) && HoldsAt(m, q, Encode(t)) && q + |Encode(t)| <= limit
    ensures Parse(m, q, limit).End? && Parse(m, q, limit).next <= q + |Encode(t)|
    ensures Parse(m, q, limit) == End(q + |Encode(t)|) <==> NoEmptyLabelAfterFirst(Labels(t))
  {
    EncodeIsWire(t);
    ParseWire(m, q, limit, Labels(t));
  }

  // ------------------------------------------------------------- comparing

  datatype Scan = Differ(result: int) | At(i: nat, p: nat)

  /// The inner loop of `mdns_compare_name`, over a label of `n` bytes.
  function CompareLabel(s: seq<Byte>, i: nat, m: seq<Byte>, p: nat, n: nat): Scan
    requires i <= |s|
    decreases n
  {
    if n == 0 || i == |s| then At(i, p)
    else if s[i] > Char(m, p) then Differ(1)
    else if s[i] < Char(m, p) then Differ(U8(-1))
    else CompareLabel(s, i + 1, m, p + 1, n - 1)
  }

  lemma {:induction false} CompareLabelEnds(s: seq<Byte>, i: nat, m: seq<Byte>, p: nat, n: nat)
    requires i <= |s|
    ensures match CompareLabel(s, i, m, p, n)
            case At(i1, p1) => i1 == i + Min(n, |s| - i) && p1 == p + Min(n, |s| - i)
            case Differ(r) => r == 1 || r == 255
    decreases n
  {
    if n > 0 && i < |s| && s[i] == Char(m, p) {
      CompareLabelEnds(s, i + 1, m, p + 1, n - 1);
    }
  }

  lemma {:induction false} CompareLabelMeaning(s: seq<Byte>, i: nat, m: seq<Byte>, p: nat, l: seq<Byte>)
    requires i <= |s| && HoldsAt(m, p, l)
    ensures var k := Min(|l|, |s| - i);
            CompareLabel(s, i, m, p, |l|).At? <==> s[i..i + k] == l[..k]
    decreases |l|
  {
    if l != [] && i < |s| {
      var k := Min(|l|, |s| - i);
      assert l == [l[0]] + l[1..];
      HoldsPart(m, p, [l[0]], l[1..]);
      if s[i] != l[0] {
        assert s[i..i + k][0] != l[..k][0];
      } else {
        CompareLabelMeaning(s, i + 1, m, p + 1, l[1..]);
        assert s[i..i + k] == [s[i]] + s[i + 1..i + k];
        assert l[..k] == [l[0]] + l[1..][..k - 1];
      }
    }
  }

  /// Section 4.1.4 of RFC 1035: where the compression pointer at `p` points to.
  predicate IsPointer(n: nat) {
    n >= 192
  }

  function Target(m: seq<Byte>, p: nat): nat
    requires IsPointer(Char(m, p))
  {
    (Char(m, p) - 192) * 256 + Char(m, p + 1)
  }

  /// The end of `mdns_compare_name`, with `i` characters of `s` used up.
  function Ending(s: seq<Byte>, i: nat, m: seq<Byte>, p: nat): int {
    if i < |s| then 1 else if Char(m, p) != 0 then U8(-1) else 0
  }

  /// `mdns_compare_name` of the string `s` from `i` on with the encoded name at `p` of the
  /// message. The character after a label is skipped unseen. A pointer is followed, but nothing
  /// more is compared at its target.
  function Compare(s: seq<Byte>, i: nat, m: seq<Byte>, p: nat): int
    requires i <= |s|
    decreases |s| - i
  {
    var n := Char(m, p);
    if IsPointer(n) then Ending(s, i, m, Target(m, p))
    else
      CompareLabelEnds(s, i, m, p + 1, n);
      match CompareLabel(s, i, m, p + 1, n)
      case Differ(r) => r
      case At(i1, p1) =>
        var i2 := if i1 < |s| then i1 + 1 else i1;
        if Char(m, p1) != 0 && i2 < |s| then Compare(s, i2, m, p1) else Ending(s, i2, m, p1)
  }

  method CompareName(s: seq<Byte>, m: seq<Byte>, response: nat) returns (r: int)
    ensures r == Compare(s, 0, m, response)
  {
    var i: nat, p: nat := 0, response;
    while true
      invariant i <= |s| && Compare(s, i, m, p) == Compare(s, 0, m, response)
      invariant i == 0 || i < |s|
      decreases |s| - i
    {
      var n: nat := Char(m, p);
      p := p + 1;
      if IsPointer(n) {
        p := (n - 192) * 256 + Char(m, p);
        break;
      }
      ghost var i0, p0, n0 := i, p, n;
      CompareLabelEnds(s, i0, m, p0, n0);
      while n > 0 && i < |s|
        invariant i0 <= i <= |s|
        invariant CompareLabel(s, i, m, p, n) == CompareLabel(s, i0, m, p0, n0)
        decreases n
      {
        if s[i] > Char(m, p) {
          return 1;
        } else if s[i] < Char(m, p) {
          return U8(-1);
        }
        p := p + 1;
        i := i + 1;
        n := n - 1;
      }
      if i < |s| {
        i := i + 1;
      }
      if !(Char(m, p) != 0 && i < |s|) {
        break;
      }
    }
    if i < |s| {
      return 1;
    }
    if Char(m, p) != 0 {
      return U8(-1);
    }
    return 0;
  }

  /// Labels followed by a compression pointer.
  predicate HoldsCompressed(m: seq<Byte>, p: nat, ls: seq<seq<Byte>>)
    decreases |ls|
  {
    if ls == [] then IsPointer(Char(m, p))
    else
      && Char(m, p) == |ls[0]| <= 127 && HoldsAt(m, p + 1, ls[0])
      && HoldsCompressed(m, p + 1 + |ls[0]|, ls[1..])
  }

  /// A name that ends in a pointer compares equal to the empty string alone, and to that only if
  /// it is nothing but a pointer to an empty name; so no string is ever found equal to a name
  /// some of whose labels are shared.
  lemma {:induction false} CompressedIsEqualIff(s: seq<Byte>, i: nat, m: seq<Byte>, p: nat, ls: seq<seq<Byte>>)
    requires i <= |s| && HoldsCompressed(m, p, ls)
    requires forall l :: l in ls ==> l != [] && IsString(l)
    ensures Compare(s, i, m, p) == 0 <==> i == |s| && ls == [] && Char(m, Target(m, p)) == 0
    decreases |ls|
  {
    if ls != [] {
      var l := ls[0];
      assert l in ls;
      CompareLabelEnds(s, i, m, p + 1, |l|);
      var next := p + 1 + |l|;
      if CompareLabel(s, i, m, p + 1, |l|).At? {
        if |l| <= |s| - i {
          var i2 := Min(i + |l| + 1, |s|);
          assert Char(m, next) != 0 by {
            if ls[1..] != [] {
              assert ls[1..][0] in ls;
            }
          }
          if i2 < |s| {
            assert forall x :: x in ls[1..] ==> x in ls;
            CompressedIsEqualIff(s, i2, m, next, ls[1..]);
          }
        } else {
          HeldChar(m, p + 1, l, |s| - i);
        }
      }
    }
  }

  /// `s` has the labels `ls`, with any characters between them, and perhaps one more at the end.
  predicate HasLabels(s: seq<Byte>, ls: seq<seq<Byte>>)
    requires ls != []
    decreases |ls|
  {
    var n := |ls[0]|;
    && n <= |s| && s[..n] == ls[0]
    && (if |ls| == 1 then |s| <= n + 1 else n < |s| && HasLabels(s[n + 1..], ls[1..]))
  }

  lemma {:induction false} HasLabelsLength(s: seq<Byte>, ls: seq<seq<Byte>>)
    requires |ls| > 1 && NoEmptyLabelAfterFirst(ls) && HasLabels(s, ls)
    ensures |s| > |ls[0]| + 1
  {
    assert ls[1] != [] && ls[1..][0] == ls[1];
  }

  /// One round of the comparison over a label that matches.
  lemma CompareStep(s: seq<Byte>, i: nat, m: seq<Byte>, p: nat, l: seq<Byte>)
    requires |l| <= 127 && i + |l| <= |s| && s[i..i + |l|] == l && Char(m, p) == |l| && HoldsAt(m, p + 1, l)
    ensures var i2 := Min(i + |l| + 1, |s|); var next := Char(m, p + 1 + |l|);
            Compare(s, i, m, p) ==
              if next != 0 && i2 < |s| then Compare(s, i2, m, p + 1 + |l|)
              else if i2 < |s| then 1 else if next != 0 then 255 else 0
  {
    assert l[..|l|] == l;
    CompareLabelEnds(s, i, m, p + 1, |l|);
    CompareLabelMeaning(s, i, m, p + 1, l);
  }

  /// A first label that `s` does not have from `i` on decides the comparison.
  lemma LabelDecides(s: seq<Byte>, i: nat, m: seq<Byte>, p: nat, l: seq<Byte>)
    requires i <= |s| && Char(m, p) == |l| <= 127 && HoldsAt(m, p + 1, l) && IsString(l)
    requires !(i + |l| <= |s| && s[i..i + |l|] == l)
    ensures Compare(s, i, m, p) != 0
  {
    var k := Min(|l|, |s| - i);
    CompareLabelEnds(s, i, m, p + 1, |l|);
    CompareLabelMeaning(s, i, m, p + 1, l);
    if k < |l| {
      HeldChar(m, p + 1, l, k);
    } else {
      assert l[..k] == l;
    }
  }

  lemma {:induction false} CompareWire(s: seq<Byte>, i: nat, m: seq<Byte>, p: nat, ls: seq<seq<Byte>>)
    requires ls != [] && ShortLabels(ls) && NoEmptyLabelAfterFirst(ls) && HoldsAt(m, p, Wire(ls)) && i <= |s|
    requires forall l :: l in ls ==> IsString(l)
    ensures Compare(s, i, m, p) == 0 <==> HasLabels(s[i..], ls)
    decreases |ls|
  {
    var l := ls[0];
    WireParts(m, p, ls);
    assert l in ls;
    if i + |l| <= |s| && s[i..i + |l|] == l {
      CompareStep(s, i, m, p, l);
      assert s[i..][..|l|] == l;
      if |ls| > 1 && i + |l| + 1 < |s| {
        assert forall j :: 1 <= j < |ls[1..]| ==> ls[1..][j] == ls[j + 1];
        CompareWire(s, i + |l| + 1, m, p + 1 + |l|, ls[1..]);
        assert s[i..][|l| + 1..] == s[i + |l| + 1..];
      } else if |ls| > 1 && HasLabels(s[i..], ls) {
        HasLabelsLength(s[i..], ls);
      }
    } else {
      LabelDecides(s, i, m, p, l);
      assert i + |l| <= |s| ==> s[i..][..|l|] == s[i..i + |l|];
    }
  }

  function WithoutLastDot(t: seq<Byte>): seq<Byte> {
    if t != [] && t[|t| - 1] == DOT then t[..|t| - 1] else t
  }

  /// `s` is `t` except for what stands in the place of its dots, and perhaps one character more.
  predicate Agrees(s: seq<Byte>, t: seq<Byte>) {
    |t| <= |s| <= |t| + 1 && forall j :: 0 <= j < |t| && t[j] != DOT ==> s[j] == t[j]
  }

  lemma AgreesSplit(s: seq<Byte>, l: seq<Byte>, rest: seq<Byte>)
    requires (forall j :: 0 <= j < |l| ==> l[j] != DOT) && |s| > |l|
    ensures Agrees(s, l + [DOT] + rest) <==> s[..|l|] == l && Agrees(s[|l| + 1..], rest)
  {
    var n := |l|;
    var t := l + [DOT] + rest;
    if Agrees(s, t) {
      forall j | 0 <= j < n
        ensures s[j] == l[j]
      {
        assert t[j] == l[j];
      }
      forall j | 0 <= j < |rest| && rest[j] != DOT
        ensures s[n + 1..][j] == rest[j]
      {
        assert t[n + 1 + j] == rest[j];
      }
    }
    if s[..n] == l && Agrees(s[n + 1..], rest) {
      forall j | 0 <= j < |t| && t[j] != DOT
        ensures s[j] == t[j]
      {
        if j < n {
          assert s[..n][j] == l[j];
        } else {
          assert s[n + 1..][j - n - 1] == rest[j - n - 1];
        }
      }
    }
  }

  /// Labels joined by dots.
  function Dotted(ls: seq<seq<Byte>>): seq<Byte>
    requires ls != []
  {
    if |ls| == 1 then ls[0] else ls[0] + [DOT] + Dotted(ls[1..])
  }

  lemma {:induction false} HasLabelsMeaning(s: seq<Byte>, ls: seq<seq<Byte>>)
    requires ls != [] && forall l :: l in ls ==> DOT !in l
    ensures HasLabels(s, ls) <==> Agrees(s, Dotted(ls))
    decreases |ls|
  {
    var l := ls[0];
    assert l in ls;
    if |ls| == 1 {
      if Agrees(s, l) {
        assert s[..|l|] == l;
      }
    } else if |l| < |s| {
      HasLabelsMeaning(s[|l| + 1..], ls[1..]);
      AgreesSplit(s, l, Dotted(ls[1..]));
    }
  }

  lemma DottedCons(l: seq<Byte>, ls: seq<seq<Byte>>)
    requires ls != []
    ensures Dotted([l] + ls) == l + [DOT] + Dotted(ls)
  {
    assert ([l] + ls)[1..] == ls;
  }

  lemma LastDotOfRest(l: seq<Byte>, rest: seq<Byte>)
    requires rest != []
    ensures WithoutLastDot(l + [DOT] + rest) == l + [DOT] + WithoutLastDot(rest)
  {
  }

  lemma LabelThenDot(t: seq<Byte>, n: nat)
    requires n + 1 < |t| && t[n] == DOT
    ensures t == t[..n] + [DOT] + t[n + 1..]
  {
  }

  lemma LastLabel(t: seq<Byte>, n: nat)
    requires n <= |t| <= n + 1 && DOT !in t[..n] && (n < |t| ==> t[n] == DOT)
    ensures WithoutLastDot(t) == t[..n]
  {
    if t != [] && n == |t| {
      assert t[n - 1] == t[..n][n - 1];
    }
  }

  lemma {:induction false} DottedLabels(t: seq<Byte>)
    ensures Dotted(Labels(t)) == WithoutLastDot(t)
    ensures forall l :: l in Labels(t) ==> DOT !in l
    decreases |t|
  {
    var n := LabelLength(t);
    var l := t[..n];
    LabelLengthMeaning(t);
    if n + 1 < |t| {
      var rest := t[n + 1..];
      LabelThenDot(t, n);
      DottedLabels(rest);
      DottedCons(l, Labels(rest));
      LastDotOfRest(l, rest);
      assert Labels(t) == [l] + Labels(rest);
    } else {
      LastLabel(t, n);
      assert Labels(t) == [l];
    }
  }

  lemma {:induction false} LabelsAreStrings(t: seq<Byte>)
    requires IsString(t)
    ensures forall l :: l in Labels(t) ==> IsString(l)
    decreases |t|
  {
    var n := LabelLength(t);
    if n + 1 < |t| {
      LabelsAreStrings(t[n + 1..]);
    }
  }

  /// What it means that `mdns_compare_name` finds a string equal to an encoded name: all that
  /// may differ are the characters at the dots, and one at the end.
  lemma CompareEncodedIff(s: seq<Byte>, m: seq<Byte>, p: nat, t: seq<Byte>)
    requires IsString(t) && ShortLabels(Labels(t)) && NoEmptyLabelAfterFirst(Labels(t)) && HoldsAt(m, p, Encode(t))
    ensures Compare(s, 0, m, p) == 0 <==> Agrees(s, WithoutLastDot(t))
  {
    EncodeIsWire(t);
    LabelsAreStrings(t);
    CompareWire(s, 0, m, p, Labels(t));
    DottedLabels(t);
    HasLabelsMeaning(s, Labels(t));
    assert s[0..] == s;
  }

  /// `t` spelled out: each label but the last is followed by one character and more labels.
  predicate Spells(t: seq<Byte>, ls: seq<seq<Byte>>)
    requires ls != []
    decreases |ls|
  {
    var n := |ls[0]|;
    && n <= |t| && t[..n] == ls[0]
    && (|ls| > 1 ==> n + 1 < |t| && Spells(t[n + 1..], ls[1..]))
  }

  lemma {:induction false} LabelsSpell(t: seq<Byte>)
    ensures Spells(t, Labels(t))
    decreases |t|
  {
    var n := LabelLength(t);
    if n + 1 < |t| {
      LabelsSpell(t[n + 1..]);
      assert Labels(t)[1..] == Labels(t[n + 1..]);
    }
  }

  lemma {:induction false} EmptyLabelDiffers(s: seq<Byte>, i: nat, m: seq<Byte>, p: nat, ls: seq<seq<Byte>>)
    requires ls != [] && i <= |s| && Spells(s[i..], ls) && ShortLabels(ls) && HoldsAt(m, p, Wire(ls))
    requires !NoEmptyLabelAfterFirst(ls)
    ensures Compare(s, i, m, p) == 1
    decreases |ls|
  {
    var l := ls[0];
    var rest := ls[1..];
    WireParts(m, p, ls);
    assert s[i..i + |l|] == l && s[i..][|l| + 1..] == s[i + |l| + 1..];
    CompareStep(s, i, m, p, l);
    if ls[1] != [] {
      var j :| 1 <= j < |ls| && ls[j] == [];
      assert rest[j - 1] == [] && j > 1;
      assert forall k :: 0 <= k < |rest| ==> rest[k] == ls[k + 1];
      EmptyLabelDiffers(s, i + |l| + 1, m, p + 1 + |l|, rest);
    }
  }

  /// A name compares equal to its own encoding if and only if no label after the first is
  /// empty.
  lemma CompareSelfIff(m: seq<Byte>, p: nat, t: seq<Byte>)
    requires IsString(t) && ShortLabels(Labels(t)) && HoldsAt(m, p, Encode(t))
    ensures Compare(t, 0, m, p) == 0 <==> NoEmptyLabelAfterFirst(Labels(t))
  {
    assert t[0..] == t;
    if NoEmptyLabelAfterFirst(Labels(t)) {
      CompareEncodedIff(t, m, p, t);
    } else {
      EncodeIsWire(t);
      LabelsSpell(t);
      EmptyLabelDiffers(t, 0, m, p, Labels(t));
    }
  }

  // ------------------------------------------------------- the encoder's loop

  lemma LabelStep(t: seq<Byte>, i: nat)
    requires i < |t|
    ensures LabelLength(t[i..]) == if t[i] == DOT then 0 else 1 + LabelLength(t[i + 1..])
  {
    assert t[i..][1..] == t[i + 1..];
  }

  /// What is left to write after the label of `n` bytes at `i`.
  function Left(t: seq<Byte>, i: nat): seq<Byte> {
    if i < |t| then Encode(t[i..]) else [0]
  }

  /// One round of the encoder: the label at `i0`, its length in front, and the dot skipped.
  method EncodeLabel(dest: array<Byte>, d0: nat, src: seq<Byte>, i0: nat) returns (d: nat, i: nat)
    requires i0 <= |src| && d0 + 1 + LabelLength(src[i0..]) < dest.Length
    modifies dest
    ensures var n := LabelLength(src[i0..]);
            && i0 + n <= |src| && d == d0 + 1 + n && i == (if i0 + n < |src| then i0 + n + 1 else |src|)
            && dest[d0] == U8(n) && forall k :: d0 < k < d ==> dest[k] == src[k - d0 - 1 + i0]
    ensures forall k :: 0 <= k < dest.Length && !(d0 <= k < d) ==> dest[k] == old(dest[k])
  {
    ghost var want := LabelLength(src[i0..]);
    var n: nat := 0;
    d, i := d0 + 1, i0;
    while i < |src| && src[i] != DOT
      invariant i == i0 + n <= |src| && d == d0 + 1 + n && want == n + LabelLength(src[i..])
      invariant forall k :: d0 < k < d ==> dest[k] == src[k - d0 - 1 + i0]
      invariant forall k :: 0 <= k < dest.Length && !(d0 < k < d) ==> dest[k] == old(dest[k])
    {
      LabelStep(src, i);
      dest[d] := src[i];
      d := d + 1;
      i := i + 1;
      n := n + 1;
    }
    if i < |src| {
      LabelStep(src, i);
      i := i + 1;
    }
    dest[d0] := U8(n);
  }

  lemma AppendedAt(done: seq<Byte>, part: seq<Byte>, k: nat)
    requires k < |done| + |part|
    ensures (done + part)[k] == if k < |done| then done[k] else part[k - |done|]
  {
  }

  /// The label as written: its length and its characters.
  function LabelAt(t: seq<Byte>, i: nat): (l: seq<Byte>)
    requires i <= |t|
    ensures |l| == 1 + LabelLength(t[i..])
  {
    [U8(LabelLength(t[i..]))] + t[i..][..LabelLength(t[i..])]
  }

  /// Where the encoder continues after the label at `i`.
  function NextLabel(t: seq<Byte>, i: nat): (j: nat)
    requires i <= |t|
    ensures i <= j <= |t| && (i < |t| ==> i < j)
  {
    var n := LabelLength(t[i..]);
    if i + n < |t| then i + n + 1 else |t|
  }

  lemma EncodeUnfold(u: seq<Byte>)
    ensures var n := LabelLength(u); Encode(u) == ([U8(n)] + u[..n]) + Left(u, n + 1)
  {
  }

  lemma LeftOfRest(t: seq<Byte>, i: nat, j: nat)
    requires i <= |t|
    ensures Left(t[i..], j) == Left(t, i + j)
  {
    assert i + j < |t| ==> t[i..][j..] == t[i + j..];
  }

  lemma Regroup(done: seq<Byte>, e: seq<Byte>, part: seq<Byte>, left: seq<Byte>)
    requires e == part + left
    ensures done + e == (done + part) + left
  {
  }

  lemma EncodeRound(t: seq<Byte>, i: nat, done: seq<Byte>)
    requires i <= |t|
    ensures done + Encode(t[i..]) == (done + LabelAt(t, i)) + Left(t, NextLabel(t, i))
  {
    var n := LabelLength(t[i..]);
    EncodeUnfold(t[i..]);
    LeftOfRest(t, i, n + 1);
    LeftAtNext(t, i);
    Regroup(done, Encode(t[i..]), LabelAt(t, i), Left(t, NextLabel(t, i)));
  }

  lemma LeftAtNext(t: seq<Byte>, i: nat)
    requires i <= |t|
    ensures Left(t, i + LabelLength(t[i..]) + 1) == Left(t, NextLabel(t, i))
  {
  }

  /// The label is written behind what is there already.
  method AppendLabel(dest: array<Byte>, at: nat, d0: nat, src: seq<Byte>, i0: nat, ghost done: seq<Byte>)
      returns (d: nat, i: nat)
    requires i0 <= |src| && d0 == at + |done| && d0 + |LabelAt(src, i0)| < dest.Length
    requires forall k :: at <= k < d0 ==> dest[k] == done[k - at]
    modifies dest
    ensures d == d0 + |LabelAt(src, i0)| && i == NextLabel(src, i0)
    ensures forall k :: at <= k < d ==> dest[k] == (done + LabelAt(src, i0))[k - at]
    ensures forall k :: 0 <= k < dest.Length && !(d0 <= k < d) ==> dest[k] == old(dest[k])
  {
    d, i := EncodeLabel(dest, d0, src, i0);
    forall k | at <= k < d
      ensures dest[k] == (done + LabelAt(src, i0))[k - at]
    {
      AppendedAt(done, LabelAt(src, i0), k - at);
    }
  }

  method EncodeName(dest: array<Byte>, at: nat, src: seq<Byte>) returns (len: nat)
    requires at + |Encode(src)| <= dest.Length
    modifies dest
    ensures len == |Encode(src)| && dest[at..at + len] == Encode(src)
    ensures forall k :: 0 <= k < dest.Length && !(at <= k < at + len) ==> dest[k] == old(dest[k])
  {
    var d, i := at, 0;
    var more := true;
    ghost var done: seq<Byte> := [];
    ghost var left := Encode(src);
    assert src[0..] == src && done + left == left;
    while more
      invariant i <= |src| && (if more then left == Encode(src[i..]) else left == [0])
      invariant Encode(src) == done + left && d == at + |done|
      invariant forall k :: at <= k < d ==> dest[k] == done[k - at]
      invariant forall k :: 0 <= k < dest.Length && !(at <= k < d) ==> dest[k] == old(dest[k])
      decreases more, |src| - i
    {
      EncodeRound(src, i, done);
      ghost var part := LabelAt(src, i);
      left := Left(src, NextLabel(src, i));
      d, i := AppendLabel(dest, at, d, src, i, done);
      done := done + part;
      more := i < |src|;
    }
    dest[d] := 0;
    d := d + 1;
    len := d - at;
  }

  // ---------------------------------------------------------- decimal digits

  /// The quotient and the remainder of a division by ten, by repeated subtraction.
  function Tenth(x: nat): (q: nat)
    ensures x >= 10 ==> q < x
  {
    if x < 10 then 0 else 1 + Tenth(x - 10)
  }

  function Unit(x: nat): (r: nat)
    ensures r < 10
  {
    if x < 10 then x else Unit(x - 10)
  }

  lemma {:induction false} DivisionByTen(x: nat)
    ensures x == 10 * Tenth(x) + Unit(x)
    ensures Tenth(x) == x / 10 && Unit(x) == x % 10
  {
    if x >= 10 {
      DivisionByTen(x - 10);
    }
  }

  function Digits(x: nat): (d: seq<Byte>)
    ensures d != []
  {
    if x < 10 then [DIGIT_0 + x] else Digits(Tenth(x)) + [DIGIT_0 + Unit(x)]
  }

  /// The digits from the last to the first.
  function LowDigits(x: nat): (d: seq<Byte>)
    ensures d != []
  {
    [DIGIT_0 + Unit(x)] + if x < 10 then [] else LowDigits(Tenth(x))
  }

  lemma {:induction false} LowDigitsReverse(x: nat, k: nat)
    ensures |LowDigits(x)| == |Digits(x)|
    ensures k < |Digits(x)| ==> LowDigits(x)[k] == Digits(x)[|Digits(x)| - 1 - k]
  {
    if x >= 10 {
      var low, high := LowDigits(Tenth(x)), Digits(Tenth(x));
      var d := [DIGIT_0 + Unit(x)];
      LowDigitsReverse(Tenth(x), if k == 0 then 0 else k - 1);
      assert LowDigits(x) == d + low && Digits(x) == high + d;
    }
  }

  /// The digits from `x` on, none when nothing is left.
  function DigitsLeft(x: nat, more: bool): seq<Byte> {
    if more then LowDigits(x) else []
  }

  lemma LowDigitsStep(done: seq<Byte>, x: nat)
    ensures done + LowDigits(x) == (done + [DIGIT_0 + Unit(x)]) + DigitsLeft(Tenth(x), Tenth(x) != 0)
  {
    var d, rest := [DIGIT_0 + Unit(x)], DigitsLeft(Tenth(x), Tenth(x) != 0);
    assert Tenth(x) != 0 <==> x >= 10;
    assert LowDigits(x) == d + rest;
    Regroup(done, LowDigits(x), d, rest);
  }

  method DivideByTen(x: nat) returns (digit: nat, rest: nat)
    ensures digit == Unit(x) && rest == Tenth(x)
  {
    DivisionByTen(x);
    digit, rest := x % 10, x / 10;
  }

  method WriteLowDigits(dest: array<Byte>, at: nat, x0: nat) returns (end: nat)
    requires at + |LowDigits(x0)| <= dest.Length
    modifies dest
    ensures end == at + |LowDigits(x0)|
    ensures forall k :: at <= k < end ==> dest[k] == LowDigits(x0)[k - at]
    ensures forall k :: 0 <= k < dest.Length && !(at <= k < end) ==> dest[k] == old(dest[k])
  {
    ghost var low, left := LowDigits(x0), LowDigits(x0);
    ghost var done: seq<Byte> := [];
    var x: nat := x0;
    var more := true;
    end := at;
    assert done + left == low;
    while more
      invariant done + left == low && left == DigitsLeft(x, more) && (left == [] ==> !more)
      invariant end == at + |done|
      invariant forall k :: at <= k < end ==> dest[k] == done[k - at]
      invariant forall k :: 0 <= k < dest.Length && !(at <= k < end) ==> dest[k] == old(dest[k])
      decreases more, x
    {
      LowDigitsStep(done, x);
      var digit: nat;
      digit, x := DivideByTen(x);
      dest[end] := digit + DIGIT_0;
      end := end + 1;
      more := x != 0;
      done, left := done + [DIGIT_0 + digit], DigitsLeft(x, more);
    }
  }

  /// `mdns_itoa`: the digits are written last first and then reversed in place.
  method Itoa(dest: array<Byte>, at: nat, x: nat) returns (end: nat)
    requires at + |Digits(x)| <= dest.Length
    modifies dest
    ensures end == at + |Digits(x)| && dest[at..end] == Digits(x)
    ensures forall k :: 0 <= k < dest.Length && !(at <= k < end) ==> dest[k] == old(dest[k])
  {
    LowDigitsReverse(x, 0);
    end := WriteLowDigits(dest, at, x);
    ReverseInPlace(dest, at, end);
    forall k | at <= k < end
      ensures dest[k] == Digits(x)[k - at]
    {
      LowDigitsReverse(x, end - 1 - k);
    }
  }

  method ReverseInPlace(dest: array<Byte>, at: nat, end: nat)
    requires at < end <= dest.Length
    modifies dest
    ensures forall k :: at <= k < end ==> dest[k] == old(dest[at + (end - 1 - k)])
    ensures forall k :: 0 <= k < dest.Length && !(at <= k < end) ==> dest[k] == old(dest[k])
  {
    var lo, hi := at, end - 1;
    while lo < hi
      invariant at <= lo <= hi + 1 <= end && lo - at == end - 1 - hi
      invariant forall k :: at <= k < lo || hi < k < end ==> dest[k] == old(dest[at + (end - 1 - k)])
      invariant forall k :: lo <= k <= hi ==> dest[k] == old(dest[k])
      invariant forall k :: 0 <= k < dest.Length && !(at <= k < end) ==> dest[k] == old(dest[k])
    {
      dest[hi], dest[lo] := dest[lo], dest[hi];
      lo := lo + 1;
      hi := hi - 1;
    }
  }

  // -------------------------------------------------- reverse-lookup names

  type Ipv4 = a: seq<Byte> | |a| == 4 witness [0, 0, 0, 0]

  /// "in-addr" and "arpa"
  const IN_ADDR: seq<Byte> := [105, 110, 45, 97, 100, 100, 114]
  const ARPA: seq<Byte> := [97, 114, 112, 97]

  const IN_ADDR_ARPA: seq<Byte> := IN_ADDR + [DOT] + ARPA

  /// The labels of the reverse name from field `cur` on: the last byte of the address comes first.
  function RevLabels(a: Ipv4, cur: nat): (ls: seq<seq<Byte>>)
    requires cur <= 4
    ensures ls != [] && ls[0] != []
    decreases 4 - cur
  {
    if cur == 4 then [IN_ADDR, ARPA] else [Digits(a[3 - cur])] + RevLabels(a, cur + 1)
  }

  /// A field of `n` characters read as a number; a character that is no digit spoils it.
  function Field(m: seq<Byte>, q: nat, n: nat): (bool, nat) {
    if n == 0 then (true, 0)
    else
      var (ok, v) := Field(m, q, n - 1);
      var c := Char(m, q + n - 1);
      if c < DIGIT_0 || c > DIGIT_0 + 9 then (false, 10 * v) else (ok, 10 * v + (c - DIGIT_0))
  }

  datatype Rev = Rev(ok: bool, addr: Ipv4)

  /// The last step of `mdns_parse_rev_ip`: what follows the fields must be "in-addr.arpa".
  function RevEnding(m: seq<Byte>, q: nat, ok: bool, addr: Ipv4): Rev {
    Rev(ok && Compare(IN_ADDR_ARPA, 0, m, q) == 0, addr)
  }

  /// `mdns_parse_rev_ip` from the label at `q` on, as field `cur`. A pointer ends the fields.
  function ParseRev(m: seq<Byte>, q: nat, cur: nat, ok: bool, addr: Ipv4): Rev
    requires cur < 4
    decreases |m| - q
  {
    var n := Char(m, q);
    if IsPointer(n) then RevEnding(m, Target(m, q), ok, addr)
    else
      var (digits, sum) := Field(m, q + 1, n);
      var ok1 := ok && n <= 3 && digits && sum <= 255;
      var addr1 := if ok && n <= 3 && sum <= 255 then addr[3 - cur := sum] else addr;
      var cur1 := if ok then cur + 1 else cur;
      var q1 := q + 1 + n;
      if Char(m, q1) != 0 && cur1 < 4 then ParseRev(m, q1, cur1, ok1, addr1)
      else RevEnding(m, q1, ok1, addr1)
  }

  lemma {:induction false} FieldOfDigits(m: seq<Byte>, q: nat, x: nat)
    requires HoldsAt(m, q, Digits(x))
    ensures Field(m, q, |Digits(x)|) == (true, x)
  {
    var n := |Digits(x)|;
    HeldChar(m, q, Digits(x), n - 1);
    if x >= 10 {
      HoldsPart(m, q, Digits(Tenth(x)), [DIGIT_0 + Unit(x)]);
      FieldOfDigits(m, q, Tenth(x));
      DivisionByTen(x);
    } else {
      assert Field(m, q, 0) == (true, 0);
    }
  }

  lemma ByteHasThreeDigits(x: nat)
    requires x < 256
    ensures |Digits(x)| <= 3
  {
    var y := Tenth(x);
    var z := Tenth(y);
    DivisionByTen(x);
    DivisionByTen(y);
    assert y < 26 && z < 3;
    assert |Digits(z)| == 1;
    assert |Digits(y)| <= 2;
  }

  lemma {:induction false} RevLabelsAreShort(a: Ipv4, cur: nat)
    requires cur <= 4
    ensures ShortLabels(RevLabels(a, cur))
    decreases 4 - cur
  {
    if cur < 4 {
      RevLabelsAreShort(a, cur + 1);
      ByteHasThreeDigits(a[3 - cur]);
      ConsLabel(Digits(a[3 - cur]), RevLabels(a, cur + 1));
    }
  }

  /// A field of the reverse name, followed by more labels.
  lemma RevField(m: seq<Byte>, q: nat, x: Byte, rest: seq<seq<Byte>>)
    requires ShortLabels(rest) && rest != [] && rest[0] != [] && HoldsAt(m, q, Wire([Digits(x)] + rest))
    ensures var n := |Digits(x)|;
            && n <= 3 && Char(m, q) == n && Field(m, q + 1, n) == (true, x)
            && HoldsAt(m, q + 1 + n, Wire(rest)) && Char(m, q + 1 + n) != 0
  {
    var ls := [Digits(x)] + rest;
    ByteHasThreeDigits(x);
    ConsLabel(Digits(x), rest);
    WireParts(m, q, ls);
    assert ls[0] == Digits(x) && ls[1] == rest[0] && |ls| > 1;
    FieldOfDigits(m, q + 1, x);
  }

  lemma ConsLabel(l: seq<Byte>, rest: seq<seq<Byte>>)
    requires rest != [] && |l| <= 127 && ShortLabels(rest)
    ensures var ls := [l] + rest;
            ls[1..] == rest && ls[1] == rest[0] && ShortLabels(ls)
  {
    var ls := [l] + rest;
    forall i | 0 <= i < |ls|
      ensures |ls[i]| <= 127
    {
      assert i > 0 ==> ls[i] == rest[i - 1];
    }
  }

  lemma ArpaCompares(m: seq<Byte>, p: nat)
    requires HoldsAt(m, p, Wire([IN_ADDR, ARPA]))
    ensures Compare(IN_ADDR_ARPA, 0, m, p) == 0
  {
    var ls := [IN_ADDR, ARPA];
    var s := IN_ADDR_ARPA;
    assert s[0..] == s && s[..7] == IN_ADDR && s[8..] == ARPA;
    assert ls[1..] == [ARPA] && [ARPA][0] == ARPA;
    assert HasLabels(ARPA, [ARPA]);
    assert HasLabels(s, ls);
    CompareWire(s, 0, m, p, ls);
  }

  lemma {:induction false} ParseRevFrom(m: seq<Byte>, q: nat, cur: nat, a: Ipv4, before: Ipv4)
    requires cur < 4 && HoldsAt(m, q, Wire(RevLabels(a, cur)))
    requires forall j :: 3 - cur < j < 4 ==> before[j] == a[j]
    ensures ParseRev(m, q, cur, true, before) == Rev(true, a)
    decreases 4 - cur
  {
    var x := a[3 - cur];
    var after: Ipv4 := before[3 - cur := x];
    var q1 := q + 1 + |Digits(x)|;
    RevLabelsAreShort(a, cur + 1);
    RevField(m, q, x, RevLabels(a, cur + 1));
    if cur < 3 {
      ParseRevFrom(m, q1, cur + 1, a, after);
    } else {
      ArpaCompares(m, q1);
      assert after == a;
    }
  }

  /// Section 3.5 of RFC 1035: parsing the reverse-lookup name of an address gives the address
  /// back, whatever was in the result before.
  lemma RevIpRoundTrip(m: seq<Byte>, q: nat, a: Ipv4, before: Ipv4)
    requires HoldsAt(m, q, EncodedIp(a))
    ensures ParseRev(m, q, 0, true, before) == Rev(true, a)
  {
    ParseRevFrom(m, q, 0, a, before);
  }

  /// A label that reads as a number from 0 to 255.
  predicate IsField(l: seq<Byte>) {
    |l| <= 3 && Field(l, 0, |l|).0 && Field(l, 0, |l|).1 <= 255
  }

  lemma {:induction false} FieldAt(m: seq<Byte>, q: nat, l: seq<Byte>, n: nat)
    requires HoldsAt(m, q, l) && n <= |l|
    ensures Field(m, q, n) == Field(l, 0, n)
  {
    if n > 0 {
      FieldAt(m, q, l, n - 1);
      HeldChar(m, q, l, n - 1);
    }
  }

  /// The labels from field `cur` on: the missing fields, and then what compares as "in-addr.arpa".
  predicate IsRevName(ls: seq<seq<Byte>>, cur: nat)
    requires cur <= 4 && |ls| > 4 - cur
  {
    (forall j :: 0 <= j < 4 - cur ==> IsField(ls[j])) && HasLabels(IN_ADDR_ARPA, ls[4 - cur..])
  }

  lemma {:induction false} FailureStays(m: seq<Byte>, q: nat, cur: nat, addr: Ipv4)
    requires cur < 4
    ensures !ParseRev(m, q, cur, false, addr).ok
    decreases |m| - q
  {
    var q1 := q + 1 + Char(m, q);
    if !IsPointer(Char(m, q)) && Char(m, q1) != 0 {
      FailureStays(m, q1, cur, addr);
    }
  }

  predicate Plain(ls: seq<seq<Byte>>) {
    ShortLabels(ls) && forall l :: l in ls ==> l != [] && IsString(l)
  }

  /// A name with labels behind its four fields is taken for a reverse name if and only if the fields
  /// are numbers up to 255 and the rest compares as "in-addr.arpa".
  lemma {:induction false} RevIsAcceptedIff(
      m: seq<Byte>, q: nat, cur: nat, ls: seq<seq<Byte>>, addr: Ipv4)
    requires cur < 4 && |ls| > 4 - cur && Plain(ls) && HoldsAt(m, q, Wire(ls))
    ensures ParseRev(m, q, cur, true, addr).ok <==> IsRevName(ls, cur)
    decreases 4 - cur
  {
    var l, rest := ls[0], ls[1..];
    FirstPart(m, q, ls);
    RevNameParts(ls, cur);
    var q1 := q + 1 + |l|;
    var sum := Field(l, 0, |l|).1;
    var addr1 := if |l| <= 3 && sum <= 255 then addr[3 - cur := sum] else addr;
    if cur == 3 {
      LastPartIff(m, q1, ls);
    } else if IsField(l) {
      PlainRest(ls);
      RevIsAcceptedIff(m, q1, cur + 1, rest, addr1);
    } else {
      FailureStays(m, q1, cur + 1, addr1);
    }
  }

  /// The first of several labels, as the field loop sees it.
  lemma FirstPart(m: seq<Byte>, q: nat, ls: seq<seq<Byte>>)
    requires |ls| > 1 && Plain(ls) && HoldsAt(m, q, Wire(ls))
    ensures Char(m, q) == |ls[0]| && !IsPointer(|ls[0]|) && Field(m, q + 1, |ls[0]|) == Field(ls[0], 0, |ls[0]|)
    ensures Char(m, q + 1 + |ls[0]|) != 0 && HoldsAt(m, q + 1 + |ls[0]|, Wire(ls[1..]))
  {
    WireParts(m, q, ls);
    assert ls[0] in ls && ls[1] in ls;
    FieldAt(m, q + 1, ls[0], |ls[0]|);
    WireParts(m, q + 1 + |ls[0]|, ls[1..]);
  }

  lemma RevNameParts(ls: seq<seq<Byte>>, cur: nat)
    requires cur < 4 && |ls| > 4 - cur
    ensures IsRevName(ls, cur) <==>
              IsField(ls[0]) && if cur < 3 then IsRevName(ls[1..], cur + 1) else HasLabels(IN_ADDR_ARPA, ls[1..])
  {
    var rest := ls[1..];
    assert forall j :: 0 <= j < |rest| ==> rest[j] == ls[j + 1];
    assert forall j :: 1 <= j < 4 - cur ==> ls[j] == rest[j - 1];
    assert ls[4 - cur..] == rest[3 - cur..];
  }

  lemma LastPartIff(m: seq<Byte>, q: nat, ls: seq<seq<Byte>>)
    requires |ls| > 1 && Plain(ls) && HoldsAt(m, q, Wire(ls[1..]))
    ensures Compare(IN_ADDR_ARPA, 0, m, q) == 0 <==> HasLabels(IN_ADDR_ARPA, ls[1..])
  {
    PlainRest(ls);
    CompareWire(IN_ADDR_ARPA, 0, m, q, ls[1..]);
    assert IN_ADDR_ARPA[0..] == IN_ADDR_ARPA;
  }

  lemma PlainRest(ls: seq<seq<Byte>>)
    requires Plain(ls) && ls != []
    ensures Plain(ls[1..]) && NoEmptyLabelAfterFirst(ls[1..])
  {
    assert forall x :: x in ls[1..] ==> x in ls;
    assert forall j :: 0 <= j < |ls[1..]| ==> ls[1..][j] in ls[1..];
  }

  /// What `mdns_encode_ip` writes.
  function EncodedIp(a: Ipv4): seq<Byte> {
    Wire(RevLabels(a, 0))
  }

  method EncodeIp(str: array<Byte>, at: nat, a: Ipv4) returns (len: nat)
    requires at + |EncodedIp(a)| <= str.Length
    modifies str
    ensures len == |EncodedIp(a)| && str[at..at + len] == EncodedIp(a)
    ensures forall k :: 0 <= k < str.Length && !(at <= k < at + len) ==> str[k] == old(str[k])
  {
    var p := at;
    var i := 3;
    ghost var done: seq<Byte> := [];
    ghost var cur: nat := 0;
    while i >= 0
      invariant -1 <= i <= 3 && cur == 3 - i && p == at + |done|
      invariant done + Wire(RevLabels(a, cur)) == EncodedIp(a)
      invariant forall k :: at <= k < p ==> str[k] == done[k - at]
      invariant forall k :: 0 <= k < str.Length && !(at <= k < p) ==> str[k] == old(str[k])
    {
      ghost var part := RevPart(a, cur, done);
      p := WriteField(str, at, p, a[i], done);
      done := done + part;
      cur := cur + 1;
      i := i - 1;
    }
    ghost var tail := TailBytes();
    AppendBytes(str, at, p, IN_ADDR_ARPA_WIRE, done);
    len := p + |IN_ADDR_ARPA_WIRE| - at;
  }

  method AppendBytes(str: array<Byte>, at: nat, p: nat, bytes: seq<Byte>, ghost done: seq<Byte>)
    requires p == at + |done| && p + |bytes| <= str.Length
    requires forall k :: at <= k < p ==> str[k] == done[k - at]
    modifies str
    ensures str[at..p + |bytes|] == done + bytes
    ensures forall k :: 0 <= k < str.Length && !(p <= k < p + |bytes|) ==> str[k] == old(str[k])
  {
    var k := 0;
    while k < |bytes|
      invariant 0 <= k <= |bytes|
      invariant forall j :: p <= j < p + k ==> str[j] == bytes[j - p]
      invariant forall j :: 0 <= j < str.Length && !(p <= j < p + k) ==> str[j] == old(str[j])
    {
      str[p + k] := bytes[k];
      k := k + 1;
    }
  }

  /// "\x07in-addr\x04arpa\x00"
  const IN_ADDR_ARPA_WIRE: seq<Byte> := [7, 105, 110, 45, 97, 100, 100, 114, 4, 97, 114, 112, 97, 0]

  lemma TailBytes() returns (tail: seq<Byte>)
    ensures tail == Wire([IN_ADDR, ARPA]) == IN_ADDR_ARPA_WIRE
  {
    tail := IN_ADDR_ARPA_WIRE;
    assert [IN_ADDR, ARPA][1..] == [ARPA] && [ARPA][1..] == [];
    assert Wire([ARPA]) == [4] + ARPA + [0];
  }

  lemma RevPart(a: Ipv4, cur: nat, done: seq<Byte>) returns (part: seq<Byte>)
    requires cur < 4
    ensures part == [|Digits(a[3 - cur])|] + Digits(a[3 - cur]) && |Digits(a[3 - cur])| <= 3
    ensures done + Wire(RevLabels(a, cur)) == (done + part) + Wire(RevLabels(a, cur + 1))
  {
    ByteHasThreeDigits(a[3 - cur]);
    part := [|Digits(a[3 - cur])|] + Digits(a[3 - cur]);
    assert RevLabels(a, cur)[1..] == RevLabels(a, cur + 1);
  }

  /// One field: the digits, and then their number in front.
  method WriteField(str: array<Byte>, at: nat, p0: nat, x: Byte, ghost done: seq<Byte>) returns (p: nat)
    requires |Digits(x)| <= 3 && p0 == at + |done| && p0 + 1 + |Digits(x)| <= str.Length
    requires forall k :: at <= k < p0 ==> str[k] == done[k - at]
    modifies str
    ensures p == p0 + 1 + |Digits(x)|
    ensures forall k :: at <= k < p ==> str[k] == (done + ([|Digits(x)|] + Digits(x)))[k - at]
    ensures forall k :: 0 <= k < str.Length && !(p0 <= k < p) ==> str[k] == old(str[k])
  {
    p := Itoa(str, p0 + 1, x);
    str[p0] := p - p0 - 1;
    ghost var part := [|Digits(x)|] + Digits(x);
    forall k | at <= k < p
      ensures str[k] == (done + part)[k - at]
    {
      AppendedAt(done, part, k - at);
      if k > p0 {
        assert str[p0 + 1..p][k - p0 - 1] == str[k];
      }
    }
  }

  // ------------------------------------------------------- the two methods

  /// The field loop runs from the last character to the first.
  method ReadField(m: seq<Byte>, q: nat, n: nat) returns (ok: bool, sum: nat)
    requires n <= 3
    ensures (ok, sum) == Field(m, q, n)
  {
    ok, sum := true, 0;
    var base := 1;
    var i := 0;
    while i < n
      invariant i <= n && base == (if i == 0 then 1 else if i == 1 then 10 else if i == 2 then 100 else 1000)
      invariant Field(m, q, n).1 == base * Field(m, q, n - i).1 + sum
      invariant Field(m, q, n).0 == (Field(m, q, n - i).0 && ok)
    {
      var c := Char(m, q + n - i - 1);
      if c < DIGIT_0 || c > DIGIT_0 + 9 {
        ok := false;
      } else {
        sum := sum + (c - DIGIT_0) * base;
      }
      base := base * 10;
      i := i + 1;
    }
  }

  method ParseRevIp(query: seq<Byte>, start: nat, addr: array<Byte>) returns (res: bool)
    requires addr.Length == 4
    modifies addr
    ensures Rev(res, addr[..]) == ParseRev(query, start, 0, true, old(addr[..]))
  {
    var q: nat := start;
    var ok := true;
    var cur: nat := 0;
    var more := true;
    ghost var parsed := ParseRev(query, start, 0, true, addr[..]);
    while more
      invariant 0 <= cur <= 4 && (more ==> cur < 4)
      invariant parsed == if more then ParseRev(query, q, cur, ok, addr[..]) else RevEnding(query, q, ok, addr[..])
      decreases more, |query| - q
    {
      var n: nat := Char(query, q);
      if IsPointer(n) {
        q := (n - 192) * 256 + Char(query, q + 1);
        break;
      }
      if cur < 4 && ok {
        if n <= 3 {
          var digits, sum := ReadField(query, q + 1, n);
          if sum > 255 {
            ok := false;
          } else {
            addr[3 - cur] := sum;
            ok := digits;
          }
        } else {
          ok := false;
        }
        cur := cur + 1;
      }
      q := q + 1 + n;
      more := Char(query, q) != 0 && cur < 4;
    }
    var c := CompareName(IN_ADDR_ARPA, query, q);
    res := ok && c == 0;
  }
}
