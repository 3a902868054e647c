/// The IPv6 route table (`uip-ds6-route.c`): every neighbour in the `nbr_routes` table carries
/// the list of the routes through it, and routes go when their neighbour is evicted.

module RouteTable {
  import opened Basics
  import opened ContikiList
  import opened Memb
  import opened NbrTable
  import NT = NbrTable

  type Ip = a: seq<Byte> | |a| == 16 witness seq(16, _ => 0)

  type PrefixLength = l: nat | l <= 128

  /// `uip_ipaddr_prefixcmp`: only whole bytes of the prefix are compared.
  predicate PrefixMatch(a: Ip, b: Ip, length: PrefixLength) {
    a[..length / 8] == b[..length / 8]
  }

  datatype Route = Route(nbr: nat, ip: Ip, length: PrefixLength)

  /// `lists[i]` is the route list of neighbour `i`; `num` is `num_routes`.
  datatype Routing = Routing(
    tables: Tables, t: TableIndex, lists: seq<seq<nat>>, routes: seq<Route>, blocks: seq<nat>, num: int)
  {
    predicate Shape() {
      && tables.Shape() && |lists| == tables.N() && |routes| == |blocks|
      && (forall r :: 0 <= r < |routes| ==> routes[r].nbr < |lists|)
    }

    predicate Used(i: nat)
      requires Shape() && i < |lists|
    {
      i in tables.keys && Bit(tables.used[i], t)
    }

    predicate Linked(r: nat)
      requires Shape() && r < |routes|
    {
      r in lists[routes[r].nbr]
    }

    /// Each allocated route is on the list of its neighbour and on no other, only neighbours
    /// in the table have routes, and the counter counts them.
    predicate Consistent() {
      tables.Inv() && ListsOk()
    }

    predicate ListsOk() {
      && Shape()
      && (forall i :: 0 <= i < |lists| ==> ListOk(i))
      && (forall r :: 0 <= r < |routes| ==> blocks[r] <= 1 && (blocks[r] != 0 <==> Linked(r)))
      && num == InUse(blocks) == Total(lists)
    }

    predicate ListOk(i: nat)
      requires Shape() && i < |lists|
    {
      && Distinct(lists[i])
      && (forall r :: r in lists[i] ==> r < |routes| && routes[r].nbr == i)
      && (lists[i] != [] ==> Used(i))
    }

    /// Every neighbour in the table has a route.
    predicate NoEmptyList()
      requires Shape()
    {
      forall i :: 0 <= i < |lists| && Used(i) ==> lists[i] != []
    }
  }

  function Total(lists: seq<seq<nat>>): nat {
    if lists == [] then 0 else |lists[0]| + Total(lists[1..])
  }

  lemma {:induction false} TotalAfter(lists: seq<seq<nat>>, i: nat, l: seq<nat>)
    requires i < |lists|
    ensures Total(lists[i := l]) + |lists[i]| == Total(lists) + |l|
  {
    if i > 0 {
      TotalAfter(lists[1..], i - 1, l);
      assert lists[i := l][1..] == lists[1..][i - 1 := l];
    }
  }

  // ------------------------------------------------------------- iteration

  function PositionOf(keys: seq<nat>, k: nat): (p: nat)
    requires k in keys
    ensures p < |keys| && keys[p] == k
  {
    if keys[0] == k then 0 else 1 + PositionOf(keys[1..], k)
  }

  /// `nbr_table_head` and `nbr_table_next` on the routes' own table.
  function NbrHead(st: Routing): Option<nat>
    requires st.Shape()
  {
    KeyAt(st.tables.keys, FirstUsed(st.tables, st.t, 0))
  }

  function NbrNext(st: Routing, i: nat): Option<nat>
    requires st.Shape() && i in st.tables.keys
  {
    KeyAt(st.tables.keys, FirstUsed(st.tables, st.t, PositionOf(st.tables.keys, i) + 1))
  }

  /// `uip_ds6_route_head`: the first route of the first neighbour, or NULL if that has none.
  function RouteHead(st: Routing): Option<nat>
    requires st.Shape()
  {
    var k := NbrHead(st);
    if k.None? then None else KeyAt(st.lists[k.value], 0)
  }

  /// `uip_ds6_route_next`
  function RouteNext(st: Routing, r: nat): Option<nat>
    requires st.Shape() && r < |st.routes| && st.routes[r].nbr in st.tables.keys
  {
    var i := st.routes[r].nbr;
    var n := After(st.lists[i], r);
    if n.Some? then n
    else
      var k := NbrNext(st, i);
      if k.None? then None else KeyAt(st.lists[k.value], 0)
  }

  /// The routes of the neighbours `ks`, up to the first neighbour without any.
  function VisibleFrom(st: Routing, ks: seq<nat>): seq<nat>
    requires st.Shape() && InRange(ks, |st.lists|)
  {
    if ks == [] || st.lists[ks[0]] == [] then [] else st.lists[ks[0]] + VisibleFrom(st, ks[1..])
  }

  function NbrsInOrder(st: Routing): (ks: seq<nat>)
    requires st.Shape()
    ensures InRange(ks, |st.lists|)
  {
    var ks := UsedKeys(st.tables, st.t, st.tables.keys);
    UsedKeysMeaning(st.tables, st.t, st.tables.keys);
    assert forall p :: 0 <= p < |ks| ==> ks[p] in ks;
    ks
  }

  /// What a walk with head and next sees.
  function Visible(st: Routing): seq<nat>
    requires st.Shape()
  {
    VisibleFrom(st, NbrsInOrder(st))
  }

  lemma {:induction false} FirstUsedIsFirst(s: Tables, t: TableIndex, p: nat)
    requires s.Shape() && p <= |s.keys|
    ensures KeyAt(s.keys, FirstUsed(s, t, p)) == KeyAt(UsedKeys(s, t, s.keys[p..]), 0)
    decreases |s.keys| - p
  {
    if p < |s.keys| {
      assert s.keys[p..][1..] == s.keys[p + 1..];
      FirstUsedIsFirst(s, t, p + 1);
    }
  }

  lemma UsedKeysStep(s: Tables, t: TableIndex, p: nat)
    requires s.Shape() && p < |s.keys|
    ensures var k := s.keys[p];
            UsedKeys(s, t, s.keys[p..]) == (if Bit(s.used[k], t) then [k] else []) + UsedKeys(s, t, s.keys[p + 1..])
  {
    assert s.keys[p..][1..] == s.keys[p + 1..];
  }

  lemma UsedKeysSkip(s: Tables, t: TableIndex, p: nat)
    requires s.Shape() && p < |s.keys| && !Bit(s.used[s.keys[p]], t)
    ensures UsedKeys(s, t, s.keys[p..]) == UsedKeys(s, t, s.keys[p + 1..])
  {
    UsedKeysStep(s, t, p);
  }

  lemma UsedKeysTake(s: Tables, t: TableIndex, p: nat)
    requires s.Shape() && p < |s.keys| && Bit(s.used[s.keys[p]], t)
    ensures UsedKeys(s, t, s.keys[p..]) == [s.keys[p]] + UsedKeys(s, t, s.keys[p + 1..])
  {
    UsedKeysStep(s, t, p);
  }

  lemma ShiftKeyAt(k: nat, rest: seq<nat>, u: nat)
    ensures KeyAt([k] + rest, u + 1) == KeyAt(rest, u)
  {
  }

  /// The neighbour after the `u`-th one of the table is the next one.
  lemma {:induction false} NextUsedIsNext(s: Tables, t: TableIndex, from: nat, u: nat) returns (p: nat)
    requires s.Shape() && from <= |s.keys| && u < |UsedKeys(s, t, s.keys[from..])|
    ensures from <= p < |s.keys|
    ensures var us := UsedKeys(s, t, s.keys[from..]);
            Some(s.keys[p]) == KeyAt(us, u) && KeyAt(s.keys, FirstUsed(s, t, p + 1)) == KeyAt(us, u + 1)
    decreases |s.keys| - from
  {
    var k, rest := s.keys[from], UsedKeys(s, t, s.keys[from + 1..]);
    if !Bit(s.used[k], t) {
      UsedKeysSkip(s, t, from);
      p := NextUsedIsNext(s, t, from + 1, u);
    } else if u == 0 {
      UsedKeysTake(s, t, from);
      p := from;
      ShiftKeyAt(k, rest, 0);
      FirstUsedIsFirst(s, t, from + 1);
    } else {
      UsedKeysTake(s, t, from);
      ShiftKeyAt(k, rest, u);
      ShiftKeyAt(k, rest, u - 1);
      p := NextUsedIsNext(s, t, from + 1, u - 1);
    }
  }

  lemma NbrNextIsNext(st: Routing, u: nat)
    requires st.Shape() && Distinct(st.tables.keys) && u < |NbrsInOrder(st)|
    ensures NbrsInOrder(st)[u] in st.tables.keys
    ensures NbrNext(st, NbrsInOrder(st)[u]) == KeyAt(NbrsInOrder(st), u + 1)
  {
    assert st.tables.keys[0..] == st.tables.keys;
    UsedKeysMeaning(st.tables, st.t, st.tables.keys);
    var p := NextUsedIsNext(st.tables, st.t, 0, u);
  }

  lemma HeadIsVisible(st: Routing)
    requires st.Shape()
    ensures RouteHead(st) == KeyAt(Visible(st), 0)
  {
    assert st.tables.keys[0..] == st.tables.keys;
    FirstUsedIsFirst(st.tables, st.t, 0);
  }

  /// Head and next enumerate the visible routes in order.
  lemma {:induction false} NextIsVisible(st: Routing, u: nat, p: nat)
    requires st.Consistent() && u <= |NbrsInOrder(st)|
    requires InRange(NbrsInOrder(st)[u..], |st.lists|) && p < |VisibleFrom(st, NbrsInOrder(st)[u..])|
    ensures var v := VisibleFrom(st, NbrsInOrder(st)[u..]);
            v[p] < |st.routes| && st.routes[v[p]].nbr in st.tables.keys
            && RouteNext(st, v[p]) == KeyAt(v, p + 1)
    decreases |NbrsInOrder(st)| - u
  {
    var ks := NbrsInOrder(st);
    var v := VisibleFrom(st, ks[u..]);
    var k := ks[u];
    var l := st.lists[k];
    assert st.ListOk(k);
    assert ks[u..][1..] == ks[u + 1..];
    var rest := VisibleFrom(st, ks[u + 1..]);
    assert v == l + rest;
    if p < |l| {
      assert l[p] in l;
      AfterAt(l, p);
      if p == |l| - 1 {
        NbrNextIsNext(st, u);
      }
    } else {
      NextIsVisible(st, u + 1, p - |l|);
    }
  }

  lemma ConcatDistinct(a: seq<nat>, b: seq<nat>)
    requires Distinct(a) && Distinct(b) && forall x :: x in a ==> x !in b
    ensures Distinct(a + b)
  {
    forall i, j | 0 <= i < j < |a + b|
      ensures (a + b)[i] != (a + b)[j]
    {
      if i < |a| <= j {
        assert a[i] in a && b[j - |a|] in b;
      }
    }
  }

  /// A walk visits no route twice, and only allocated ones.
  lemma {:induction false} VisibleIsDistinct(st: Routing, ks: seq<nat>)
    requires st.Consistent() && Distinct(ks) && InRange(ks, |st.lists|)
    ensures Distinct(VisibleFrom(st, ks))
    ensures forall r :: r in VisibleFrom(st, ks) ==> r < |st.routes| && st.blocks[r] != 0 && st.routes[r].nbr in ks
  {
    if ks != [] && st.lists[ks[0]] != [] {
      var l := st.lists[ks[0]];
      var rest := VisibleFrom(st, ks[1..]);
      VisibleIsDistinct(st, ks[1..]);
      assert st.ListOk(ks[0]);
      forall r | r in l
        ensures r < |st.routes| && st.blocks[r] != 0 && r !in rest
      {
        assert st.Linked(r);
        assert forall q :: 0 < q < |ks| ==> ks[q] != ks[0];
      }
      ConcatDistinct(l, rest);
    }
  }

  /// No neighbour without routes comes before one that has some.
  predicate NoGap(st: Routing, ks: seq<nat>)
    requires st.Shape() && InRange(ks, |st.lists|)
  {
    forall p, q :: 0 <= p < q < |ks| && st.lists[ks[q]] != [] ==> st.lists[ks[p]] != []
  }

  lemma {:induction false} NoGapShowsAll(st: Routing, ks: seq<nat>, i: nat, r: nat)
    requires st.Shape() && InRange(ks, |st.lists|) && NoGap(st, ks)
    requires i in ks && r in st.lists[i]
    ensures r in VisibleFrom(st, ks)
  {
    var q :| 0 <= q < |ks| && ks[q] == i;
    assert st.lists[ks[0]] != [];
    if i != ks[0] {
      NoGapShowsAll(st, ks[1..], i, r);
    }
  }

  lemma {:induction false} GapHides(st: Routing, ks: seq<nat>, p: nat, q: nat)
    requires st.Consistent() && Distinct(ks) && InRange(ks, |st.lists|)
    requires p < q < |ks| && st.lists[ks[p]] == [] && st.lists[ks[q]] != []
    ensures st.lists[ks[q]][0] !in VisibleFrom(st, ks)
  {
    if p > 0 && st.lists[ks[0]] != [] {
      GapHides(st, ks[1..], p - 1, q - 1);
      assert st.ListOk(ks[0]) && st.ListOk(ks[q]);
    }
  }

  predicate AllVisible(st: Routing)
    requires st.Shape()
  {
    forall r :: 0 <= r < |st.routes| && st.blocks[r] != 0 ==> r in Visible(st)
  }

  lemma NeighboursAreUsed(st: Routing)
    requires st.Consistent()
    ensures Distinct(NbrsInOrder(st))
    ensures forall i :: 0 <= i < |st.lists| ==> (i in NbrsInOrder(st) <==> st.Used(i))
  {
    UsedKeysMeaning(st.tables, st.t, st.tables.keys);
  }

  /// Walking over the table reaches every route exactly when no neighbour without routes is
  /// listed before one with routes.
  lemma AllVisibleIffNoGap(st: Routing)
    requires st.Consistent()
    ensures AllVisible(st) <==> NoGap(st, NbrsInOrder(st))
  {
    var ks := NbrsInOrder(st);
    NeighboursAreUsed(st);
    if NoGap(st, ks) {
      forall r | 0 <= r < |st.routes| && st.blocks[r] != 0
        ensures r in Visible(st)
      {
        assert st.Linked(r) && st.ListOk(st.routes[r].nbr);
        NoGapShowsAll(st, ks, st.routes[r].nbr, r);
      }
    } else {
      var p, q :| 0 <= p < q < |ks| && st.lists[ks[p]] == [] && st.lists[ks[q]] != [];
      GapHides(st, ks, p, q);
      var r := st.lists[ks[q]][0];
      assert st.ListOk(ks[q]) && r in st.lists[ks[q]];
      assert st.Linked(r);
    }
  }

  // ---------------------------------------------------------------- lookup

  /// What a prefix stands for: an address up to its whole bytes. The remaining bits of a length
  /// that is no multiple of eight do not count.
  lemma OnlyWholeBytesCount(a: Ip, b: Ip, length: PrefixLength)
    ensures PrefixMatch(a, b, length) <==> forall i :: 0 <= i < 16 && 8 * i + 8 <= length ==> a[i] == b[i]
    ensures PrefixMatch(a, b, 0) && (PrefixMatch(a, b, 128) <==> a == b)
  {
    assert a[..16] == a && b[..16] == b;
    if PrefixMatch(a, b, length) {
      forall i | 0 <= i < 16 && 8 * i + 8 <= length
        ensures a[i] == b[i]
      {
        assert a[..length / 8][i] == a[i] && b[..length / 8][i] == b[i];
      }
    }
  }

  /// The scan of `uip_ds6_route_lookup` over the routes `v`.
  function Best(st: Routing, v: seq<nat>, addr: Ip): (r: Option<nat>)
    requires st.Shape() && InRange(v, |st.routes|)
    ensures r.Some? ==> r.value in v && PrefixMatch(addr, st.routes[r.value].ip, st.routes[r.value].length)
  {
    if v == [] then None
    else
      var n := |v| - 1;
      var before := Best(st, v[..n], addr);
      var longest := if before.Some? then st.routes[before.value].length else 0;
      var r := st.routes[v[n]];
      if r.length >= longest && PrefixMatch(addr, r.ip, r.length) then Some(v[n]) else before
  }

  lemma VisibleInRange(st: Routing)
    requires st.Consistent()
    ensures InRange(Visible(st), |st.routes|)
  {
    NeighboursAreUsed(st);
    VisibleIsDistinct(st, NbrsInOrder(st));
    assert forall p :: 0 <= p < |Visible(st)| ==> Visible(st)[p] in Visible(st);
  }

  function Lookup(st: Routing, addr: Ip): (r: Option<nat>)
    requires st.Consistent()
    ensures r.Some? ==> r.value in Visible(st)
  {
    VisibleInRange(st);
    Best(st, Visible(st), addr)
  }

  predicate Matches(st: Routing, r: nat, addr: Ip)
    requires st.Shape()
  {
    r < |st.routes| && PrefixMatch(addr, st.routes[r].ip, st.routes[r].length)
  }

  /// Route `v[p]` matches, no matching one has a longer prefix, and no later one the same.
  predicate IsBest(st: Routing, v: seq<nat>, p: nat, addr: Ip)
    requires st.Shape() && InRange(v, |st.routes|)
  {
    && p < |v| && Matches(st, v[p], addr)
    && (forall q :: 0 <= q < |v| && Matches(st, v[q], addr) ==> st.routes[v[q]].length <= st.routes[v[p]].length)
    && (forall q :: p < q < |v| && Matches(st, v[q], addr) ==> st.routes[v[q]].length < st.routes[v[p]].length)
  }

  lemma BestStays(st: Routing, v: seq<nat>, n: nat, p: nat, addr: Ip)
    requires st.Shape() && InRange(v, |st.routes|) && n + 1 == |v| && IsBest(st, v[..n], p, addr)
    requires Matches(st, v[n], addr) ==> st.routes[v[n]].length < st.routes[v[p]].length
    ensures IsBest(st, v, p, addr)
  {
    assert forall q :: 0 <= q < n ==> v[..n][q] == v[q];
  }

  lemma BestChanges(st: Routing, v: seq<nat>, n: nat, p: nat, addr: Ip)
    requires st.Shape() && InRange(v, |st.routes|) && n + 1 == |v| && Matches(st, v[n], addr)
    requires IsBest(st, v[..n], p, addr) && st.routes[v[p]].length <= st.routes[v[n]].length
    ensures IsBest(st, v, n, addr)
  {
    forall q | 0 <= q < n && Matches(st, v[q], addr)
      ensures st.routes[v[q]].length <= st.routes[v[n]].length
    {
      assert v[..n][q] == v[q];
    }
  }

  lemma BestIsFirst(st: Routing, v: seq<nat>, n: nat, addr: Ip)
    requires st.Shape() && InRange(v, |st.routes|) && n + 1 == |v|
    requires forall q :: 0 <= q < n ==> !Matches(st, v[..n][q], addr)
    ensures forall q :: 0 <= q < n ==> !Matches(st, v[q], addr)
    ensures Matches(st, v[n], addr) ==> IsBest(st, v, n, addr)
  {
    assert forall q :: 0 <= q < n ==> v[..n][q] == v[q];
  }

  /// The scan finds the best route, and none only if nothing matches.
  lemma {:induction false} BestIsLongest(st: Routing, v: seq<nat>, addr: Ip) returns (p: nat)
    requires st.Shape() && InRange(v, |st.routes|)
    ensures var b := Best(st, v, addr);
            if b.Some? then IsBest(st, v, p, addr) && v[p] == b.value
            else forall q :: 0 <= q < |v| ==> !Matches(st, v[q], addr)
  {
    p := 0;
    if v != [] {
      var n := |v| - 1;
      p := BestIsLongest(st, v[..n], addr);
      var before := Best(st, v[..n], addr);
      if before.None? {
        BestIsFirst(st, v, n, addr);
        p := n;
      } else if Matches(st, v[n], addr) && st.routes[v[n]].length >= st.routes[before.value].length {
        BestChanges(st, v, n, p, addr);
        p := n;
      } else {
        BestStays(st, v, n, p, addr);
      }
    }
  }

  /// While every route is reachable, the lookup finds a matching allocated route of maximal
  /// prefix length whenever one exists.
  lemma LookupIsLongestMatch(st: Routing, addr: Ip)
    requires st.Consistent() && AllVisible(st)
    ensures match Lookup(st, addr)
            case None => forall r :: 0 <= r < |st.routes| && st.blocks[r] != 0 ==> !Matches(st, r, addr)
            case Some(b) =>
              && b < |st.routes| && st.blocks[b] != 0 && Matches(st, b, addr)
              && forall r :: 0 <= r < |st.routes| && st.blocks[r] != 0 && Matches(st, r, addr) ==>
                   st.routes[r].length <= st.routes[b].length
  {
    VisibleInRange(st);
    NeighboursAreUsed(st);
    VisibleIsDistinct(st, NbrsInOrder(st));
    var p := BestIsLongest(st, Visible(st), addr);
    forall r | 0 <= r < |st.routes| && st.blocks[r] != 0
      ensures exists q :: 0 <= q < |Visible(st)| && Visible(st)[q] == r
    {
    }
  }

  // --------------------------------------------------------------- removal

  /// `uip_ds6_route_rm`: with its last route a neighbour leaves the table.
  function Rm(st: Routing, r: nat): (m: Routing)
    requires st.Shape() && r < |st.routes|
    ensures m.Shape()
  {
    var i := st.routes[r].nbr;
    var l := Without(st.lists[i], r);
    st.(tables := if l == [] then Remove(st.tables, st.t, i) else st.tables,
        lists := st.lists[i := l],
        blocks := st.blocks[r := if st.blocks[r] > 0 then st.blocks[r] - 1 else 0],
        num := st.num - 1)
  }

  lemma OtherUsersStay(s: Tables, t: TableIndex, i: nat)
    requires s.Inv() && i < s.N()
    ensures var m := Remove(s, t, i);
            && m.Inv() && m.keys == s.keys && !Bit(m.used[i], t)
            && forall j :: 0 <= j < s.N() && j != i ==> m.used[j] == s.used[j]
  {
    RemoveRefines(s, t, i);
    BitOfWithBit(s.used[i], t, false, t);
  }

  lemma RmLists(st: Routing, r: nat)
    requires st.Consistent() && r < |st.routes| && st.blocks[r] != 0
    ensures var m := Rm(st, r); var i := st.routes[r].nbr;
            && i < |st.lists| && r in st.lists[i] && |m.lists[i]| == |st.lists[i]| - 1
            && m.lists == st.lists[i := m.lists[i]] && Distinct(m.lists[i])
            && (forall x :: x in m.lists[i] <==> x in st.lists[i] && x != r)
            && m.num == InUse(m.blocks) == Total(m.lists)
  {
    var i := st.routes[r].nbr;
    assert st.Linked(r) && st.ListOk(i);
    var p :| 0 <= p < |st.lists[i]| && st.lists[i][p] == r;
    WithoutAt(st.lists[i], p);
    WithoutKeepsDistinct(st.lists[i], r);
    TotalAfter(st.lists, i, Rm(st, r).lists[i]);
    InUseAfter(st.blocks, r, 0);
  }

  lemma RmUsed(st: Routing, r: nat)
    requires st.Consistent() && r < |st.routes| && st.blocks[r] != 0
    ensures var m := Rm(st, r);
            && m.tables.Inv()
            && (forall j :: 0 <= j < |st.lists| && m.Used(j) ==> st.Used(j))
            && (forall j :: 0 <= j < |st.lists| && st.Used(j) && m.lists[j] != [] ==> m.Used(j))
            && (st.NoEmptyList() ==> m.NoEmptyList())
  {
    var i := st.routes[r].nbr;
    RmLists(st, r);
    OtherUsersStay(st.tables, st.t, i);
  }

  lemma RmKeepsConsistent(st: Routing, r: nat)
    requires st.Consistent() && r < |st.routes| && st.blocks[r] != 0
    ensures var m := Rm(st, r);
            && m.Consistent()
            && (st.NoEmptyList() ==> m.NoEmptyList())
            && |m.lists[st.routes[r].nbr]| < |st.lists[st.routes[r].nbr]|
  {
    var m := Rm(st, r);
    RmLists(st, r);
    RmUsed(st, r);
    forall j | 0 <= j < |m.lists|
      ensures m.ListOk(j)
    {
      assert st.ListOk(j);
    }
    forall x | 0 <= x < |m.routes|
      ensures m.blocks[x] <= 1 && (m.blocks[x] != 0 <==> m.Linked(x))
    {
      assert st.blocks[x] != 0 <==> st.Linked(x);
    }
  }

  /// `rm_routelist`: take out the first route until the list is empty.
  function RmList(st: Routing, i: nat): (m: Routing)
    requires st.Consistent() && i < |st.lists|
    ensures m.Shape()
    decreases |st.lists[i]|
  {
    if st.lists[i] == [] then st.(tables := Remove(st.tables, st.t, i))
    else
      var r := st.lists[i][0];
      assert r in st.lists[i] && st.ListOk(i) && st.Linked(r);
      RmKeepsConsistent(st, r);
      RmList(Rm(st, r), i)
  }

  lemma RemoveTwice(s: Tables, t: TableIndex, i: nat)
    requires s.Shape() && i < s.N()
    ensures Remove(Remove(s, t, i), t, i) == Remove(s, t, i)
  {
    var m := Remove(s, t, i);
    assert WithBit(m.used[i], t, false) == m.used[i];
    assert WithBit(m.locked[i], t, false) == m.locked[i];
  }

  lemma FirstRoute(st: Routing, i: nat) returns (r: nat)
    requires st.Consistent() && i < |st.lists| && st.lists[i] != []
    ensures r == st.lists[i][0] && r < |st.routes| && st.blocks[r] != 0 && st.routes[r].nbr == i
    ensures Rm(st, r).Consistent() && Rm(st, r).lists[i] == st.lists[i][1..]
  {
    r := st.lists[i][0];
    assert r in st.lists[i] && st.ListOk(i) && st.Linked(r);
    RmKeepsConsistent(st, r);
  }

  lemma {:induction false} RmListTables(st: Routing, i: nat)
    requires st.Consistent() && i < |st.lists|
    ensures var m := RmList(st, i);
            m.t == st.t && m.routes == st.routes && m.tables == Remove(st.tables, st.t, i)
    decreases |st.lists[i]|
  {
    if st.lists[i] != [] {
      var r := FirstRoute(st, i);
      RmListTables(Rm(st, r), i);
      RemoveTwice(st.tables, st.t, i);
    }
  }

  lemma {:induction false} RmListLists(st: Routing, i: nat)
    requires st.Consistent() && i < |st.lists|
    ensures var m := RmList(st, i); m.lists == st.lists[i := []] && m.num == st.num - |st.lists[i]|
    decreases |st.lists[i]|
  {
    if st.lists[i] != [] {
      var r := FirstRoute(st, i);
      RmListLists(Rm(st, r), i);
      assert Rm(st, r).lists[i := []] == st.lists[i := []];
    }
  }

  lemma {:induction false} RmListBlocks(st: Routing, i: nat)
    requires st.Consistent() && i < |st.lists|
    ensures var m := RmList(st, i);
            && |m.blocks| == |st.blocks|
            && forall r :: 0 <= r < |st.blocks| ==> m.blocks[r] == if r in st.lists[i] then 0 else st.blocks[r]
    decreases |st.lists[i]|
  {
    if st.lists[i] != [] {
      var r := FirstRoute(st, i);
      var w := Rm(st, r);
      RmListBlocks(w, i);
      assert st.lists[i] == [r] + w.lists[i];
      assert forall x :: x in st.lists[i] <==> x == r || x in w.lists[i];
      RmKeepsConsistent(st, r);
    }
  }

  /// The loop ends with all routes of the neighbour gone, their memory free, and the neighbour
  /// out of the table.
  lemma RmListMeaning(st: Routing, i: nat)
    requires st.Consistent() && i < |st.lists|
    ensures var m := RmList(st, i);
            && m.t == st.t && m.routes == st.routes && |m.blocks| == |st.blocks|
            && m.tables == Remove(st.tables, st.t, i)
            && m.lists == st.lists[i := []]
            && m.num == st.num - |st.lists[i]|
            && forall r :: 0 <= r < |st.blocks| ==> m.blocks[r] == if r in st.lists[i] then 0 else st.blocks[r]
  {
    RmListTables(st, i);
    RmListLists(st, i);
    RmListBlocks(st, i);
  }

  lemma {:induction false} RmListKeepsConsistent(st: Routing, i: nat)
    requires st.Consistent() && i < |st.lists|
    ensures RmList(st, i).Consistent()
    ensures st.NoEmptyList() ==> RmList(st, i).NoEmptyList()
    decreases |st.lists[i]|
  {
    if st.lists[i] == [] {
      var m := RmList(st, i);
      OtherUsersStay(st.tables, st.t, i);
      forall j | 0 <= j < |m.lists|
        ensures m.ListOk(j)
      {
        assert st.ListOk(j);
      }
      forall x | 0 <= x < |m.routes|
        ensures m.blocks[x] <= 1 && (m.blocks[x] != 0 <==> m.Linked(x))
      {
        assert st.blocks[x] != 0 <==> st.Linked(x);
      }
      if st.NoEmptyList() {
        forall j | 0 <= j < |m.lists| && m.Used(j)
          ensures m.lists[j] != []
        {
          assert st.Used(j);
        }
      }
    } else {
      var r := st.lists[i][0];
      assert r in st.lists[i] && st.ListOk(i) && st.Linked(r);
      RmKeepsConsistent(st, r);
      RmListKeepsConsistent(Rm(st, r), i);
    }
  }

  // ---------------------------------------------------- adding a neighbour

  /// `nbr_table_allocate` with the routes' callback, which runs on the chosen neighbour before
  /// it is taken out.
  function NbrAllocate(st: Routing): (r: (Routing, Option<nat>))
    requires st.Consistent()
    ensures r.0.Shape() && r.0.tables.N() == st.tables.N() && (r.1.Some? ==> r.1.value < st.tables.N())
  {
    var s := st.tables;
    var f := FirstFree(s.blocks, 0);
    var v := Victim(s, s.keys);
    if f.Some? then (st.(tables := s.(blocks := s.blocks[f.value := 1])), f)
    else if v.None? then (st, None)
    else
      var w := if Bit(s.used[v.value], st.t) then RmList(st, v.value) else st;
      RmListMeaning(st, v.value);
      (w.(tables := Evict(w.tables, v.value)), v)
  }

  /// `nbr_table_add_lladdr` for table `u`.
  function NbrAdd(st: Routing, u: TableIndex, a: Address): (Routing, Option<nat>)
    requires st.Consistent()
  {
    var i := IndexOf(st.tables, st.tables.keys, a);
    if i.Some? then (st.(tables := Use(st.tables, u, i.value)), i)
    else
      var (w, k) := NbrAllocate(st);
      if k.None? then (w, None) else (w.(tables := Use(Enlist(w.tables, k.value, a), u, k.value)), k)
  }

  /// The neighbour that adding `a` evicts.
  function EvictedBy(s: Tables, a: Address): Option<nat>
    requires s.Shape()
  {
    if IndexOf(s, s.keys, a).Some? || FirstFree(s.blocks, 0).Some? then None else Victim(s, s.keys)
  }

  lemma EvictAfterRemove(s: Tables, t: TableIndex, v: nat)
    requires s.Shape() && v < s.N() && s.locked[v] == 0
    ensures Evict(Remove(s, t, v), v) == Evict(s, v)
  {
    assert WithBit(0, t, false) == 0;
    assert s.locked[v := 0] == s.locked;
  }

  /// Consistency depends on the neighbour tables only through who is used.
  lemma ListsOkFrom(st: Routing, m: Routing)
    requires st.ListsOk() && m.Shape() && m.t == st.t
    requires m.lists == st.lists && m.routes == st.routes && m.blocks == st.blocks && m.num == st.num
    requires forall j :: 0 <= j < |st.lists| && st.lists[j] != [] && st.Used(j) ==> m.Used(j)
    ensures m.ListsOk()
  {
    forall j | 0 <= j < |m.lists|
      ensures m.ListOk(j)
    {
      assert st.ListOk(j);
    }
    assert forall r :: 0 <= r < |st.routes| ==> (m.Linked(r) <==> st.Linked(r));
  }

  /// With the callback, allocating still does to the neighbour tables what it does without,
  /// and the routes through the neighbour it takes are gone.
  lemma NbrAllocateKeeps(st: Routing)
    requires st.Consistent()
    ensures var (w, k) := NbrAllocate(st);
            && (w.tables, k) == AllocateKey(st.tables) && w.ListsOk() && w.t == st.t && w.routes == st.routes
            && (k.None? ==> w == st)
            && (FirstFree(st.tables.blocks, 0).Some? ==> w.lists == st.lists)
            && (k.Some? ==>
                 && w.lists == st.lists[k.value := []]
                 && forall j :: 0 <= j < |st.lists| ==> (w.Used(j) <==> st.Used(j) && k.value != j))
            && (forall r :: 0 <= r < |st.blocks| ==>
                 w.blocks[r] == if k.Some? && r in st.lists[k.value] then 0 else st.blocks[r])
  {
    var s := st.tables;
    var (w, k) := NbrAllocate(st);
    var f := FirstFree(s.blocks, 0);
    if f.Some? {
      assert f.value !in s.keys && st.ListOk(f.value);
      assert st.lists[f.value := []] == st.lists;
      ListsOkFrom(st, w);
    } else if k.Some? {
      NbrEvictKeeps(st, k.value);
    }
  }

  /// What the callback leaves of the routes through the victim, used by this table or not.
  lemma CallbackClears(st: Routing, v: nat)
    requires st.Consistent() && v < |st.lists|
    ensures var x := if Bit(st.tables.used[v], st.t) then RmList(st, v) else st;
            && x.Consistent() && x.t == st.t && x.routes == st.routes && x.lists == st.lists[v := []]
            && x.tables == (if Bit(st.tables.used[v], st.t) then Remove(st.tables, st.t, v) else st.tables)
            && |x.blocks| == |st.blocks|
            && forall r :: 0 <= r < |st.blocks| ==> x.blocks[r] == if r in st.lists[v] then 0 else st.blocks[r]
  {
    assert st.ListOk(v);
    RmListMeaning(st, v);
    RmListKeepsConsistent(st, v);
    assert st.lists[v] == [] ==> st.lists[v := []] == st.lists;
  }

  lemma NbrEvictKeeps(st: Routing, v: nat)
    requires st.Consistent() && FirstFree(st.tables.blocks, 0).None? && Victim(st.tables, st.tables.keys) == Some(v)
    ensures var w := NbrAllocate(st).0;
            && w.tables == Evict(st.tables, v) && w.ListsOk() && w.t == st.t && w.routes == st.routes
            && w.lists == st.lists[v := []]
            && (forall j :: 0 <= j < |st.lists| ==> (w.Used(j) <==> st.Used(j) && v != j))
            && (forall r :: 0 <= r < |st.blocks| ==> w.blocks[r] == if r in st.lists[v] then 0 else st.blocks[r])
  {
    var s := st.tables;
    var p := VictimMeaning(s, s.keys);
    EvictAfterRemove(s, st.t, v);
    CallbackClears(st, v);
    var x := if Bit(s.used[v], st.t) then RmList(st, v) else st;
    var w := NbrAllocate(st).0;
    assert w == x.(tables := Evict(s, v));
    EvictUsed(s, st.t, v);
    ListsOkFrom(x, w);
  }

  lemma EvictUsed(s: Tables, t: TableIndex, v: nat)
    requires s.Inv() && v in s.keys
    ensures var m := Evict(s, v);
            forall j :: 0 <= j < s.N() ==>
              (j in m.keys && Bit(m.used[j], t) <==> j in s.keys && Bit(s.used[j], t) && v != j)
  {
    WithoutKeepsDistinct(s.keys, v);
  }

  lemma UseUsed(s: Tables, u: TableIndex, i: nat, t: TableIndex)
    requires s.Shape() && i < s.N() && i in s.keys
    ensures var m := Use(s, u, i);
            && m.Shape() && m.keys == s.keys
            && forall j :: 0 <= j < s.N() ==>
                 (j in m.keys && Bit(m.used[j], t) <==> (j in s.keys && Bit(s.used[j], t)) || (u == t && i == j))
  {
    BitOfWithBit(s.used[i], u, true, t);
  }

  lemma EnlistUsed(s: Tables, k: nat, a: Address, t: TableIndex)
    requires s.InvExcept(Some(k)) && a !in Addresses(s)
    ensures var m := Enlist(s, k, a);
            && m.Inv() && k in m.keys
            && forall j :: 0 <= j < s.N() ==>
                 (j in m.keys && Bit(m.used[j], t) <==> j in s.keys && Bit(s.used[j], t))
  {
    EnlistKeepsInv(s, k, a);
    NoBits(s.used[k]);
    assert forall j :: j in s.keys + [k] <==> j in s.keys || j == k;
  }

  /// What adding the neighbour `a` to table `u` does: the neighbour tables change as they do
  /// without routes, the evicted neighbour loses its routes, whose memory becomes free, and
  /// the routes of the others stay.
  predicate NbrAdded(st: Routing, u: TableIndex, a: Address, m: Routing, k: Option<nat>)
    requires st.Shape()
  {
    var v := EvictedBy(st.tables, a);
    && (m.tables, k) == NT.Add(st.tables, u, a)
    && m.Consistent() && m.t == st.t && m.routes == st.routes && |m.lists| == |st.lists|
    && (k.Some? ==> k.value < |m.lists|)
    && m.lists == (if v.Some? then st.lists[v.value := []] else st.lists)
    && (forall j :: 0 <= j < |st.lists| ==>
         (m.Used(j) <==> (st.Used(j) && v != Some(j)) || (u == st.t && k == Some(j))))
    && (forall r :: 0 <= r < |st.blocks| ==>
         m.blocks[r] == if v.Some? && r in st.lists[v.value] then 0 else st.blocks[r])
  }

  lemma NbrAddTables(st: Routing, u: TableIndex, a: Address)
    requires st.Consistent() && IndexOf(st.tables, st.tables.keys, a).None? && a !in Addresses(st.tables)
    ensures var (w, k) := NbrAllocate(st); var (m, l) := NbrAdd(st, u, a);
            && l == k && (m.tables, k) == NT.Add(st.tables, u, a) && m == w.(tables := m.tables)
            && m.tables.Inv()
  {
    AddRefines(st.tables, u, a);
    NbrAllocateKeeps(st);
  }

  lemma NbrAddNewTables(st: Routing, u: TableIndex, a: Address)
    requires st.Consistent() && IndexOf(st.tables, st.tables.keys, a).None? && a !in Addresses(st.tables)
    ensures var (w, k) := NbrAllocate(st); var (m, l) := NbrAdd(st, u, a);
            && l == k && (m.tables, k) == NT.Add(st.tables, u, a) && m == w.(tables := m.tables) && m.Consistent()
            && (k.Some? ==>
                 forall j :: 0 <= j < |st.lists| ==> (m.Used(j) <==> w.Used(j) || (u == st.t && k == Some(j))))
  {
    NbrAddTables(st, u, a);
    NbrAllocateKeeps(st);
    if NbrAllocate(st).1.Some? {
      NbrAddUses(st, u, a);
      ListsOkFrom(NbrAllocate(st).0, NbrAdd(st, u, a).0);
    }
  }

  lemma NbrAddUses(st: Routing, u: TableIndex, a: Address)
    requires st.Consistent() && IndexOf(st.tables, st.tables.keys, a).None? && a !in Addresses(st.tables)
    requires NbrAllocate(st).1.Some?
    ensures var (w, k) := NbrAllocate(st); var (m, l) := NbrAdd(st, u, a);
            && m.Shape() && w.Shape() && |w.lists| == |m.lists| == |st.lists|
            && forall j :: 0 <= j < |st.lists| ==> (m.Used(j) <==> w.Used(j) || (u == st.t && k == Some(j)))
  {
    NbrAllocateKeeps(st);
    var (w, k) := NbrAllocate(st);
    AllocateRefines(st.tables, a);
    EnlistAndUse(w.tables, k.value, a, u, st.t);
  }

  lemma EnlistAndUse(s: Tables, k: nat, a: Address, u: TableIndex, t: TableIndex)
    requires s.InvExcept(Some(k)) && a !in Addresses(s)
    ensures var m := Use(Enlist(s, k, a), u, k);
            && m.Shape() && m.N() == s.N()
            && forall j :: 0 <= j < s.N() ==>
                 (j in m.keys && Bit(m.used[j], t) <==> (j in s.keys && Bit(s.used[j], t)) || (u == t && k == j))
  {
    EnlistUsed(s, k, a, t);
    UseUsed(Enlist(s, k, a), u, k, t);
  }

  lemma NbrAddNew(st: Routing, u: TableIndex, a: Address)
    requires st.Consistent() && IndexOf(st.tables, st.tables.keys, a).None? && a !in Addresses(st.tables)
    ensures var (m, k) := NbrAdd(st, u, a); NbrAdded(st, u, a, m, k)
  {
    NbrAllocateKeeps(st);
    NbrAddNewTables(st, u, a);
    var f := FirstFree(st.tables.blocks, 0);
    if f.Some? {
      assert f.value !in st.tables.keys && st.ListOk(f.value);
      assert forall j :: 0 <= j < |st.lists| ==> forall r :: r in st.lists[j] ==> st.ListOk(j) && st.Linked(r);
    }
  }

  /// A table other than the routes' own may add a neighbour at any time.
  lemma NbrAddKeeps(st: Routing, u: TableIndex, a: Address)
    requires st.Consistent() && (u == st.t ==> Get(st.tables, u, a).None?)
    ensures var (m, k) := NbrAdd(st, u, a); NbrAdded(st, u, a, m, k)
  {
    var s := st.tables;
    AddRefines(s, u, a);
    IndexOfMeaning(s, s.keys, a);
    GetMeaning(s, None, u, a);
    var i := IndexOf(s, s.keys, a);
    if i.Some? {
      UseUsed(s, u, i.value, st.t);
      ListsOkFrom(st, NbrAdd(st, u, a).0);
    } else {
      NbrAddNew(st, u, a);
    }
  }

  // ---------------------------------------------------------- adding routes

  /// A new route in block `f` at the end of the list of neighbour `k`.
  function Link(w: Routing, f: nat, k: nat, ip: Ip, length: PrefixLength): (m: Routing)
    requires w.Shape() && f < |w.routes| && k < |w.lists|
    ensures m.Shape()
  {
    w.(lists := w.lists[k := Without(w.lists[k], f) + [f]],
       blocks := w.blocks[f := 1],
       routes := w.routes[f := Route(k, ip, length)],
       num := w.num + 1)
  }

  lemma LinkKeeps(w: Routing, f: nat, k: nat, ip: Ip, length: PrefixLength)
    requires w.Consistent() && f < |w.routes| && w.blocks[f] == 0 && k < |w.lists| && w.Used(k)
    ensures Link(w, f, k, ip, length).Consistent()
    ensures Link(w, f, k, ip, length).lists[k] == w.lists[k] + [f]
    ensures f !in Visible(w)
  {
    var m := Link(w, f, k, ip, length);
    assert w.ListOk(k) && !w.Linked(f);
    forall j | 0 <= j < |w.lists|
      ensures f !in w.lists[j]
    {
      assert w.ListOk(j);
    }
    TotalAfter(w.lists, k, m.lists[k]);
    InUseAfter(w.blocks, f, 1);
    forall j | 0 <= j < |m.lists|
      ensures m.ListOk(j)
    {
      assert w.ListOk(j);
    }
    forall x | 0 <= x < |m.routes|
      ensures m.blocks[x] <= 1 && (m.blocks[x] != 0 <==> m.Linked(x))
    {
      assert w.blocks[x] != 0 <==> w.Linked(x);
    }
    NeighboursAreUsed(w);
    VisibleIsDistinct(w, NbrsInOrder(w));
  }

  lemma OverwriteKeeps(st: Routing, r: nat, ip: Ip, length: PrefixLength)
    requires st.Consistent() && r < |st.routes|
    ensures st.(routes := st.routes[r := st.routes[r].(ip := ip, length := length)]).Consistent()
  {
    var m := st.(routes := st.routes[r := st.routes[r].(ip := ip, length := length)]);
    forall j | 0 <= j < |m.lists|
      ensures m.ListOk(j)
    {
      assert st.ListOk(j);
    }
    assert forall x :: 0 <= x < |st.routes| ==> (m.Linked(x) <==> st.Linked(x));
  }

  /// `uip_ds6_route_add`. A route that covers the destination is overwritten, but keeps its
  /// next hop. `lladdr` is the link address of the next hop, if known.
  function RouteAdded(st: Routing, ip: Ip, length: PrefixLength, lladdr: Option<Address>): (Routing, Option<nat>)
    requires st.Consistent()
  {
    if lladdr.None? then (st, None)
    else
      var r := Lookup(st, ip);
      VisibleInRange(st);
      if r.Some? then
        (st.(routes := st.routes[r.value := st.routes[r.value].(ip := ip, length := length)]), r)
      else
        var (w, k) := AddNeighbour(st, lladdr.value);
        if k.None? then (w, None)
        else
          var f := FirstFree(w.blocks, 0);
          if f.None? then (w, None) else (Link(w, f.value, k.value, ip, length), f)
  }

  /// The neighbour the route goes through, entered into the table if need be.
  function AddNeighbour(st: Routing, a: Address): (r: (Routing, Option<nat>))
    requires st.Consistent()
    ensures r.0.Consistent() && (r.1.Some? ==> r.1.value < |r.0.lists|)
  {
    var g := Get(st.tables, st.t, a);
    if g.Some? then (st, g)
    else
      NbrAddKeeps(st, st.t, a);
      var (m, k) := NbrAdd(st, st.t, a);
      if k.None? then (m, None)
      else
        // `LIST_STRUCT_INIT`
        AlreadyEmpty(st, a);
        (m.(lists := m.lists[k.value := []]), k)
  }

  lemma AlreadyEmpty(st: Routing, a: Address)
    requires st.Consistent() && Get(st.tables, st.t, a).None? && NbrAdd(st, st.t, a).1.Some?
    ensures var (m, k) := NbrAdd(st, st.t, a);
            k.value < |m.lists| && m.lists[k.value] == [] && m.lists[k.value := []] == m.lists && m.Used(k.value)
  {
    var s := st.tables;
    NbrAddKeeps(st, st.t, a);
    var (m, k) := NbrAdd(st, st.t, a);
    IndexOfMeaning(s, s.keys, a);
    assert st.ListOk(k.value);
  }

  lemma NeighbourIsUsed(st: Routing, a: Address)
    requires st.Consistent()
    ensures var (w, k) := AddNeighbour(st, a);
            && w.t == st.t && w.routes == st.routes && |w.blocks| == |st.blocks|
            && (k.Some? ==> w.Used(k.value))
  {
    GetMeaning(st.tables, None, st.t, a);
    if Get(st.tables, st.t, a).None? {
      NbrAddKeeps(st, st.t, a);
      if NbrAdd(st, st.t, a).1.Some? {
        AlreadyEmpty(st, a);
      }
    }
  }

  lemma AddKeepsConsistent(st: Routing, ip: Ip, length: PrefixLength, lladdr: Option<Address>)
    requires st.Consistent()
    ensures RouteAdded(st, ip, length, lladdr).0.Consistent()
  {
    VisibleInRange(st);
    if lladdr.Some? {
      var r := Lookup(st, ip);
      if r.Some? {
        OverwriteKeeps(st, r.value, ip, length);
      } else {
        NeighbourIsUsed(st, lladdr.value);
        var (w, k) := AddNeighbour(st, lladdr.value);
        if k.Some? && FirstFree(w.blocks, 0).Some? {
          LinkKeeps(w, FirstFree(w.blocks, 0).value, k.value, ip, length);
        }
      }
    }
  }

  /// The add that leaves a neighbour without routes in the table: nothing covers the
  /// destination, the next hop is not in the table but finds a place there, and there is no
  /// memory for a route, not even that of an evicted neighbour.
  predicate LeavesEmptyList(st: Routing, ip: Ip, lladdr: Option<Address>)
    requires st.Consistent()
  {
    && lladdr.Some? && Lookup(st, ip).None?
    && Get(st.tables, st.t, lladdr.value).None?
    && FirstFree(st.blocks, 0).None?
    && (IndexOf(st.tables, st.tables.keys, lladdr.value).None? ==>
         !AllLocked(st.tables)
         && (FirstFree(st.tables.blocks, 0).None? && Victim(st.tables, st.tables.keys).Some? ==>
              !Bit(st.tables.used[Victim(st.tables, st.tables.keys).value], st.t)))
  }

  /// Memory for a route is there after a neighbour was added if there was some before, or if
  /// the neighbour that made room had routes.
  lemma MemoryAfter(st: Routing, a: Address)
    requires st.Consistent() && st.NoEmptyList() && Get(st.tables, st.t, a).None?
    ensures var v := EvictedBy(st.tables, a);
            FirstFree(NbrAdd(st, st.t, a).0.blocks, 0).None? <==>
              FirstFree(st.blocks, 0).None? && (v.Some? ==> !Bit(st.tables.used[v.value], st.t))
  {
    var (m, k) := NbrAdd(st, st.t, a);
    var v := EvictedBy(st.tables, a);
    NbrAddKeeps(st, st.t, a);
    var f := FirstFree(m.blocks, 0);
    if v.Some? {
      assert st.ListOk(v.value);
      if st.lists[v.value] != [] {
        var r := st.lists[v.value][0];
        assert r in st.lists[v.value] && m.blocks[r] == 0;
      } else {
        assert !st.Used(v.value);
      }
    }
  }

  lemma OthersKeepRoutes(st: Routing, a: Address)
    requires st.Consistent() && st.NoEmptyList() && Get(st.tables, st.t, a).None?
    ensures var (m, k) := NbrAdd(st, st.t, a);
            && |m.lists| == |st.lists|
            && (k.None? ==> m == st)
            && forall j :: 0 <= j < |st.lists| && m.Used(j) && k != Some(j) ==> m.lists[j] != []
  {
    NbrAddKeeps(st, st.t, a);
    NbrAllocateKeeps(st);
    assert forall j :: 0 <= j < |st.lists| && st.Used(j) ==> st.lists[j] != [];
  }

  lemma EvictedOrNot(st: Routing, a: Address)
    requires st.Consistent()
    ensures NbrAdd(st, st.t, a).1.None? <==> IndexOf(st.tables, st.tables.keys, a).None? && AllLocked(st.tables)
    ensures EvictedBy(st.tables, a).Some? <==>
              IndexOf(st.tables, st.tables.keys, a).None? && FirstFree(st.tables.blocks, 0).None?
              && Victim(st.tables, st.tables.keys).Some?
  {
    NbrAllocateKeeps(st);
    IndexOfMeaning(st.tables, st.tables.keys, a);
    GetMeaning(st.tables, None, st.t, a);
    if IndexOf(st.tables, st.tables.keys, a).None? {
      AllocateRefines(st.tables, a);
    }
  }

  lemma AddWithNewNeighbour(st: Routing, ip: Ip, length: PrefixLength, a: Address)
    requires st.Consistent() && st.NoEmptyList() && Lookup(st, ip).None? && Get(st.tables, st.t, a).None?
    ensures var m := RouteAdded(st, ip, length, Some(a)).0; var (w, k) := NbrAdd(st, st.t, a);
            m.Shape() && (m.NoEmptyList() <==> k.None? || FirstFree(w.blocks, 0).Some?)
  {
    var (w, k) := NbrAdd(st, st.t, a);
    OthersKeepRoutes(st, a);
    NbrAddKeeps(st, st.t, a);
    if k.Some? {
      AlreadyEmpty(st, a);
      FilledOrEmpty(w, k.value, ip, length);
    }
  }

  /// The new neighbour `k`, the only one without routes, gets one if there is memory.
  lemma FilledOrEmpty(w: Routing, k: nat, ip: Ip, length: PrefixLength)
    requires w.Consistent() && k < |w.lists| && w.Used(k) && w.lists[k] == []
    requires forall j :: 0 <= j < |w.lists| && w.Used(j) && j != k ==> w.lists[j] != []
    ensures var f := FirstFree(w.blocks, 0);
            if f.Some? then Link(w, f.value, k, ip, length).NoEmptyList() else !w.NoEmptyList()
  {
    var f := FirstFree(w.blocks, 0);
    if f.Some? {
      LinkKeeps(w, f.value, k, ip, length);
    }
  }

  /// Adding a route keeps every neighbour's list non-empty, except in exactly that case.
  lemma AddKeepsListsIff(st: Routing, ip: Ip, length: PrefixLength, lladdr: Option<Address>)
    requires st.Consistent() && st.NoEmptyList()
    ensures var m := RouteAdded(st, ip, length, lladdr).0;
            m.Shape() && (m.NoEmptyList() <==> !LeavesEmptyList(st, ip, lladdr))
  {
    VisibleInRange(st);
    if lladdr.Some? && Lookup(st, ip).None? {
      var g := Get(st.tables, st.t, lladdr.value);
      GetMeaning(st.tables, None, st.t, lladdr.value);
      if g.None? {
        MemoryAfter(st, lladdr.value);
        EvictedOrNot(st, lladdr.value);
        AddWithNewNeighbour(st, ip, length, lladdr.value);
      } else if FirstFree(st.blocks, 0).Some? {
        LinkKeeps(st, FirstFree(st.blocks, 0).value, g.value, ip, length);
      }
    } else {
      AddKeepsConsistent(st, ip, length, lladdr);
      var m := RouteAdded(st, ip, length, lladdr).0;
      assert forall j :: 0 <= j < |st.lists| ==> (m.Used(j) <==> st.Used(j));
    }
  }

  // ------------------------------------------------ what an add achieves

  /// The route an add returns leads to the requested next hop exactly when nothing covered the
  /// destination, or when the route that covered it best went there already: overwriting a
  /// route does not move it to the new next hop.
  lemma AddUsesNextHopIff(st: Routing, ip: Ip, length: PrefixLength, a: Address)
    requires st.Consistent() && RouteAdded(st, ip, length, Some(a)).1.Some?
    ensures var (m, r) := RouteAdded(st, ip, length, Some(a));
            && r.value < |m.routes| && m.routes[r.value].ip == ip && m.routes[r.value].length == length
            && m.Shape() && m.routes[r.value].nbr in m.tables.keys
            && (m.tables.addr[m.routes[r.value].nbr] == a <==>
                 Lookup(st, ip).None? || st.tables.addr[st.routes[Lookup(st, ip).value].nbr] == a)
  {
    AddKeepsConsistent(st, ip, length, Some(a));
    VisibleInRange(st);
    NeighboursAreUsed(st);
    VisibleIsDistinct(st, NbrsInOrder(st));
    if Lookup(st, ip).None? {
      var (w, k) := AddNeighbour(st, a);
      NeighbourIsUsed(st, a);
      GetMeaning(st.tables, None, st.t, a);
      if Get(st.tables, st.t, a).None? {
        NbrAddKeeps(st, st.t, a);
        AddRefines(st.tables, st.t, a);
        GetMeaning(w.tables, None, st.t, a);
      }
    } else {
      var r := Lookup(st, ip).value;
      assert st.Used(st.routes[r].nbr);
    }
  }

  lemma {:induction false} SameListsSameWalk(st: Routing, m: Routing, ks: seq<nat>)
    requires st.Shape() && m.Shape() && m.lists == st.lists && InRange(ks, |st.lists|)
    ensures VisibleFrom(m, ks) == VisibleFrom(st, ks)
  {
    if ks != [] && st.lists[ks[0]] != [] {
      SameListsSameWalk(st, m, ks[1..]);
    }
  }

  /// Adding over a covering route changes that route only, and no walk.
  lemma OverwriteShows(st: Routing, ip: Ip, length: PrefixLength, a: Address)
    requires st.Consistent() && Lookup(st, ip).Some?
    ensures var m := RouteAdded(st, ip, length, Some(a)).0; var r := Lookup(st, ip).value;
            && r < |st.routes| && m.Consistent() && Visible(m) == Visible(st)
            && m.routes == st.routes[r := st.routes[r].(ip := ip, length := length)]
  {
    AddKeepsConsistent(st, ip, length, Some(a));
    VisibleInRange(st);
    var m := RouteAdded(st, ip, length, Some(a)).0;
    SameListsSameWalk(st, m, NbrsInOrder(st));
  }

  /// A destination loses its last route to an add over a covering route exactly if that route
  /// alone matched it and the new prefix does not. For a narrower prefix that is the rest of the
  /// old one, as far as no other route covers it.
  lemma AddTakesLastRouteIff(st: Routing, ip: Ip, length: PrefixLength, a: Address, d: Ip)
    requires st.Consistent() && Lookup(st, ip).Some?
    ensures var m := RouteAdded(st, ip, length, Some(a)).0; var r := Lookup(st, ip).value;
            && m.Consistent() && r < |st.routes|
            && (Lookup(st, d).Some? && Lookup(m, d).None? <==>
                  && Matches(st, r, d) && !PrefixMatch(d, ip, length)
                  && forall q :: q in Visible(st) && q != r ==> !Matches(st, q, d))
  {
    OverwriteShows(st, ip, length, a);
    VisibleInRange(st);
    var m, r, v := RouteAdded(st, ip, length, Some(a)).0, Lookup(st, ip).value, Visible(st);
    VisibleInRange(m);
    var p := BestIsLongest(st, v, d);
    var q := BestIsLongest(m, v, d);
    assert forall x :: x in v && x != r ==> (Matches(m, x, d) <==> Matches(st, x, d));
    assert forall x :: x in v <==> exists y :: 0 <= y < |v| && v[y] == x;
  }

  lemma NoEmptyListShowsAll(st: Routing)
    requires st.Consistent() && st.NoEmptyList()
    ensures AllVisible(st)
  {
    NeighboursAreUsed(st);
    assert forall p :: 0 <= p < |NbrsInOrder(st)| ==> NbrsInOrder(st)[p] in NbrsInOrder(st);
    AllVisibleIffNoGap(st);
  }

  /// A route added for a destination nothing covered is what a lookup of it then finds.
  lemma NewRouteIsFound(st: Routing, ip: Ip, length: PrefixLength, a: Address)
    requires st.Consistent() && st.NoEmptyList() && Lookup(st, ip).None? && RouteAdded(st, ip, length, Some(a)).1.Some?
    ensures var (m, r) := RouteAdded(st, ip, length, Some(a));
            m.Consistent() && Lookup(m, ip) == r
  {
    var (m, r) := RouteAdded(st, ip, length, Some(a));
    AddKeepsConsistent(st, ip, length, Some(a));
    AddKeepsListsIff(st, ip, length, Some(a));
    AddedRoute(st, ip, length, a);
    NoEmptyListShowsAll(st);
    NoEmptyListShowsAll(m);
    LookupIsLongestMatch(st, ip);
    LookupIsLongestMatch(m, ip);
    assert Matches(m, r.value, ip);
  }

  lemma AddedRoute(st: Routing, ip: Ip, length: PrefixLength, a: Address)
    requires st.Consistent() && st.NoEmptyList() && Lookup(st, ip).None? && RouteAdded(st, ip, length, Some(a)).1.Some?
    ensures var (m, r) := RouteAdded(st, ip, length, Some(a));
            && m.Shape() && |m.routes| == |st.routes| && r.value < |m.routes| && m.blocks[r.value] != 0
            && m.routes[r.value].ip == ip && !LeavesEmptyList(st, ip, Some(a))
            && forall x :: 0 <= x < |st.routes| && x != r.value && m.blocks[x] != 0 ==>
                 st.blocks[x] != 0 && m.routes[x] == st.routes[x]
  {
    NeighbourIsUsed(st, a);
    if Get(st.tables, st.t, a).None? {
      NbrAddKeeps(st, st.t, a);
      AlreadyEmpty(st, a);
      MemoryAfter(st, a);
      EvictedOrNot(st, a);
    }
  }

  // ------------------------------------------------------------- counting

  function Allocated(blocks: seq<nat>, n: nat): set<nat>
    requires n <= |blocks|
  {
    set r | 0 <= r < n && blocks[r] != 0
  }

  lemma {:induction false} InUseCounts(blocks: seq<nat>)
    ensures InUse(blocks) == |Allocated(blocks, |blocks|)|
  {
    if blocks != [] {
      var n := |blocks| - 1;
      InUseCounts(blocks[..n]);
      InUseLast(blocks);
      assert Allocated(blocks, n) == Allocated(blocks[..n], n);
      assert Allocated(blocks, |blocks|) == Allocated(blocks, n) + if blocks[n] != 0 then {n} else {};
    }
  }

  lemma {:induction false} InUseLast(blocks: seq<nat>)
    requires blocks != []
    ensures var n := |blocks| - 1; InUse(blocks) == InUse(blocks[..n]) + if blocks[n] == 0 then 0 else 1
  {
    if |blocks| > 1 {
      InUseLast(blocks[1..]);
      assert blocks[1..][..|blocks| - 2] == blocks[..|blocks| - 1][1..];
    }
  }

  function Elements(v: seq<nat>): set<nat> {
    set r | r in v
  }

  lemma {:induction false} DistinctCounts(v: seq<nat>)
    requires Distinct(v)
    ensures |Elements(v)| == |v|
  {
    if v != [] {
      var rest := Elements(v[1..]);
      DistinctCounts(v[1..]);
      assert forall i :: 0 < i < |v| ==> v[i] != v[0];
      assert v[0] !in rest;
      assert Elements(v) == {v[0]} + rest;
    }
  }

  /// A walk counts `num_routes` routes exactly when it reaches every route, and fewer
  /// otherwise: the check that `assert_nbr_routes_list_sane` makes.
  lemma WalkCountsRoutes(st: Routing)
    requires st.Consistent()
    ensures |Visible(st)| <= st.num && (|Visible(st)| == st.num <==> AllVisible(st))
  {
    var v := Visible(st);
    NeighboursAreUsed(st);
    VisibleIsDistinct(st, NbrsInOrder(st));
    DistinctCounts(v);
    InUseCounts(st.blocks);
    var seen := Elements(v);
    var all := Allocated(st.blocks, |st.blocks|);
    SubsetIsSmaller(seen, all);
    if AllVisible(st) {
      assert all <= seen;
    } else {
      var r :| 0 <= r < |st.routes| && st.blocks[r] != 0 && r !in v;
      assert r in all && r !in seen;
    }
  }

  // ------------------------------------------------------------------ runs

  datatype Op =
    | AddRoute(ip: Ip, length: PrefixLength, lladdr: Option<Address>)
    | RmRoute(r: nat)
    | RmNextHop(lladdr: Option<Address>)
    | OtherTable(op: NT.Op)

  /// `uip_ds6_route_rm_by_nexthop`; an unknown next hop stands for the all-zero address.
  function RmByNextHop(st: Routing, lladdr: Option<Address>): (m: Routing)
    requires st.Consistent()
    ensures m.Consistent()
  {
    var g := Get(st.tables, st.t, LladdrOf(lladdr));
    if g.None? then st
    else
      RmListKeepsConsistent(st, g.value);
      RmList(st, g.value)
  }

  /// An operation on one of the other tables.
  function ApplyOther(st: Routing, op: NT.Op): (m: Routing)
    requires st.Consistent() && op.t != st.t
    ensures m.Consistent()
  {
    match op
    case OpAdd(u, a) =>
      NbrAddKeeps(st, u, a);
      NbrAdd(st, u, a).0
    case _ =>
      OtherOpKeeps(st, op);
      st.(tables := NT.Apply(st.tables, op))
  }

  lemma OtherOpKeeps(st: Routing, op: NT.Op)
    requires st.Consistent() && op.t != st.t && !op.OpAdd?
    ensures var m := st.(tables := NT.Apply(st.tables, op));
            m.Consistent() && forall j :: 0 <= j < |st.lists| ==> (m.Used(j) <==> st.Used(j))
  {
    var m := st.(tables := NT.Apply(st.tables, op));
    if op.OpRemove? && op.i < st.tables.N() {
      BitOfWithBit(st.tables.used[op.i], op.t, false, st.t);
    }
    ListsOkFrom(st, m);
  }

  function Apply(st: Routing, op: Op): (m: Routing)
    requires st.Consistent()
    ensures m.Consistent()
  {
    match op
    case AddRoute(ip, length, lladdr) =>
      AddKeepsConsistent(st, ip, length, lladdr);
      RouteAdded(st, ip, length, lladdr).0
    case RmRoute(r) =>
      if r < |st.routes| && st.blocks[r] != 0 then
        RmKeepsConsistent(st, r);
        Rm(st, r)
      else st
    case RmNextHop(lladdr) => RmByNextHop(st, lladdr)
    case OtherTable(o) => if o.t == st.t then st else ApplyOther(st, o)
  }

  /// Removing a route takes exactly that one off its list and frees its block, and its neighbour
  /// leaves the table exactly with its last route.
  lemma RmMeaning(st: Routing, r: nat)
    requires st.Consistent() && r < |st.routes| && st.blocks[r] != 0
    ensures var m := Rm(st, r); var i := st.routes[r].nbr;
            && m.Consistent() && m.routes == st.routes && |m.lists| == |st.lists|
            && (forall x :: 0 <= x < |st.blocks| ==> m.blocks[x] == if x == r then 0 else st.blocks[x])
            && (forall j, x :: 0 <= j < |st.lists| ==> (x in m.lists[j] <==> x in st.lists[j] && x != r))
            && (st.NoEmptyList() ==> forall j :: 0 <= j < |st.lists| ==> (m.Used(j) <==> m.lists[j] != []))
  {
    var m := Rm(st, r);
    RmKeepsConsistent(st, r);
    var i := st.routes[r].nbr;
    assert st.ListOk(i) && st.Linked(r);
    WithoutKeepsDistinct(st.lists[i], r);
    forall j, x | 0 <= j < |st.lists|
      ensures x in m.lists[j] <==> x in st.lists[j] && x != r
    {
      assert st.ListOk(j);
    }
    if st.NoEmptyList() {
      forall j | 0 <= j < |m.lists|
        ensures m.Used(j) <==> m.lists[j] != []
      {
        assert m.ListOk(j) && m.NoEmptyList();
      }
    }
  }

  /// Removal by next hop frees exactly the routes through it, and the table forgets it.
  lemma NextHopIsForgotten(st: Routing, lladdr: Option<Address>)
    requires st.Consistent()
    ensures var m := RmByNextHop(st, lladdr); var a := LladdrOf(lladdr);
            && m.Consistent() && m.routes == st.routes && Get(m.tables, m.t, a).None?
            && forall r :: 0 <= r < |st.routes| && st.blocks[r] != 0 ==>
                 (m.blocks[r] == 0 <==> st.tables.addr[st.routes[r].nbr] == a)
  {
    var s, a := st.tables, LladdrOf(lladdr);
    GetMeaning(s, None, st.t, a);
    forall r | 0 <= r < |st.routes| && st.blocks[r] != 0
      ensures st.Used(st.routes[r].nbr) && r in st.lists[st.routes[r].nbr]
    {
      assert st.Linked(r) && st.ListOk(st.routes[r].nbr);
    }
    var g := Get(s, st.t, a);
    if g.Some? {
      RmListMeaning(st, g.value);
      var m := RmByNextHop(st, lladdr);
      GetMeaning(m.tables, None, st.t, a);
      BitOfWithBit(s.used[g.value], st.t, false, st.t);
      assert st.ListOk(g.value);
    }
  }

  /// One operation keeps every list non-empty exactly unless it is the add above.
  lemma ApplyKeepsListsIff(st: Routing, op: Op)
    requires st.Consistent() && st.NoEmptyList()
    ensures Apply(st, op).NoEmptyList() <==> !(op.AddRoute? && LeavesEmptyList(st, op.ip, op.lladdr))
  {
    match op {
      case AddRoute(ip, length, lladdr) => AddKeepsListsIff(st, ip, length, lladdr);
      case RmRoute(r) =>
        if r < |st.routes| && st.blocks[r] != 0 {
          RmKeepsConsistent(st, r);
        }
      case RmNextHop(lladdr) =>
        var g := Get(st.tables, st.t, LladdrOf(lladdr));
        if g.Some? {
          RmListKeepsConsistent(st, g.value);
        }
      case OtherTable(o) =>
        if o.t != st.t {
          OtherKeepsLists(st, o);
        }
    }
  }

  lemma OtherKeepsLists(st: Routing, o: NT.Op)
    requires st.Consistent() && st.NoEmptyList() && o.t != st.t
    ensures ApplyOther(st, o).NoEmptyList()
  {
    if o.OpAdd? {
      NbrAddKeeps(st, o.t, o.a);
    } else {
      OtherOpKeeps(st, o);
    }
  }

  function Run(st: Routing, ops: seq<Op>): (m: Routing)
    requires st.Consistent()
    ensures m.Consistent()
    decreases |ops|
  {
    if ops == [] then st else Run(Apply(st, ops[0]), ops[1..])
  }

  /// No add of the run fails for want of route memory after entering a neighbour.
  predicate MemorySuffices(st: Routing, ops: seq<Op>)
    requires st.Consistent()
    decreases |ops|
  {
    ops != [] ==>
      && !(ops[0].AddRoute? && LeavesEmptyList(st, ops[0].ip, ops[0].lladdr))
      && MemorySuffices(Apply(st, ops[0]), ops[1..])
  }

  /// Over every run of adds, removals and operations on other tables, evictions included,
  /// walking over the table visits each route once and counts `num_routes`, as long as no add
  /// runs out of memory in that way.
  lemma {:induction false} RunsShowEveryRoute(st: Routing, ops: seq<Op>)
    requires st.Consistent() && st.NoEmptyList() && MemorySuffices(st, ops)
    ensures var m := Run(st, ops);
            && m.NoEmptyList() && AllVisible(m) && Distinct(Visible(m))
            && |Visible(m)| == m.num == InUse(m.blocks) == Total(m.lists)
    decreases |ops|
  {
    if ops == [] {
      NoEmptyListShowsAll(st);
      WalkCountsRoutes(st);
      NeighboursAreUsed(st);
      VisibleIsDistinct(st, NbrsInOrder(st));
    } else {
      ApplyKeepsListsIff(st, ops[0]);
      RunsShowEveryRoute(Apply(st, ops[0]), ops[1..]);
    }
  }

  lemma {:induction false} UsedKeysInOrder(s: Tables, t: TableIndex, keys: seq<nat>, p: nat, q: nat)
      returns (x: nat, y: nat)
    requires s.Shape() && InRange(keys, s.N()) && p < q < |keys|
    requires Bit(s.used[keys[p]], t) && Bit(s.used[keys[q]], t)
    ensures x < y < |UsedKeys(s, t, keys)| && UsedKeys(s, t, keys)[x] == keys[p] && UsedKeys(s, t, keys)[y] == keys[q]
  {
    if p > 0 {
      x, y := UsedKeysInOrder(s, t, keys[1..], p - 1, q - 1);
      if Bit(s.used[keys[0]], t) {
        x, y := x + 1, y + 1;
      }
    } else {
      UsedKeysMeaning(s, t, keys[1..]);
      assert keys[q] == keys[1..][q - 1];
      x := 0;
      var rest := UsedKeys(s, t, keys[1..]);
      var z :| 0 <= z < |rest| && rest[z] == keys[q];
      y := z + 1;
    }
  }

  /// The add that runs out of memory hides routes as soon as a neighbour with routes is listed
  /// after the one it entered.
  lemma EmptyListHides(st: Routing, ip: Ip, length: PrefixLength, a: Address, p: nat, q: nat)
    requires st.Consistent() && st.NoEmptyList() && LeavesEmptyList(st, ip, Some(a))
    requires p < q < |st.tables.keys| && st.tables.addr[st.tables.keys[p]] == a && st.Used(st.tables.keys[q])
    ensures var m := RouteAdded(st, ip, length, Some(a)).0;
            m.Consistent() && !AllVisible(m) && |Visible(m)| < m.num
  {
    var m := RouteAdded(st, ip, length, Some(a)).0;
    var i, j := st.tables.keys[p], st.tables.keys[q];
    AddKeepsConsistent(st, ip, length, Some(a));
    IndexOfMeaning(st.tables, st.tables.keys, a);
    assert i in st.tables.keys;
    assert IndexOf(st.tables, st.tables.keys, a) == Some(i);
    AlreadyEmpty(st, a);
    assert m.tables == Use(st.tables, st.t, i) && m.lists == st.lists;
    UseUsed(st.tables, st.t, i, st.t);
    assert m.Used(i) && m.Used(j);
    var x, y := UsedKeysInOrder(m.tables, m.t, m.tables.keys, p, q);
    NeighboursAreUsed(m);
    AllVisibleIffNoGap(m);
    assert !NoGap(m, NbrsInOrder(m));
    WalkCountsRoutes(m);
  }

  // ------------------------------------------- a table where that happens

  /// Two neighbours and memory for one route. Table 1 enters the neighbour 7, then a route to
  /// `ip` is added by way of 8.
  const NO_ITEMS: seq<seq<int>> := [[0, 0], [0, 0], [0, 0], [0, 0], [0, 0], [0, 0], [0, 0], [0, 0]]
  const TABLES_0 := Tables([0, 0], [], [0, 0], [0, 0], [0, 0], NO_ITEMS)
  const TABLES_1 := Tables([1, 0], [0], [7, 0], [2, 0], [0, 0], NO_ITEMS)
  const TABLES_2 := Tables([1, 1], [0, 1], [7, 8], [2, 1], [0, 0], NO_ITEMS)

  function SmallTable(ip: Ip): Routing {
    Routing(TABLES_0, 0, [[], []], [Route(0, ip, 0)], [0], 0)
  }

  function FullTable(ip: Ip, length: PrefixLength): Routing {
    Routing(TABLES_2, 0, [[], [0]], [Route(1, ip, length)], [1], 1)
  }

  function FillingOps(ip: Ip, length: PrefixLength): seq<Op> {
    [OtherTable(OpAdd(1, 7)), AddRoute(ip, length, Some(8))]
  }

  lemma ItemsStay(t: TableIndex, i: nat)
    requires i < 2
    ensures NO_ITEMS[t := NO_ITEMS[t][i := 0]] == NO_ITEMS
  {
    assert NO_ITEMS[t] == [0, 0] && [0, 0][i := 0] == [0, 0];
  }

  lemma SmallTableIsOk(ip: Ip)
    ensures SmallTable(ip).Consistent() && SmallTable(ip).NoEmptyList()
  {
  }

  lemma FirstNeighbour(ip: Ip)
    requires SmallTable(ip).Consistent()
    ensures NbrAdd(SmallTable(ip), 1, 7).0 == SmallTable(ip).(tables := TABLES_1)
  {
    var st := SmallTable(ip);
    var u := TABLES_0.(blocks := [1, 0]);
    assert [0, 0][0 := 1] == [1, 0];
    assert NbrAllocate(st) == (st.(tables := u), Some(0));
    FirstEntry(u);
  }

  lemma FirstEntry(u: Tables)
    requires u == TABLES_0.(blocks := [1, 0])
    ensures Use(Enlist(u, 0, 7), 1, 0) == TABLES_1
  {
    ItemsStay(1, 0);
    assert Without([], 0) + [0] == [0];
    assert [0, 0][0 := 7] == [7, 0];
    assert WithBit(0, 1, true) == 2 && [0, 0][0 := 2] == [2, 0];
  }

  lemma SecondNeighbour(ip: Ip)
    requires SmallTable(ip).(tables := TABLES_1).Consistent()
    ensures var st := SmallTable(ip).(tables := TABLES_1);
            && Get(TABLES_1, 0, 8).None?
            && NbrAdd(st, 0, 8) == (st.(tables := TABLES_2), Some(1))
  {
    var st := SmallTable(ip).(tables := TABLES_1);
    assert IndexOf(TABLES_1, [0], 8) == IndexOf(TABLES_1, [], 8) == None;
    assert FirstFree([1, 0], 0) == FirstFree([1, 0], 1) == Some(1);
    assert [1, 0][1 := 1] == [1, 1];
    var u := TABLES_1.(blocks := [1, 1]);
    assert NbrAllocate(st) == (st.(tables := u), Some(1));
    SecondEntry(u);
  }

  lemma SecondEntry(u: Tables)
    requires u == TABLES_1.(blocks := [1, 1])
    ensures Use(Enlist(u, 1, 8), 0, 1) == TABLES_2
  {
    ItemsStay(0, 1);
    assert Without([0], 1) == [0] && [0] + [1] == [0, 1];
    assert [7, 0][1 := 8] == [7, 8];
    assert WithBit(0, 0, true) == 1 && [2, 0][1 := 1] == [2, 1];
  }

  lemma AddedBy(st: Routing, ip: Ip, length: PrefixLength, a: Address, w: Routing, k: nat, f: nat)
    requires st.Consistent() && Lookup(st, ip).None? && Get(st.tables, st.t, a).None?
    requires w.Shape() && k < |w.lists| && w.lists[k] == [] && NbrAdd(st, st.t, a) == (w, Some(k))
    requires FirstFree(w.blocks, 0) == Some(f)
    ensures RouteAdded(st, ip, length, Some(a)) == (Link(w, f, k, ip, length), Some(f))
  {
    assert w.lists[k := []] == w.lists;
  }

  lemma RouteFills(ip: Ip, length: PrefixLength)
    requires SmallTable(ip).(tables := TABLES_1).Consistent()
    ensures var st := SmallTable(ip).(tables := TABLES_1);
            && !LeavesEmptyList(st, ip, Some(8))
            && RouteAdded(st, ip, length, Some(8)).0 == FullTable(ip, length)
  {
    var st := SmallTable(ip).(tables := TABLES_1);
    var w := st.(tables := TABLES_2);
    SecondNeighbour(ip);
    NothingVisible(st);
    assert FirstFree([0], 0) == Some(0);
    AddedBy(st, ip, length, 8, w, 1, 0);
    LinkFills(ip, length);
  }

  lemma LinkFills(ip: Ip, length: PrefixLength)
    ensures Link(SmallTable(ip).(tables := TABLES_2), 0, 1, ip, length) == FullTable(ip, length)
  {
    assert Without([], 0) + [0] == [0];
  }

  lemma FirstOpFills(ip: Ip)
    ensures SmallTable(ip).Consistent() && SmallTable(ip).NoEmptyList()
    ensures var m := Apply(SmallTable(ip), OtherTable(OpAdd(1, 7)));
            m == SmallTable(ip).(tables := TABLES_1) && m.NoEmptyList()
  {
    SmallTableIsOk(ip);
    FirstNeighbour(ip);
    ApplyKeepsListsIff(SmallTable(ip), OtherTable(OpAdd(1, 7)));
    OtherAdd(SmallTable(ip), 1, 7);
  }

  lemma OtherAdd(st: Routing, u: TableIndex, a: Address)
    requires st.Consistent() && u != st.t
    ensures Apply(st, OtherTable(OpAdd(u, a))) == NbrAdd(st, u, a).0
  {
  }

  lemma TableFills(ip: Ip, length: PrefixLength)
    ensures SmallTable(ip).Consistent() && SmallTable(ip).NoEmptyList()
    ensures Run(SmallTable(ip), FillingOps(ip, length)) == FullTable(ip, length)
    ensures FullTable(ip, length).NoEmptyList()
  {
    FirstOpFills(ip);
    RouteFills(ip, length);
    var s1, op := SmallTable(ip).(tables := TABLES_1), AddRoute(ip, length, Some(8));
    assert Apply(s1, op) == RouteAdded(s1, ip, length, Some(8)).0;
    ApplyKeepsListsIff(s1, op);
    RunTwo(SmallTable(ip), OtherTable(OpAdd(1, 7)), op);
  }

  lemma RunTwo(st: Routing, a: Op, b: Op)
    requires st.Consistent()
    ensures Run(st, [a, b]) == Apply(Apply(st, a), b)
  {
    assert [a, b][1..] == [b] && [b][1..] == [];
    assert Run(Apply(st, a), [b]) == Run(Apply(Apply(st, a), b), []);
  }

  lemma NothingVisible(st: Routing)
    requires st.Consistent() && forall i :: 0 <= i < |st.lists| ==> st.lists[i] == []
    ensures Visible(st) == []
  {
  }

  /// There the failing add is at hand: after it the only route is hidden.
  lemma EmptyListIsReachable(ip: Ip, other: Ip)
    requires ip != other
    ensures SmallTable(ip).Consistent() && SmallTable(ip).NoEmptyList()
    ensures var st := Run(SmallTable(ip), FillingOps(ip, 128));
            var m := RouteAdded(st, other, 128, Some(7)).0;
            && LeavesEmptyList(st, other, Some(7)) && m.Consistent() && !m.NoEmptyList()
            && !AllVisible(m) && |Visible(m)| < m.num
  {
    TableFills(ip, 128);
    var st := FullTable(ip, 128);
    FullTableLeavesEmptyList(ip, other);
    EmptyListHides(st, other, 128, 7, 0, 1);
    AddKeepsListsIff(st, other, 128, Some(7));
  }

  lemma FullTableLeavesEmptyList(ip: Ip, other: Ip)
    requires ip != other && FullTable(ip, 128).Consistent()
    ensures LeavesEmptyList(FullTable(ip, 128), other, Some(7)) && FullTable(ip, 128).Used(1)
  {
    var st := FullTable(ip, 128);
    OnlyRoute(ip, 128);
    assert ip[..16] == ip && other[..16] == other;
    assert Best(st, [0], other) == None;
    assert IndexOf(TABLES_2, [0, 1], 7) == Some(0);
    assert !Bit(2, 0) && Bit(1, 0);
  }

  lemma OnlyRoute(ip: Ip, length: PrefixLength)
    requires FullTable(ip, length).Consistent()
    ensures Visible(FullTable(ip, length)) == [0]
  {
    var st := FullTable(ip, length);
    assert !Bit(2, 0) && Bit(1, 0);
    assert UsedKeys(TABLES_2, 0, [1]) == [1];
    assert UsedKeys(TABLES_2, 0, [0, 1]) == [1] by {
      assert [0, 1][1..] == [1];
    }
    assert NbrsInOrder(st) == [1];
    assert VisibleFrom(st, [1]) == [0];
  }

  /// There, too, asking for another next hop changes nothing.
  lemma OldNextHopIsReachable(ip: Ip, a: Address)
    requires a != 8
    ensures SmallTable(ip).Consistent()
    ensures var st := Run(SmallTable(ip), FillingOps(ip, 128));
            var (m, r) := RouteAdded(st, ip, 128, Some(a));
            && r == Some(0) && m.Shape() && |m.routes| == 1 && m.routes[0].ip == ip
            && m.tables.addr[m.routes[0].nbr] == 8
  {
    TableFills(ip, 128);
    OnlyRoute(ip, 128);
    assert Best(FullTable(ip, 128), [0], ip) == Some(0);
  }

  /// And there a host route added under a /64 takes the route from the rest of the /64.
  lemma NarrowedRouteIsReachable(ip: Ip, d: Ip)
    requires d != ip && PrefixMatch(d, ip, 64)
    ensures SmallTable(ip).Consistent()
    ensures var st := Run(SmallTable(ip), FillingOps(ip, 64));
            var m := RouteAdded(st, ip, 128, Some(8)).0;
            && m.Consistent() && Lookup(st, d) == Some(0) && Lookup(m, d) == None && Lookup(m, ip) == Some(0)
  {
    TableFills(ip, 64);
    OnlyRoute(ip, 64);
    assert ip[..16] == ip && d[..16] == d;
    NarrowedAlone(FullTable(ip, 64), ip, d, 8);
  }

  lemma LookupOfOne(st: Routing, d: Ip)
    requires st.Consistent() && Visible(st) == [0] && 0 < |st.routes|
    ensures Lookup(st, d) == if PrefixMatch(d, st.routes[0].ip, st.routes[0].length) then Some(0) else None
  {
    assert [0][..0] == [];
  }

  lemma NarrowedAlone(st: Routing, ip: Ip, d: Ip, a: Address)
    requires st.Consistent() && Visible(st) == [0] && 0 < |st.routes|
    requires st.routes[0].ip == ip && st.routes[0].length == 64
    requires PrefixMatch(d, ip, 64) && !PrefixMatch(d, ip, 128)
    ensures var m := RouteAdded(st, ip, 128, Some(a)).0;
            && m.Consistent() && Lookup(st, d) == Some(0) && Lookup(m, d) == None && Lookup(m, ip) == Some(0)
  {
    LookupOfOne(st, d);
    LookupOfOne(st, ip);
    OverwriteShows(st, ip, 128, a);
    LookupOfOne(RouteAdded(st, ip, 128, Some(a)).0, d);
    LookupOfOne(RouteAdded(st, ip, 128, Some(a)).0, ip);
  }

  // ------------------------------------------------------------ the module

  lemma BestStep(st: Routing, v: seq<nat>, p: nat, addr: Ip)
    requires st.Shape() && InRange(v, |st.routes|) && p < |v|
    ensures var before := Best(st, v[..p], addr);
            var longest := if before.Some? then st.routes[before.value].length else 0;
            Best(st, v[..p + 1], addr) == if st.routes[v[p]].length >= longest && Matches(st, v[p], addr) then Some(v[p]) else before
  {
    assert v[..p + 1][..p] == v[..p];
  }

  lemma {:induction false} NothingInUse(count: seq<nat>)
    requires forall i :: 0 <= i < |count| ==> count[i] == 0
    ensures InUse(count) == 0
  {
    if count != [] {
      NothingInUse(count[1..]);
    }
  }

  lemma {:induction false} NothingListed(lists: seq<seq<nat>>)
    requires forall i :: 0 <= i < |lists| ==> lists[i] == []
    ensures Total(lists) == 0
  {
    if lists != [] {
      NothingListed(lists[1..]);
    }
  }

  /// The route lists, the pool of routes and the counter. The neighbour tables are held as a
  /// value; `NbrTable.Neighbours` is their form in memory.
  class Router {
    const t: TableIndex
    const lists: array<seq<nat>>
    const route: array<Route>
    const mem: Pool
    var tables: Tables
    var numRoutes: int

    ghost predicate Valid()
      reads this, route
    {
      var a: object, b: object, c: object := lists, route, mem.count;
      && a != b && a != c && b != c
      && tables.Shape() && lists.Length == tables.N() && route.Length == mem.count.Length
      && (forall r :: 0 <= r < route.Length ==> route[r].nbr < lists.Length)
    }

    ghost function Value(): (st: Routing)
      requires Valid()
      reads this, lists, route, mem.count
      ensures st.Shape()
    {
      Routing(tables, t, lists[..], route[..], mem.count[..], numRoutes)
    }

    constructor (t: TableIndex, tables: Tables, num: nat)
      requires tables.Inv() && (forall i :: 0 <= i < tables.N() ==> !Bit(tables.used[i], t)) && tables.N() > 0
      ensures Valid() && fresh(lists) && fresh(route) && fresh(mem) && fresh(mem.count)
      ensures this.t == t && this.tables == tables && route.Length == num && numRoutes == 0
      ensures Value().Consistent() && Value().NoEmptyList()
    {
      this.t := t;
      this.tables := tables;
      lists := new seq<nat>[tables.N()](_ => []);
      route := new Route[num](_ => Route(0, seq(16, _ => 0), 0));
      mem := new Pool(num);
      numRoutes := 0;
      new;
      NothingInUse(mem.count[..]);
      NothingListed(lists[..]);
    }

    method Head() returns (r: Option<nat>)
      requires Valid()
      ensures r == RouteHead(Value())
    {
      var k := KeyAt(tables.keys, FirstUsed(tables, t, 0));
      r := None;
      if k.Some? {
        r := KeyAt(lists[k.value], 0);
      }
    }

    method Next(r: nat) returns (n: Option<nat>)
      requires Valid() && r < route.Length && route[r].nbr in tables.keys
      ensures n == RouteNext(Value(), r)
    {
      var i := route[r].nbr;
      n := After(lists[i], r);
      if n.None? {
        var k := KeyAt(tables.keys, FirstUsed(tables, t, PositionOf(tables.keys, i) + 1));
        if k.Some? {
          n := KeyAt(lists[k.value], 0);
        }
      }
    }

    method RouteLookup(addr: Ip) returns (found: Option<nat>)
      requires Valid() && Value().Consistent()
      ensures found == Lookup(Value(), addr)
    {
      ghost var st := Value();
      ghost var v := Visible(st);
      assert NbrsInOrder(st)[0..] == NbrsInOrder(st);
      VisibleInRange(st);
      HeadIsVisible(st);
      found := None;
      var longest: PrefixLength := 0;
      var r := Head();
      ghost var p := 0;
      while r.Some?
        invariant p <= |v| && r == KeyAt(v, p) && found == Best(st, v[..p], addr)
        invariant longest == if found.Some? then st.routes[found.value].length else 0
        decreases |v| - p
      {
        BestStep(st, v, p, addr);
        NextIsVisible(st, 0, p);
        if route[r.value].length >= longest && PrefixMatch(addr, route[r.value].ip, route[r.value].length) {
          longest := route[r.value].length;
          found := r;
        }
        r := Next(r.value);
        p := p + 1;
      }
      assert v[..p] == v;
    }

    method RouteRm(r: nat)
      requires Valid() && r < route.Length
      modifies this`tables, this`numRoutes, lists, mem.count
      ensures Valid() && Value() == Rm(old(Value()), r)
    {
      var i := route[r].nbr;
      lists[i] := Without(lists[i], r);
      if lists[i] == [] {
        tables := Remove(tables, t, i);
      }
      var c := mem.Free(r);
      numRoutes := numRoutes - 1;
    }

    method RmRoutelist(i: nat)
      requires Valid() && Value().Consistent() && i < lists.Length
      modifies this`tables, this`numRoutes, lists, mem.count
      ensures Valid() && Value() == RmList(old(Value()), i)
    {
      while lists[i] != []
        invariant Valid() && Value().Consistent()
        invariant RmList(Value(), i) == RmList(old(Value()), i)
        decreases |lists[i]|
      {
        var r := FirstRoute(Value(), i);
        RouteRm(lists[i][0]);
      }
      tables := Remove(tables, t, i);
    }

    /// `nbr_table_allocate` with the callback of this module.
    method AllocateNeighbour() returns (key: Option<nat>)
      requires Valid() && Value().Consistent()
      modifies this`tables, this`numRoutes, lists, mem.count
      ensures Valid() && (Value(), key) == NbrAllocate(old(Value()))
    {
      key := FirstFree(tables.blocks, 0);
      if key.Some? {
        tables := tables.(blocks := tables.blocks[key.value := 1]);
        return;
      }
      key := Victim(tables, tables.keys);
      if key.Some? {
        ghost var st := Value();
        CallbackClears(st, key.value);
        if Bit(tables.used[key.value], t) {
          RmRoutelist(key.value);
        }
        tables := Evict(tables, key.value);
      }
    }

    method AddLladdr(u: TableIndex, a: Address) returns (i: Option<nat>)
      requires Valid() && Value().Consistent() && (u == t ==> Get(tables, u, a).None?)
      modifies this`tables, this`numRoutes, lists, mem.count
      ensures Valid() && (Value(), i) == NbrAdd(old(Value()), u, a)
    {
      i := IndexOf(tables, tables.keys, a);
      if i.None? {
        i := AllocateNeighbour();
        if i.None? {
          return;
        }
        tables := Enlist(tables, i.value, a);
      }
      tables := Use(tables, u, i.value);
    }

    /// The next hop's entry, with an empty list if it is new.
    method NextHopEntry(a: Address) returns (k: Option<nat>)
      requires Valid() && Value().Consistent()
      modifies this`tables, this`numRoutes, lists, mem.count
      ensures Valid() && (Value(), k) == AddNeighbour(old(Value()), a)
    {
      k := Get(tables, t, a);
      if k.None? {
        ghost var st := Value();
        NbrAddKeeps(st, t, a);
        k := AddLladdr(t, a);
        if k.Some? {
          AlreadyEmpty(st, a);
          lists[k.value] := [];
        }
      }
    }

    method NewRoute(k: nat, ip: Ip, length: PrefixLength) returns (r: Option<nat>)
      requires Valid() && k < lists.Length
      modifies this`numRoutes, lists, mem.count, route
      ensures Valid() && r == FirstFree(old(mem.count[..]), 0)
      ensures Value() == if r.Some? then Link(old(Value()), r.value, k, ip, length) else old(Value())
    {
      r := mem.Alloc();
      if r.Some? {
        lists[k] := Without(lists[k], r.value) + [r.value];
        numRoutes := numRoutes + 1;
        route[r.value] := Route(k, ip, length);
      }
    }

    method RouteAdd(ip: Ip, length: PrefixLength, lladdr: Option<Address>) returns (r: Option<nat>)
      requires Valid() && Value().Consistent()
      modifies this`tables, this`numRoutes, lists, mem.count, route
      ensures Valid() && (Value(), r) == RouteAdded(old(Value()), ip, length, lladdr)
    {
      if lladdr.None? {
        return None;
      }
      VisibleInRange(Value());
      r := RouteLookup(ip);
      if r.Some? {
        route[r.value] := route[r.value].(ip := ip, length := length);
        return;
      }
      var k := NextHopEntry(lladdr.value);
      if k.Some? {
        r := NewRoute(k.value, ip, length);
      }
    }

    method RouteRmByNexthop(lladdr: Option<Address>)
      requires Valid() && Value().Consistent()
      modifies this`tables, this`numRoutes, lists, mem.count
      ensures Valid() && Value() == RmByNextHop(old(Value()), lladdr)
    {
      var i := Get(tables, t, LladdrOf(lladdr));
      if i.Some? {
        RmRoutelist(i.value);
      }
    }
  }

  // -------------------------------------------------------- default routers

  datatype Defrt = Defrt(ip: Ip, infinite: bool, expired: bool)

  function Unexpired(l: seq<Defrt>): (r: seq<Defrt>)
    ensures |r| <= |l|
  {
    if l == [] then [] else (if !l[0].infinite && l[0].expired then [] else [l[0]]) + Unexpired(l[1..])
  }

  lemma {:induction false} UnexpiredMeaning(l: seq<Defrt>, d: Defrt)
    ensures d in Unexpired(l) <==> d in l && (d.infinite || !d.expired)
  {
    if l != [] {
      UnexpiredMeaning(l[1..], d);
      assert d in l <==> d == l[0] || d in l[1..];
    }
  }

  lemma {:induction false} UnexpiredOfConcat(a: seq<Defrt>, b: seq<Defrt>)
    ensures Unexpired(a + b) == Unexpired(a) + Unexpired(b)
  {
    if a == [] {
      assert a + b == b;
    } else {
      assert (a + b)[0] == a[0] && (a + b)[1..] == a[1..] + b;
      UnexpiredOfConcat(a[1..], b);
      assert Unexpired(a + b) == (if !a[0].infinite && a[0].expired then [] else [a[0]]) + (Unexpired(a[1..]) + Unexpired(b));
    }
  }

  /// `uip_ds6_defrt_periodic`: the scan starts over after each removal, and still ends, with
  /// exactly the expired routers gone.
  method DefrtPeriodic(list: seq<Defrt>) returns (rest: seq<Defrt>)
    ensures rest == Unexpired(list)
  {
    rest := list;
    var d := 0;
    while d < |rest|
      invariant d <= |rest| && Unexpired(rest) == Unexpired(list) && Unexpired(rest[..d]) == rest[..d]
      decreases |rest|, |rest| - d
    {
      assert rest == rest[..d] + [rest[d]] + rest[d + 1..];
      UnexpiredOfConcat(rest[..d] + [rest[d]], rest[d + 1..]);
      UnexpiredOfConcat(rest[..d], [rest[d]]);
      if !rest[d].infinite && rest[d].expired {
        UnexpiredOfConcat(rest[..d], rest[d + 1..]);
        rest := rest[..d] + rest[d + 1..];
        d := 0;
      } else {
        assert rest[..d + 1] == rest[..d] + [rest[d]];
        d := d + 1;
      }
    }
    assert rest[..d] == rest;
  }
}
