/// The neighbour tables (`nbr-table.c`) with their block pool (`memb.c`): up to eight tables
/// share one list of link addresses; each neighbour has a bitmap of the tables that use it and
/// one of the tables that lock it.

module NbrTable {
  import opened Basics
  import opened ContikiList
  import opened Memb

  const MAX_NUM_TABLES: nat := 8

  type Address = nat
  const RIMEADDR_NULL: Address := 0

  type TableIndex = t: nat | t < MAX_NUM_TABLES

  // --------------------------------------------------------------- bitmaps

  /// `1 << table->index`
  function OneBit(t: TableIndex): bv8 {
    if t == 0 then 1 else if t == 1 then 2 else if t == 2 then 4 else if t == 3 then 8
    else if t == 4 then 16 else if t == 5 then 32 else if t == 6 then 64 else 128
  }

  predicate Bit(b: bv8, t: TableIndex) {
    b & OneBit(t) != 0
  }

  function WithBit(b: bv8, t: TableIndex, value: bool): bv8 {
    if value then b | OneBit(t) else b & !OneBit(t)
  }

  lemma BitOfWithBit(b: bv8, t: TableIndex, value: bool, u: TableIndex)
    ensures Bit(WithBit(b, t, value), u) == if u == t then value else Bit(b, u)
  {
  }

  lemma NoBits(b: bv8)
    ensures b == 0 <==> forall t: TableIndex :: !Bit(b, t)
  {
    if b != 0 {
      assert Bit(b, 0) || Bit(b, 1) || Bit(b, 2) || Bit(b, 3)
          || Bit(b, 4) || Bit(b, 5) || Bit(b, 6) || Bit(b, 7);
    }
  }

  /// The tables among the first `n` whose bit is set.
  function Users(b: bv8, n: nat): set<TableIndex>
    requires n <= MAX_NUM_TABLES
  {
    set t: TableIndex | t < n && Bit(b, t)
  }

  lemma OneMoreUser(b: bv8, n: nat)
    requires n < MAX_NUM_TABLES
    ensures |Users(b, n + 1)| == |Users(b, n)| + (if Bit(b, n) then 1 else 0)
  {
    if Bit(b, n) {
      assert Users(b, n + 1) == Users(b, n) + {n};
    } else {
      assert Users(b, n + 1) == Users(b, n);
    }
  }

  function Shifted(b: bv8, i: nat): bv8 {
    if i == 0 then b else Shifted(b, i - 1) >> 1
  }

  lemma ShiftedTwoToSeven(b: bv8)
    ensures Shifted(b, 2) == b >> 2 && Shifted(b, 3) == b >> 3 && Shifted(b, 4) == b >> 4
    ensures Shifted(b, 5) == b >> 5 && Shifted(b, 6) == b >> 6 && Shifted(b, 7) == b >> 7
    ensures Shifted(b, 8) == 0
  {
    assert Shifted(b, 1) == Shifted(b, 0) >> 1;
    assert Shifted(b, 2) == Shifted(b, 1) >> 1 == b >> 2;
    assert Shifted(b, 3) == Shifted(b, 2) >> 1 == b >> 3;
    assert Shifted(b, 4) == Shifted(b, 3) >> 1 == b >> 4;
    assert Shifted(b, 5) == Shifted(b, 4) >> 1 == b >> 5;
    assert Shifted(b, 6) == Shifted(b, 5) >> 1 == b >> 6;
    assert Shifted(b, 7) == Shifted(b, 6) >> 1 == b >> 7;
    assert Shifted(b, 8) == Shifted(b, 7) >> 1;
  }

  /// What is left after `i` shifts shows bit `i`, and is zero only if no higher bit is set.
  lemma ShiftedShowsBit(b: bv8, i: nat)
    requires i < MAX_NUM_TABLES
    ensures Shifted(b, i) & 1 == 1 <==> Bit(b, i)
  {
    ShiftedTwoToSeven(b);
  }

  lemma {:induction false} NothingLeft(b: bv8, i: nat)
    requires i <= MAX_NUM_TABLES && Shifted(b, i) == 0
    ensures Users(b, i) == Users(b, MAX_NUM_TABLES)
    decreases MAX_NUM_TABLES - i
  {
    if i < MAX_NUM_TABLES {
      ShiftedShowsBit(b, i);
      NothingLeft(b, i + 1);
      assert Users(b, i + 1) == Users(b, i);
    }
  }

  /// The loop that counts the tables using a neighbour.
  method CountUsers(b: bv8) returns (count: nat)
    ensures count == |Users(b, MAX_NUM_TABLES)|
  {
    count := 0;
    var used := b;
    ghost var i := 0;
    while used != 0
      invariant i <= MAX_NUM_TABLES && used == Shifted(b, i)
      invariant count == |Users(b, i)|
      decreases MAX_NUM_TABLES - i
    {
      ShiftedTwoToSeven(b);
      ShiftedShowsBit(b, i);
      OneMoreUser(b, i);
      if used & 1 == 1 {
        count := count + 1;
      }
      used := used >> 1;
      i := i + 1;
    }
    NothingLeft(b, i);
  }

  // ------------------------------------------------------------ the tables

  predicate InRange(keys: seq<nat>, n: nat) {
    forall p :: 0 <= p < |keys| ==> keys[p] < n
  }

  /// `blocks` are the reference counts of the block pool, `keys` the key list in insertion
  /// order, `addr` the address in each key block, `items[t][i]` the item of table t for
  /// neighbour i, with 0 for an item of zero bytes.
  datatype Tables = Tables(
    blocks: seq<nat>, keys: seq<nat>, addr: seq<Address>,
    used: seq<bv8>, locked: seq<bv8>, items: seq<seq<int>>)
  {
    function N(): nat {
      |addr|
    }

    predicate Shape() {
      && |blocks| == |used| == |locked| == N()
      && |items| == MAX_NUM_TABLES
      && (forall t :: 0 <= t < MAX_NUM_TABLES ==> |items[t]| == N())
      && InRange(keys, N())
    }

    /// The listed keys are exactly the allocated blocks, their addresses differ, and nothing
    /// else is in use; `hole` is a block allocated but not listed yet.
    predicate InvExcept(hole: Option<nat>) {
      && Shape()
      && Distinct(keys)
      && (forall i :: 0 <= i < N() ==> (blocks[i] != 0 <==> i in keys || hole == Some(i)))
      && (forall j, k :: j in keys && k in keys && j != k ==> addr[j] != addr[k])
      && (forall i :: 0 <= i < N() && i !in keys ==> used[i] == 0)
      && (hole.Some? ==> hole.value !in keys && hole.value < N())
    }

    predicate Inv() {
      InvExcept(None)
    }

    function UserCount(i: nat): nat
      requires Shape() && i < N()
    {
      |Users(used[i], MAX_NUM_TABLES)|
    }
  }

  /// `index_from_lladdr` on the keys of a list.
  function IndexOf(s: Tables, keys: seq<nat>, a: Address): (r: Option<nat>)
    requires s.Shape() && InRange(keys, s.N())
    ensures r.Some? ==> r.value < s.N()
  {
    if keys == [] then None
    else if s.addr[keys[0]] == a then Some(keys[0])
    else IndexOf(s, keys[1..], a)
  }

  lemma {:induction false} IndexOfMeaning(s: Tables, keys: seq<nat>, a: Address)
    requires s.Shape() && InRange(keys, s.N())
    ensures match IndexOf(s, keys, a)
            case Some(i) => i in keys && s.addr[i] == a
            case None => forall k :: k in keys ==> s.addr[k] != a
  {
    if keys != [] && s.addr[keys[0]] != a {
      IndexOfMeaning(s, keys[1..], a);
    }
  }

  /// The key the replacement scan settles on.
  function Victim(s: Tables, keys: seq<nat>): (r: Option<nat>)
    requires s.Shape() && InRange(keys, s.N())
    ensures r.Some? ==> r.value in keys && r.value < s.N()
  {
    if keys == [] then None
    else
      var before := Victim(s, keys[..|keys| - 1]);
      var k := keys[|keys| - 1];
      if s.locked[k] == 0 && (before.None? || s.UserCount(k) < s.UserCount(before.value)) then Some(k)
      else before
  }

  lemma VictimStep(s: Tables, keys: seq<nat>, p: nat)
    requires s.Shape() && InRange(keys, s.N()) && p < |keys|
    ensures var before := Victim(s, keys[..p]);
            Victim(s, keys[..p + 1])
              == if s.locked[keys[p]] == 0 && (before.None? || s.UserCount(keys[p]) < s.UserCount(before.value))
                 then Some(keys[p]) else before
  {
    assert keys[..p + 1][..p] == keys[..p];
  }

  /// The replacement policy in its own words: never a locked neighbour; the fewest users;
  /// among equals the one inserted first.
  predicate IsVictim(s: Tables, keys: seq<nat>, p: nat)
    requires s.Shape() && InRange(keys, s.N())
  {
    && p < |keys| && s.locked[keys[p]] == 0
    && (forall q :: 0 <= q < |keys| && s.locked[keys[q]] == 0 ==> s.UserCount(keys[p]) <= s.UserCount(keys[q]))
    && (forall q :: 0 <= q < p && s.locked[keys[q]] == 0 ==> s.UserCount(keys[p]) < s.UserCount(keys[q]))
  }

  lemma VictimStays(s: Tables, keys: seq<nat>, n: nat, p: nat)
    requires s.Shape() && InRange(keys, s.N()) && n + 1 == |keys| && IsVictim(s, keys[..n], p)
    requires s.locked[keys[n]] == 0 ==> s.UserCount(keys[p]) <= s.UserCount(keys[n])
    ensures IsVictim(s, keys, p)
  {
    assert forall q :: 0 <= q < n ==> keys[..n][q] == keys[q];
  }

  lemma VictimChanges(s: Tables, keys: seq<nat>, n: nat, p: nat)
    requires s.Shape() && InRange(keys, s.N()) && n + 1 == |keys| && IsVictim(s, keys[..n], p)
    requires s.locked[keys[n]] == 0 && s.UserCount(keys[n]) < s.UserCount(keys[p])
    ensures IsVictim(s, keys, n)
  {
    forall q | 0 <= q < n && s.locked[keys[q]] == 0
      ensures s.UserCount(keys[n]) < s.UserCount(keys[q])
    {
      assert keys[..n][q] == keys[q];
    }
  }

  /// There is no victim exactly when every neighbour is locked by some table.
  lemma {:induction false} VictimMeaning(s: Tables, keys: seq<nat>) returns (p: nat)
    requires s.Shape() && InRange(keys, s.N())
    ensures if Victim(s, keys).Some? then IsVictim(s, keys, p) && keys[p] == Victim(s, keys).value
            else forall q :: 0 <= q < |keys| ==> s.locked[keys[q]] != 0
  {
    p := 0;
    if keys != [] {
      var n := |keys| - 1;
      p := VictimMeaning(s, keys[..n]);
      var before := Victim(s, keys[..n]);
      if before.None? {
        assert forall q :: 0 <= q < n ==> keys[..n][q] == keys[q];
        if s.locked[keys[n]] == 0 {
          p := n;
        }
      } else if s.locked[keys[n]] == 0 && s.UserCount(keys[n]) < s.UserCount(before.value) {
        VictimChanges(s, keys, n, p);
        p := n;
      } else {
        VictimStays(s, keys, n, p);
      }
    }
  }

  /// A neighbour nobody uses ends the scan early, without changing its outcome.
  lemma {:induction false} UnusedVictimIsFinal(s: Tables, keys: seq<nat>, p: nat)
    requires s.Shape() && InRange(keys, s.N()) && p <= |keys|
    requires Victim(s, keys[..p]).Some? && s.UserCount(Victim(s, keys[..p]).value) == 0
    ensures Victim(s, keys) == Victim(s, keys[..p])
    decreases |keys|
  {
    if p < |keys| {
      var n := |keys| - 1;
      assert keys[..n][..p] == keys[..p];
      UnusedVictimIsFinal(s, keys[..n], p);
    } else {
      assert keys[..p] == keys;
    }
  }

  lemma WithoutInRange(keys: seq<nat>, k: nat, n: nat)
    requires InRange(keys, n)
    ensures InRange(Without(keys, k), n)
  {
    assert forall p :: 0 <= p < |Without(keys, k)| ==> Without(keys, k)[p] in keys;
  }

  /// Taking key `k` out of the list.
  function Unlist(s: Tables, k: nat): (r: Tables)
    requires s.Shape()
    ensures r.Shape()
  {
    WithoutInRange(s.keys, k, s.N());
    s.(keys := Without(s.keys, k))
  }

  /// The removal of a victim: its used bits go and it leaves the list; its key block stays.
  function Evict(s: Tables, v: nat): (r: Tables)
    requires s.Shape() && v < s.N()
    ensures r.Shape()
  {
    Unlist(s.(used := s.used[v := 0]), v)
  }

  /// A key block for a new neighbour: a free one, or that of the victim.
  function AllocateKey(s: Tables): (r: (Tables, Option<nat>))
    requires s.Shape()
    ensures r.0.Shape() && r.0.N() == s.N()
    ensures r.1.Some? ==> r.1.value < s.N()
  {
    var f := FirstFree(s.blocks, 0);
    if f.Some? then (s.(blocks := s.blocks[f.value := 1]), f)
    else
      var v := Victim(s, s.keys);
      if v.Some? then (Evict(s, v.value), v) else (s, None)
  }

  /// `list_add` of key `k`, which also gets its address.
  function Enlist(s: Tables, k: nat, a: Address): (r: Tables)
    requires s.Shape() && k < s.N()
    ensures r.Shape()
  {
    var u := Unlist(s, k);
    u.(keys := u.keys + [k], addr := u.addr[k := a])
  }

  /// `nbr_table_add_lladdr`
  function Add(s: Tables, t: TableIndex, a: Address): (Tables, Option<nat>)
    requires s.Shape()
  {
    var i := IndexOf(s, s.keys, a);
    if i.Some? then (Use(s, t, i.value), i)
    else
      var (u, k) := AllocateKey(s);
      if k.None? then (u, None) else (Use(Enlist(u, k.value, a), t, k.value), k)
  }

  /// The item is cleared and its used bit set.
  function Use(s: Tables, t: TableIndex, i: nat): Tables
    requires s.Shape() && i < s.N()
  {
    s.(items := s.items[t := s.items[t][i := 0]], used := s.used[i := WithBit(s.used[i], t, true)])
  }

  /// `nbr_table_remove`, `nbr_table_lock`, `nbr_table_unlock` on the item with index `i`.
  function Remove(s: Tables, t: TableIndex, i: nat): Tables
    requires s.Shape() && i < s.N()
  {
    s.(used := s.used[i := WithBit(s.used[i], t, false)],
       locked := s.locked[i := WithBit(s.locked[i], t, false)])
  }

  function SetLock(s: Tables, t: TableIndex, i: nat, value: bool): Tables
    requires s.Shape() && i < s.N()
  {
    s.(locked := s.locked[i := WithBit(s.locked[i], t, value)])
  }

  /// `nbr_table_get_from_lladdr`
  function Get(s: Tables, t: TableIndex, a: Address): Option<nat>
    requires s.Shape()
  {
    var i := IndexOf(s, s.keys, a);
    if i.Some? && Bit(s.used[i.value], t) then i else None
  }

  // -------------------------------------------------- a family of finite maps

  function Addresses(s: Tables): set<Address>
    requires s.Shape()
  {
    set p | 0 <= p < |s.keys| :: s.addr[s.keys[p]]
  }

  /// Table `t` as its users see it: link addresses mapped to items.
  ghost function View(s: Tables, t: TableIndex): map<Address, int>
    requires s.Shape()
  {
    map a | a in Addresses(s) && Get(s, t, a).Some? :: s.items[t][Get(s, t, a).value]
  }

  lemma GetMeaning(s: Tables, hole: Option<nat>, t: TableIndex, a: Address)
    requires s.InvExcept(hole)
    ensures match Get(s, t, a)
            case Some(i) => i in s.keys && s.addr[i] == a && Bit(s.used[i], t)
            case None => forall i :: i in s.keys && s.addr[i] == a ==> !Bit(s.used[i], t)
    ensures a in Addresses(s) <==> exists i :: i in s.keys && s.addr[i] == a
  {
    IndexOfMeaning(s, s.keys, a);
    if i :| i in s.keys && s.addr[i] == a {
      var p :| 0 <= p < |s.keys| && s.keys[p] == i;
    }
  }

  lemma ViewAt(s: Tables, hole: Option<nat>, t: TableIndex, i: nat)
    requires s.InvExcept(hole) && i in s.keys && Bit(s.used[i], t)
    ensures s.addr[i] in View(s, t) && View(s, t)[s.addr[i]] == s.items[t][i]
  {
    GetMeaning(s, hole, t, s.addr[i]);
  }

  lemma InView(s: Tables, hole: Option<nat>, t: TableIndex, a: Address) returns (i: nat)
    requires s.InvExcept(hole) && a in View(s, t)
    ensures i in s.keys && Bit(s.used[i], t) && s.addr[i] == a && View(s, t)[a] == s.items[t][i]
  {
    GetMeaning(s, hole, t, a);
    i := Get(s, t, a).value;
  }

  /// The neighbours of table `t` in `m` are those in `s` without the addresses in `gone`.
  predicate SameUsers(s: Tables, m: Tables, t: TableIndex, gone: set<Address>)
    requires s.Shape() && m.Shape()
  {
    && (forall i :: i in m.keys && Bit(m.used[i], t) ==>
         i in s.keys && Bit(s.used[i], t) && m.addr[i] == s.addr[i] && s.addr[i] !in gone && m.items[t][i] == s.items[t][i])
    && (forall i :: i in s.keys && Bit(s.used[i], t) && s.addr[i] !in gone ==>
         i in m.keys && Bit(m.used[i], t))
  }

  lemma ViewFromAt(s: Tables, h: Option<nat>, m: Tables, g: Option<nat>, t: TableIndex, gone: set<Address>, a: Address)
    requires s.InvExcept(h) && m.InvExcept(g) && SameUsers(s, m, t, gone)
    ensures a in View(m, t) <==> a in View(s, t) && a !in gone
    ensures a in View(m, t) ==> View(m, t)[a] == View(s, t)[a]
  {
    if a in View(m, t) {
      var i := InView(m, g, t, a);
      ViewAt(s, h, t, i);
    } else if a in View(s, t) && a !in gone {
      var i := InView(s, h, t, a);
      ViewAt(m, g, t, i);
    }
  }

  lemma ViewFrom(s: Tables, h: Option<nat>, m: Tables, g: Option<nat>, t: TableIndex, gone: set<Address>)
    requires s.InvExcept(h) && m.InvExcept(g) && SameUsers(s, m, t, gone)
    ensures View(m, t) == View(s, t) - gone
  {
    var v, w := View(m, t), View(s, t);
    forall a: Address
      ensures a in v <==> a in w && a !in gone
      ensures a in v ==> v[a] == w[a]
    {
      ViewFromAt(s, h, m, g, t, gone, a);
    }
  }

  lemma UseRefines(s: Tables, t: TableIndex, i: nat)
    requires s.Inv() && i in s.keys
    ensures var m := Use(s, t, i);
            && m.Inv() && Addresses(m) == Addresses(s)
            && View(m, t) == View(s, t)[s.addr[i] := 0]
            && forall u: TableIndex :: u != t ==> View(m, u) == View(s, u)
    ensures Get(Use(s, t, i), t, s.addr[i]) == Some(i)
  {
    var m := Use(s, t, i);
    UseOwnTable(s, t, i);
    BitOfWithBit(s.used[i], t, true, t);
    GetMeaning(m, None, t, s.addr[i]);
    forall u: TableIndex | u != t
      ensures View(m, u) == View(s, u)
    {
      UseOtherTable(s, t, i, u);
    }
  }

  lemma UseOtherTable(s: Tables, t: TableIndex, i: nat, u: TableIndex)
    requires s.Inv() && i in s.keys && u != t
    ensures var m := Use(s, t, i); m.Inv() && View(m, u) == View(s, u)
  {
    BitOfWithBit(s.used[i], t, true, u);
    ViewFrom(s, None, Use(s, t, i), None, u, {});
    assert View(s, u) - {} == View(s, u);
  }

  lemma UseOwnTable(s: Tables, t: TableIndex, i: nat)
    requires s.Inv() && i in s.keys
    ensures var m := Use(s, t, i); m.Inv() && View(m, t) == View(s, t)[s.addr[i] := 0]
  {
    var v, w := View(Use(s, t, i), t), View(s, t)[s.addr[i] := 0];
    forall a: Address
      ensures a in v <==> a in w
      ensures a in v ==> v[a] == w[a]
    {
      UseOwnTableAt(s, t, i, a);
    }
  }

  lemma UseOwnTableAt(s: Tables, t: TableIndex, i: nat, a: Address)
    requires s.Inv() && i in s.keys
    ensures var m := Use(s, t, i);
            && m.Inv()
            && (a in View(m, t) <==> a in View(s, t) || a == s.addr[i])
            && (a in View(m, t) ==> View(m, t)[a] == if a == s.addr[i] then 0 else View(s, t)[a])
  {
    var m := Use(s, t, i);
    BitOfWithBit(s.used[i], t, true, t);
    ViewAt(m, None, t, i);
    if a != s.addr[i] {
      if a in View(m, t) {
        var j := InView(m, None, t, a);
        ViewAt(s, None, t, j);
      } else if a in View(s, t) {
        var j := InView(s, None, t, a);
        ViewAt(m, None, t, j);
      }
    }
  }

  lemma EvictUnlists(s: Tables, v: nat)
    requires s.Inv() && v in s.keys
    ensures var m := Evict(s, v);
            m.InvExcept(Some(v)) && Addresses(m) == Addresses(s) - {s.addr[v]}
  {
    var m := Evict(s, v);
    WithoutKeepsDistinct(s.keys, v);
    forall a
      ensures a in Addresses(m) <==> a in Addresses(s) && a != s.addr[v]
    {
      GetMeaning(s, None, 0, a);
      GetMeaning(m, Some(v), 0, a);
    }
  }

  lemma EvictRefines(s: Tables, v: nat)
    requires s.Inv() && v in s.keys
    ensures var m := Evict(s, v);
            && m.InvExcept(Some(v)) && Addresses(m) == Addresses(s) - {s.addr[v]}
            && forall u: TableIndex :: View(m, u) == View(s, u) - {s.addr[v]}
  {
    var m := Evict(s, v);
    EvictUnlists(s, v);
    WithoutKeepsDistinct(s.keys, v);
    forall u: TableIndex
      ensures View(m, u) == View(s, u) - {s.addr[v]}
    {
      ViewFrom(s, None, m, Some(v), u, {s.addr[v]});
    }
  }

  lemma EnlistKeepsInv(s: Tables, k: nat, a: Address)
    requires s.InvExcept(Some(k)) && a !in Addresses(s)
    ensures var m := Enlist(s, k, a);
            m.Inv() && m.keys == s.keys + [k] && m.addr == s.addr[k := a]
  {
    var m := Enlist(s, k, a);
    assert Without(s.keys, k) == s.keys;
    forall i | i in s.keys
      ensures i != k && m.addr[i] == s.addr[i] != a
    {
      GetMeaning(s, Some(k), 0, s.addr[i]);
    }
    assert forall i :: i in m.keys <==> i in s.keys || i == k;
  }

  lemma EnlistKeepsView(s: Tables, k: nat, a: Address, u: TableIndex)
    requires s.InvExcept(Some(k)) && a !in Addresses(s)
    ensures var m := Enlist(s, k, a);
            m.Inv() && View(m, u) == View(s, u)
  {
    var m := Enlist(s, k, a);
    EnlistKeepsInv(s, k, a);
    NoBits(s.used[k]);
    assert SameUsers(s, m, u, {}) by {
      forall i | i in m.keys && Bit(m.used[i], u)
        ensures i in s.keys && m.addr[i] == s.addr[i]
      {
        assert i != k;
      }
    }
    ViewFrom(s, Some(k), m, None, u, {});
    assert View(s, u) - {} == View(s, u);
  }

  lemma EnlistRefines(s: Tables, k: nat, a: Address)
    requires s.InvExcept(Some(k)) && a !in Addresses(s)
    ensures var m := Enlist(s, k, a);
            && m.Inv() && k in m.keys && m.addr[k] == a
            && forall u: TableIndex :: View(m, u) == View(s, u)
  {
    EnlistKeepsInv(s, k, a);
    forall u: TableIndex
      ensures View(Enlist(s, k, a), u) == View(s, u)
    {
      EnlistKeepsView(s, k, a, u);
    }
  }

  /// The addresses that adding `a` costs: none while `a` is known or a block is free.
  function Displaced(s: Tables, a: Address): set<Address>
    requires s.Shape()
  {
    if IndexOf(s, s.keys, a).Some? || FirstFree(s.blocks, 0).Some? then {}
    else
      var v := Victim(s, s.keys);
      if v.Some? then {s.addr[v.value]} else {}
  }

  /// No neighbour can be added.
  predicate AllLocked(s: Tables)
    requires s.Shape()
  {
    (forall i :: 0 <= i < s.N() ==> s.blocks[i] != 0) && forall k :: 0 <= k < |s.keys| ==> s.locked[s.keys[k]] != 0
  }

  /// A key block is found unless every neighbour is locked; finding it costs the neighbour
  /// the policy picks, in every table, and nothing else.
  lemma AllocateRefines(s: Tables, a: Address)
    requires s.Inv() && IndexOf(s, s.keys, a).None? && a !in Addresses(s)
    ensures var (u, k) := AllocateKey(s);
            && (k.None? <==> AllLocked(s))
            && (k.None? ==> u == s)
            && (k.Some? ==>
                 && u.InvExcept(k) && a !in Addresses(u)
                 && forall w: TableIndex :: View(u, w) == View(s, w) - Displaced(s, a))
  {
    var f := FirstFree(s.blocks, 0);
    if f.Some? {
      var u := AllocateKey(s).0;
      assert f.value !in s.keys;
      assert u.InvExcept(f);
      forall w: TableIndex
        ensures View(u, w) == View(s, w) - {}
      {
        ViewFrom(s, None, u, f, w, {});
      }
    } else {
      var p := VictimMeaning(s, s.keys);
      if Victim(s, s.keys).Some? {
        EvictRefines(s, Victim(s, s.keys).value);
      }
    }
  }

  /// Adding an address puts a cleared item under it, in this table only. It fails, without
  /// any effect, exactly when the address is new and every neighbour is locked; otherwise all
  /// it may cost is the neighbour the policy picks, which then is gone from every table.
  lemma AddRefines(s: Tables, t: TableIndex, a: Address)
    requires s.Inv()
    ensures var (m, r) := Add(s, t, a);
            && m.Inv()
            && (r.None? <==> a !in Addresses(s) && AllLocked(s))
            && (r.None? ==> m == s)
            && (r.Some? ==>
                 && Get(m, t, a) == r
                 && View(m, t) == (View(s, t) - Displaced(s, a))[a := 0]
                 && forall u: TableIndex :: u != t ==> View(m, u) == View(s, u) - Displaced(s, a))
  {
    IndexOfMeaning(s, s.keys, a);
    GetMeaning(s, None, t, a);
    var i := IndexOf(s, s.keys, a);
    if i.Some? {
      UseRefines(s, t, i.value);
      assert forall u: TableIndex :: View(s, u) - {} == View(s, u);
    } else {
      AllocateRefines(s, a);
      var (u, k) := AllocateKey(s);
      if k.Some? {
        EnlistRefines(u, k.value, a);
        UseRefines(Enlist(u, k.value, a), t, k.value);
      }
    }
  }

  lemma RemoveKeepsInv(s: Tables, t: TableIndex, i: nat)
    requires s.Inv() && i < s.N()
    ensures var m := Remove(s, t, i);
            && m.Inv() && m.keys == s.keys && m.addr == s.addr && m.items == s.items
            && (forall j :: 0 <= j < s.N() && j != i ==> m.used[j] == s.used[j])
            && forall u: TableIndex :: Bit(m.used[i], u) == (u != t && Bit(s.used[i], u))
  {
    var m := Remove(s, t, i);
    NoBits(s.used[i]);
    NoBits(m.used[i]);
    forall u: TableIndex
      ensures Bit(m.used[i], u) == (u != t && Bit(s.used[i], u))
    {
      BitOfWithBit(s.used[i], t, false, u);
    }
  }

  lemma RemoveView(s: Tables, t: TableIndex, i: nat, u: TableIndex)
    requires s.Inv() && i < s.N()
    ensures Remove(s, t, i).Inv()
    ensures View(Remove(s, t, i), u) == View(s, u) - (if u == t && i in s.keys then {s.addr[i]} else {})
  {
    RemoveKeepsInv(s, t, i);
    ViewFrom(s, None, Remove(s, t, i), None, u, if u == t && i in s.keys then {s.addr[i]} else {});
  }

  lemma RemoveRefines(s: Tables, t: TableIndex, i: nat)
    requires s.Inv() && i < s.N()
    ensures var m := Remove(s, t, i);
            && m.Inv()
            && View(m, t) == View(s, t) - (if i in s.keys then {s.addr[i]} else {})
            && forall u: TableIndex :: u != t ==> View(m, u) == View(s, u)
  {
    RemoveKeepsInv(s, t, i);
    RemoveView(s, t, i, t);
    forall u: TableIndex | u != t
      ensures View(Remove(s, t, i), u) == View(s, u)
    {
      RemoveView(s, t, i, u);
      assert View(s, u) - {} == View(s, u);
    }
  }

  lemma SetLockRefines(s: Tables, t: TableIndex, i: nat, value: bool)
    requires s.Inv() && i < s.N()
    ensures var m := SetLock(s, t, i, value);
            && m.Inv()
            && forall u: TableIndex :: View(m, u) == View(s, u)
  {
    var m := SetLock(s, t, i, value);
    forall u: TableIndex
      ensures View(m, u) == View(s, u)
    {
      ViewFrom(s, None, m, None, u, {});
      assert View(s, u) - {} == View(s, u);
    }
  }

  /// In the bitmaps `m`, table `t` has bit `value` for neighbour `i`, and all else is as in `s`.
  predicate OnlyBit(s: seq<bv8>, m: seq<bv8>, t: TableIndex, i: nat, value: bool) {
    && |m| == |s|
    && forall j, u: TableIndex :: 0 <= j < |s| ==> (Bit(m[j], u) <==> if j == i && u == t then value else Bit(s[j], u))
  }

  lemma OneBitChanged(s: seq<bv8>, t: TableIndex, i: nat, value: bool)
    requires i < |s|
    ensures OnlyBit(s, s[i := WithBit(s[i], t, value)], t, i, value)
  {
    var m := s[i := WithBit(s[i], t, value)];
    forall j, u: TableIndex | 0 <= j < |s|
      ensures Bit(m[j], u) <==> if j == i && u == t then value else Bit(s[j], u)
    {
      BitOfWithBit(s[i], t, value, u);
    }
  }

  /// Locking and unlocking set and clear the lock of this table on this neighbour and no other,
  /// and nothing else.
  lemma SetLockMeaning(s: Tables, t: TableIndex, i: nat, value: bool)
    requires s.Shape() && i < s.N()
    ensures var m := SetLock(s, t, i, value);
            OnlyBit(s.locked, m.locked, t, i, value) && m.(locked := s.locked) == s
  {
    OneBitChanged(s.locked, t, i, value);
  }

  /// Removal gives up both the use and the lock of this table, and use takes up the use.
  lemma UseAndRemoveMeaning(s: Tables, t: TableIndex, i: nat)
    requires s.Shape() && i < s.N()
    ensures var m := Remove(s, t, i);
            && OnlyBit(s.used, m.used, t, i, false) && OnlyBit(s.locked, m.locked, t, i, false)
            && m.(used := s.used, locked := s.locked) == s
    ensures var m := Use(s, t, i);
            && OnlyBit(s.used, m.used, t, i, true) && m.locked == s.locked && m.keys == s.keys && m.addr == s.addr
  {
    OneBitChanged(s.used, t, i, false);
    OneBitChanged(s.locked, t, i, false);
    OneBitChanged(s.used, t, i, true);
  }

  // ------------------------------------------------------------------ runs

  datatype Op =
    | OpAdd(t: TableIndex, a: Address)
    | OpRemove(t: TableIndex, i: nat)
    | OpLock(t: TableIndex, i: nat)
    | OpUnlock(t: TableIndex, i: nat)

  function Apply(s: Tables, op: Op): (r: Tables)
    requires s.Inv()
    ensures r.Inv() && r.N() == s.N()
  {
    match op
    case OpAdd(t, a) =>
      AddRefines(s, t, a);
      Add(s, t, a).0
    case OpRemove(t, i) =>
      if i < s.N() then
        RemoveRefines(s, t, i);
        Remove(s, t, i)
      else s
    case OpLock(t, i) =>
      if i < s.N() then
        SetLockRefines(s, t, i, true);
        SetLock(s, t, i, true)
      else s
    case OpUnlock(t, i) =>
      if i < s.N() then
        SetLockRefines(s, t, i, false);
        SetLock(s, t, i, false)
      else s
  }

  function Run(s: Tables, ops: seq<Op>): (r: Tables)
    requires s.Inv()
    ensures r.Inv() && r.N() == s.N()
    decreases |ops|
  {
    if ops == [] then s else Run(Apply(s, ops[0]), ops[1..])
  }

  /// An operation by which table `t` gives up its lock on neighbour `i`.
  predicate Releases(op: Op, t: TableIndex, i: nat) {
    op == OpRemove(t, i) || op == OpUnlock(t, i)
  }

  lemma LockSurvives(s: Tables, op: Op, t: TableIndex, i: nat)
    requires s.Inv() && i in s.keys && Bit(s.locked[i], t) && !Releases(op, t, i)
    ensures var m := Apply(s, op);
            i in m.keys && m.addr[i] == s.addr[i] && Bit(m.locked[i], t)
  {
    NoBits(s.locked[i]);
    match op {
      case OpAdd(u, a) =>
        LockedIsNotChosen(s, u, a, t, i);
      case OpRemove(u, j) =>
        if j < s.N() {
          BitOfWithBit(s.locked[j], u, false, t);
        }
      case OpLock(u, j) =>
        if j < s.N() {
          BitOfWithBit(s.locked[j], u, true, t);
        }
      case OpUnlock(u, j) =>
        if j < s.N() {
          BitOfWithBit(s.locked[j], u, false, t);
        }
    }
  }

  lemma LockedIsNotTaken(s: Tables, t: TableIndex, i: nat)
    requires s.Inv() && i in s.keys && Bit(s.locked[i], t)
    ensures var (w, k) := AllocateKey(s);
            i in w.keys && Distinct(w.keys) && w.addr == s.addr && w.locked == s.locked && k != Some(i)
  {
    NoBits(s.locked[i]);
    var k := AllocateKey(s).1;
    var p := VictimMeaning(s, s.keys);
    if k.Some? {
      WithoutKeepsDistinct(s.keys, k.value);
    }
  }

  lemma LockedIsNotChosen(s: Tables, u: TableIndex, a: Address, t: TableIndex, i: nat)
    requires s.Inv() && i in s.keys && Bit(s.locked[i], t)
    ensures var m := Add(s, u, a).0; i in m.keys && m.addr[i] == s.addr[i] && m.locked == s.locked
  {
    LockedIsNotTaken(s, t, i);
    var (w, k) := AllocateKey(s);
    if k.Some? {
      WithoutKeepsDistinct(w.keys, k.value);
    }
  }

  /// A neighbour some table has locked stays listed under its address over every run in which
  /// that table does not release it.
  lemma {:induction false} LockedIsNeverEvicted(s: Tables, ops: seq<Op>, t: TableIndex, i: nat)
    requires s.Inv() && i in s.keys && Bit(s.locked[i], t)
    requires forall op :: op in ops ==> !Releases(op, t, i)
    ensures var m := Run(s, ops); i in m.keys && m.addr[i] == s.addr[i]
    decreases |ops|
  {
    if ops != [] {
      LockSurvives(s, ops[0], t, i);
      LockedIsNeverEvicted(Apply(s, ops[0]), ops[1..], t, i);
    }
  }

  lemma {:induction false} RunOfConcat(s: Tables, x: seq<Op>, y: seq<Op>)
    requires s.Inv()
    ensures Run(s, x + y) == Run(Run(s, x), y)
    decreases |x|
  {
    if x == [] {
      assert x + y == y;
    } else {
      assert (x + y)[1..] == x[1..] + y;
      RunOfConcat(Apply(s, x[0]), x[1..], y);
    }
  }

  /// Once a table has locked a listed neighbour, whatever came before, it stays listed under its
  /// address until that table releases it.
  lemma OnceLockedStays(s: Tables, before: seq<Op>, after: seq<Op>, t: TableIndex, i: nat)
    requires s.Inv() && i in Run(s, before).keys
    requires forall op :: op in after ==> !Releases(op, t, i)
    ensures var m := Run(s, before + [OpLock(t, i)] + after);
            i in m.keys && m.addr[i] == Run(s, before).addr[i]
  {
    RunOfConcat(s, before + [OpLock(t, i)], after);
    RunOfConcat(s, before, [OpLock(t, i)]);
    LockLocks(Run(s, before), t, i);
    LockedIsNeverEvicted(Run(Run(s, before), [OpLock(t, i)]), after, t, i);
  }

  lemma LockLocks(s: Tables, t: TableIndex, i: nat)
    requires s.Inv() && i in s.keys
    ensures var m := Run(s, [OpLock(t, i)]);
            i < s.N() && m.keys == s.keys && m.addr == s.addr && Bit(m.locked[i], t)
  {
    var op := OpLock(t, i);
    assert [op][1..] == [];
    assert Run(s, [op]) == Run(Apply(s, op), []);
    SetLockMeaning(s, t, i, true);
  }

  // ------------------------------------------------------------- iteration

  /// The first position from `p` on whose neighbour table `t` uses, or the end of the list.
  function FirstUsed(s: Tables, t: TableIndex, p: nat): (r: nat)
    requires s.Shape() && p <= |s.keys|
    ensures p <= r <= |s.keys|
    ensures r < |s.keys| ==> Bit(s.used[s.keys[r]], t)
    ensures forall q :: p <= q < r ==> !Bit(s.used[s.keys[q]], t)
    decreases |s.keys| - p
  {
    if p == |s.keys| || Bit(s.used[s.keys[p]], t) then p else FirstUsed(s, t, p + 1)
  }

  function KeyAt(keys: seq<nat>, p: nat): Option<nat> {
    if p < |keys| then Some(keys[p]) else None
  }

  /// What `nbr_table_head` and then `nbr_table_next` visit.
  function Walk(s: Tables, t: TableIndex, p: nat): seq<nat>
    requires s.Shape() && p <= |s.keys|
    decreases |s.keys| - p
  {
    var q := FirstUsed(s, t, p);
    if q == |s.keys| then [] else [s.keys[q]] + Walk(s, t, q + 1)
  }

  /// The neighbours of table `t` among `keys`, in list order.
  function UsedKeys(s: Tables, t: TableIndex, keys: seq<nat>): seq<nat>
    requires s.Shape() && InRange(keys, s.N())
  {
    if keys == [] then []
    else if Bit(s.used[keys[0]], t) then [keys[0]] + UsedKeys(s, t, keys[1..])
    else UsedKeys(s, t, keys[1..])
  }

  lemma {:induction false} UsedKeysMeaning(s: Tables, t: TableIndex, keys: seq<nat>)
    requires s.Shape() && InRange(keys, s.N())
    ensures forall k :: k in UsedKeys(s, t, keys) <==> k in keys && Bit(s.used[k], t)
    ensures Distinct(keys) ==> Distinct(UsedKeys(s, t, keys))
  {
    if keys != [] {
      UsedKeysMeaning(s, t, keys[1..]);
      if Distinct(keys) {
        assert forall q :: 0 < q < |keys| ==> keys[q] != keys[0];
      }
    }
  }

  lemma WalkStep(s: Tables, t: TableIndex, p: nat)
    requires s.Shape() && p < |s.keys|
    ensures Walk(s, t, p) == (if Bit(s.used[s.keys[p]], t) then [s.keys[p]] else []) + Walk(s, t, p + 1)
  {
  }

  /// Iterating over a table visits each of its neighbours once, oldest first.
  lemma {:induction false} WalkVisitsExactlyUsed(s: Tables, t: TableIndex, p: nat)
    requires s.Shape() && p <= |s.keys|
    ensures Walk(s, t, p) == UsedKeys(s, t, s.keys[p..])
    decreases |s.keys| - p
  {
    if p < |s.keys| {
      WalkVisitsExactlyUsed(s, t, p + 1);
      WalkStep(s, t, p);
      assert s.keys[p..][1..] == s.keys[p + 1..];
    }
  }

  /// `list_item_next` on the key list.
  function After(keys: seq<nat>, k: nat): Option<nat> {
    if keys == [] then None
    else if keys[0] == k then KeyAt(keys, 1)
    else After(keys[1..], k)
  }

  lemma {:induction false} AfterAt(keys: seq<nat>, p: nat)
    requires Distinct(keys) && p < |keys|
    ensures After(keys, keys[p]) == KeyAt(keys, p + 1)
  {
    if p > 0 {
      AfterAt(keys[1..], p - 1);
    }
  }

  // ------------------------------------------------------------- callbacks

  /// The tables among the first `n` that have a callback and use a neighbour with bitmap `b`.
  function Notified(b: bv8, callback: seq<bool>, n: nat): seq<TableIndex>
    requires n <= |callback| <= MAX_NUM_TABLES
  {
    if n == 0 then []
    else Notified(b, callback, n - 1) + (if callback[n - 1] && Bit(b, n - 1) then [n - 1] else [])
  }

  /// They are told exactly once each, in the order in which they were registered.
  lemma {:induction false} NotifiedMeaning(b: bv8, callback: seq<bool>, n: nat, t: TableIndex)
    requires n <= |callback| <= MAX_NUM_TABLES
    ensures t in Notified(b, callback, n) <==> t < n && callback[t] && Bit(b, t)
    ensures var r := Notified(b, callback, n);
            && (forall i :: 0 <= i < |r| ==> r[i] < n)
            && (forall i, j :: 0 <= i < j < |r| ==> r[i] < r[j])
  {
    if n > 0 {
      NotifiedMeaning(b, callback, n - 1, t);
    }
  }

  // ------------------------------------------------------------- the arrays

  /// The module's state: the key pool, the key list, the two bitmaps and, for each table, its
  /// block of items.
  class Neighbours {
    const mem: Pool
    const lladdr: array<Address>
    const usedMap: array<bv8>
    const lockedMap: array<bv8>
    const data: array<seq<int>>
    const callback: array<bool>
    var keys: seq<nat>
    var numTables: nat

    /// The six arrays are six objects.
    ghost predicate Apart() {
      var a: object, b: object, c: object, d: object, e: object, f: object :=
        mem.count, lladdr, usedMap, lockedMap, data, callback;
      && a != b && a != c && a != d && a != e && a != f
      && b != c && b != d && b != e && b != f
      && c != d && c != e && c != f && d != e && d != f && e != f
    }

    ghost predicate Valid()
      reads this, data
    {
      && mem.count.Length == lladdr.Length == usedMap.Length == lockedMap.Length
      && data.Length == callback.Length == MAX_NUM_TABLES
      && (forall t :: 0 <= t < MAX_NUM_TABLES ==> |data[t]| == lladdr.Length)
      && Apart()
      && InRange(keys, lladdr.Length)
      && numTables <= MAX_NUM_TABLES
    }

    ghost function Value(): (s: Tables)
      requires Valid()
      reads this, mem.count, lladdr, usedMap, lockedMap, data
      ensures s.Shape() && s.N() == lladdr.Length
    {
      Tables(mem.count[..], keys, lladdr[..], usedMap[..], lockedMap[..], data[..])
    }

    constructor (n: nat)
      ensures Valid() && fresh(mem) && fresh(mem.count) && fresh(lladdr) && fresh(usedMap)
      ensures fresh(lockedMap) && fresh(data) && fresh(callback)
      ensures Value().Inv() && keys == [] && numTables == 0 && Value().N() == n
      ensures forall t: TableIndex :: View(Value(), t) == map[]
    {
      mem := new Pool(n);
      lladdr := new Address[n](_ => RIMEADDR_NULL);
      usedMap := new bv8[n](_ => 0);
      lockedMap := new bv8[n](_ => 0);
      data := new seq<int>[MAX_NUM_TABLES](_ => seq(n, _ => 0));
      callback := new bool[MAX_NUM_TABLES](_ => false);
      keys := [];
      numTables := 0;
    }

    method Register(hasCallback: bool) returns (index: Option<TableIndex>)
      requires Valid()
      modifies this`numTables, callback
      ensures Valid() && Value() == old(Value())
      ensures old(numTables) < MAX_NUM_TABLES ==>
                && index == Some(old(numTables)) && numTables == old(numTables) + 1
                && callback[..] == old(callback[..])[old(numTables) := hasCallback]
      ensures old(numTables) == MAX_NUM_TABLES ==>
                index.None? && numTables == old(numTables) && callback[..] == old(callback[..])
    {
      if numTables < MAX_NUM_TABLES {
        index := Some(numTables);
        callback[numTables] := hasCallback;
        numTables := numTables + 1;
      } else {
        index := None;
      }
    }

    method IndexFromLladdr(lladdrOrNull: Option<Address>) returns (r: Option<nat>)
      requires Valid()
      ensures r == IndexOf(Value(), keys, LladdrOf(lladdrOrNull))
    {
      var a := if lladdrOrNull.Some? then lladdrOrNull.value else RIMEADDR_NULL;
      var p := 0;
      while p < |keys|
        invariant p <= |keys|
        invariant InRange(keys[p..], lladdr.Length)
        invariant IndexOf(Value(), keys, a) == IndexOf(Value(), keys[p..], a)
      {
        if lladdr[keys[p]] == a {
          return Some(keys[p]);
        }
        assert keys[p..][1..] == keys[p + 1..];
        p := p + 1;
      }
      r := None;
    }

    /// The scan of the replacement policy, which stops at a neighbour nobody uses.
    method PickVictim() returns (least: Option<nat>)
      requires Valid()
      ensures least == Victim(Value(), keys)
    {
      ghost var s := Value();
      least := None;
      var leastCount := 0;
      var p := 0;
      while p < |keys|
        invariant p <= |keys| && least == Victim(s, keys[..p])
        invariant least.Some? ==> leastCount == s.UserCount(least.value)
      {
        var i := keys[p];
        VictimStep(s, keys, p);
        if lockedMap[i] == 0 {
          var usedCount := CountUsers(usedMap[i]);
          if least.None? || usedCount < leastCount {
            least, leastCount := Some(i), usedCount;
            if usedCount == 0 {
              UnusedVictimIsFinal(s, keys, p + 1);
              return;
            }
          }
        }
        p := p + 1;
      }
      assert keys[..p] == keys;
    }

    /// The callbacks called for the neighbour about to be removed.
    method Notify(i: nat) returns (fired: seq<TableIndex>)
      requires Valid() && i < usedMap.Length
      ensures fired == Notified(usedMap[i], callback[..], numTables)
    {
      fired := [];
      var t: nat := 0;
      while t < numTables
        invariant t <= numTables
        invariant fired == Notified(usedMap[i], callback[..], t)
      {
        if callback[t] && Bit(usedMap[i], t) {
          fired := fired + [t];
        }
        t := t + 1;
      }
    }

    method Allocate() returns (key: Option<nat>, fired: seq<TableIndex>)
      requires Valid()
      modifies this`keys, mem.count, usedMap
      ensures Valid() && (Value(), key) == AllocateKey(old(Value()))
      ensures fired == if key.Some? && FirstFree(old(mem.count[..]), 0).None?
                       then Notified(old(usedMap[..])[key.value], callback[..], numTables) else []
    {
      key := mem.Alloc();
      if key.Some? {
        return key, [];
      }
      key := PickVictim();
      if key.None? {
        return None, [];
      }
      fired := Notify(key.value);
      WithoutInRange(keys, key.value, lladdr.Length);
      usedMap[key.value] := 0;
      keys := Without(keys, key.value);
    }

    /// The part of `nbr_table_add_lladdr` for an address not in the list.
    method AddKey(a: Address) returns (r: Option<nat>, fired: seq<TableIndex>)
      requires Valid()
      modifies this`keys, mem.count, lladdr, usedMap
      ensures Valid()
      ensures var (u, k) := AllocateKey(old(Value()));
              r == k && Value() == if k.None? then u else Enlist(u, k.value, a)
      ensures fired == if r.Some? && FirstFree(old(mem.count[..]), 0).None?
                       then Notified(old(usedMap[..])[r.value], callback[..], numTables) else []
    {
      r, fired := Allocate();
      if r.Some? {
        WithoutInRange(keys, r.value, lladdr.Length);
        keys := Without(keys, r.value) + [r.value];
        lladdr[r.value] := a;
      }
    }

    /// `nbr_table_add_lladdr`: the item's index, and the tables told about an eviction.
    method AddLladdr(t: TableIndex, lladdrOrNull: Option<Address>) returns (r: Option<nat>, fired: seq<TableIndex>)
      requires Valid()
      modifies this`keys, mem.count, lladdr, usedMap, data
      ensures Valid() && (Value(), r) == Add(old(Value()), t, LladdrOf(lladdrOrNull))
      ensures fired == Evicted(old(Value()), LladdrOf(lladdrOrNull), callback[..], numTables)
    {
      var a := if lladdrOrNull.Some? then lladdrOrNull.value else RIMEADDR_NULL;
      r := IndexFromLladdr(Some(a));
      fired := [];
      if r.None? {
        r, fired := AddKey(a);
        if r.None? {
          return;
        }
      }
      ClearItem(t, r.value);
    }

    /// The item is zeroed and its used bit set.
    method ClearItem(t: TableIndex, i: nat)
      requires Valid() && i < lladdr.Length
      modifies usedMap, data
      ensures Valid() && Value() == Use(old(Value()), t, i)
    {
      data[t] := data[t][i := 0];
      usedMap[i] := WithBit(usedMap[i], t, true);
    }

    method GetFromLladdr(t: TableIndex, lladdrOrNull: Option<Address>) returns (r: Option<nat>)
      requires Valid()
      ensures r == Get(Value(), t, LladdrOf(lladdrOrNull))
    {
      r := IndexFromLladdr(lladdrOrNull);
      if r.Some? && !Bit(usedMap[r.value], t) {
        r := None;
      }
    }

    /// False for a null item.
    method RemoveItem(t: TableIndex, item: Option<nat>) returns (ok: bool)
      requires Valid() && (item.Some? ==> item.value < lladdr.Length)
      modifies usedMap, lockedMap
      ensures Valid() && ok == item.Some?
      ensures Value() == if ok then Remove(old(Value()), t, item.value) else old(Value())
    {
      ok := item.Some?;
      if ok {
        usedMap[item.value] := WithBit(usedMap[item.value], t, false);
        lockedMap[item.value] := WithBit(lockedMap[item.value], t, false);
      }
    }

    method Lock(t: TableIndex, item: Option<nat>, value: bool) returns (ok: bool)
      requires Valid() && (item.Some? ==> item.value < lladdr.Length)
      modifies lockedMap
      ensures Valid() && ok == item.Some?
      ensures Value() == if ok then SetLock(old(Value()), t, item.value, value) else old(Value())
      ensures ok ==> OnlyBit(old(lockedMap[..]), lockedMap[..], t, item.value, value)
    {
      ok := item.Some?;
      if ok {
        OneBitChanged(lockedMap[..], t, item.value, value);
        lockedMap[item.value] := WithBit(lockedMap[item.value], t, value);
      }
    }

    method Next(t: TableIndex, item: Option<nat>) returns (r: Option<nat>)
      requires Valid() && Distinct(keys) && (item.Some? ==> item.value in keys)
      ensures item.None? ==> r.None?
      ensures forall p :: 0 <= p < |keys| && item == Some(keys[p]) ==>
                r == KeyAt(keys, FirstUsed(Value(), t, p + 1))
    {
      if item.None? {
        return None;
      }
      ghost var s := Value();
      ghost var p :| 0 <= p < |keys| && keys[p] == item.value;
      r := After(keys, item.value);
      AfterAt(keys, p);
      ghost var q := p + 1;
      while r.Some? && !Bit(usedMap[r.value], t)
        invariant q <= |keys| && r == KeyAt(keys, q)
        invariant FirstUsed(s, t, p + 1) == FirstUsed(s, t, q)
        decreases |keys| - q
      {
        AfterAt(keys, q);
        r := After(keys, r.value);
        q := q + 1;
      }
      assert r == KeyAt(keys, FirstUsed(s, t, p + 1));
    }

    method Head(t: TableIndex) returns (r: Option<nat>)
      requires Valid() && Distinct(keys)
      ensures r == KeyAt(keys, FirstUsed(Value(), t, 0))
    {
      r := KeyAt(keys, 0);
      if r.None? || !Bit(usedMap[r.value], t) {
        r := Next(t, r);
      }
    }
  }

  /// A null link address stands for the all-zero one.
  function LladdrOf(a: Option<Address>): Address {
    if a.Some? then a.value else RIMEADDR_NULL
  }

  /// The tables told that adding `a` evicts a neighbour of theirs.
  function Evicted(s: Tables, a: Address, callback: seq<bool>, numTables: nat): seq<TableIndex>
    requires s.Shape() && numTables <= |callback| <= MAX_NUM_TABLES
  {
    if IndexOf(s, s.keys, a).Some? || FirstFree(s.blocks, 0).Some? then []
    else
      var v := Victim(s, s.keys);
      if v.Some? then Notified(s.used[v.value], callback, numTables) else []
  }

  /// They are exactly the tables with a callback that lose a neighbour by the addition.
  lemma EvictedMeaning(s: Tables, a: Address, callback: seq<bool>, numTables: nat, t: TableIndex)
    requires s.Inv() && numTables <= |callback| <= MAX_NUM_TABLES
    ensures t in Evicted(s, a, callback, numTables) <==>
              t < numTables && callback[t] && exists d :: d in Displaced(s, a) && d in View(s, t)
    ensures Distinct(Evicted(s, a, callback, numTables))
  {
    if Displaced(s, a) != {} {
      var v := Victim(s, s.keys).value;
      NotifiedMeaning(s.used[v], callback, numTables, t);
      if Bit(s.used[v], t) {
        ViewAt(s, None, t, v);
      } else if s.addr[v] in View(s, t) {
        var i := InView(s, None, t, s.addr[v]);
      }
    }
  }
}
