/// Connection identifiers. Every TCP and UDP connection record carries the id its client knows
/// it by; ids are drawn from 1 to MAX_GUID by a cyclic search.

module ConnIds {
  import opened Basics

  const MAX_GUID: nat := 200

  /// Records that are free or not yet announced carry id 0; all others differ.
  predicate Distinct(ids: seq<nat>) {
    forall i, j :: 0 <= i < j < |ids| && ids[i] != 0 ==> ids[i] != ids[j]
  }

  lemma {:induction false} FewIds(ids: seq<nat>, k: nat) returns (s: set<nat>)
    requires k < |ids| && ids[k] == 0
    ensures |s| < |ids| && forall i :: 0 <= i < |ids| && ids[i] != 0 ==> ids[i] in s
  {
    var others := ids[..k] + ids[k + 1..];
    s := Elements(others);
    forall i | 0 <= i < |ids| && ids[i] != 0
      ensures ids[i] in s
    {
      assert ids[i] == if i < k then others[i] else others[i - 1];
    }
  }

  function Elements(ids: seq<nat>): (s: set<nat>)
    ensures |s| <= |ids| && forall i :: 0 <= i < |ids| ==> ids[i] in s
  {
    if ids == [] then {} else Elements(ids[1..]) + {ids[0]}
  }

  function Guids(n: nat): (s: set<nat>)
    ensures |s| == n && forall x :: x in s <==> 1 <= x <= n
  {
    if n == 0 then {} else Guids(n - 1) + {n}
  }

  /// With one record just zeroed, at most MAX_GUID - 1 ids are taken.
  lemma FreeGuidExists(ids: seq<nat>, k: nat)
    requires |ids| <= MAX_GUID && k < |ids| && ids[k] == 0
    ensures exists g :: 1 <= g <= MAX_GUID && g !in ids
  {
    var taken := FewIds(ids, k);
    var all := Guids(MAX_GUID);
    if all <= taken {
      SubsetIsSmaller(all, taken);
    } else {
      var g :| g in all && g !in taken;
      assert g !in ids;
    }
  }

  /// The id fields of `uip_conns` and `uip_udp_conns`, and the static `guid`.
  class Registry {
    const tcp: array<nat>
    const udp: array<nat>
    var guid: nat

    ghost predicate Valid()
      reads this, tcp, udp
    {
      && tcp != udp
      && tcp.Length + udp.Length <= MAX_GUID
      && 1 <= guid <= MAX_GUID
      && Distinct(Ids())
    }

    ghost function Ids(): seq<nat>
      reads tcp, udp
    {
      tcp[..] + udp[..]
    }

    constructor (t: array<nat>, u: array<nat>)
      requires t != u && t.Length + u.Length <= MAX_GUID
      requires forall i :: 0 <= i < t.Length ==> t[i] == 0
      requires forall i :: 0 <= i < u.Length ==> u[i] == 0
      ensures Valid() && tcp == t && udp == u
    {
      tcp, udp, guid := t, u, 1;
    }

    /// `lookup_xtcpd_state`: the two tables are scanned in step. The result is an index into
    /// the TCP table followed by the UDP table, or the sum of their lengths.
    method Lookup(id: nat) returns (at: nat)
      requires Valid()
      ensures at <= |Ids()|
      ensures at == |Ids()| <==> id !in Ids()
      ensures at < |Ids()| ==> Ids()[at] == id
      ensures id != 0 && at < |Ids()| ==> forall j :: 0 <= j < |Ids()| && Ids()[j] == id ==> j == at
    {
      var n := if tcp.Length > udp.Length then tcp.Length else udp.Length;
      var i := 0;
      while i < n
        invariant i <= n
        invariant forall j :: 0 <= j < i && j < tcp.Length ==> tcp[j] != id
        invariant forall j :: 0 <= j < i && j < udp.Length ==> udp[j] != id
      {
        if i < tcp.Length {
          if tcp[i] == id {
            assert Ids()[i] == id;
            return i;
          }
        }
        if i < udp.Length {
          if udp[i] == id {
            assert Ids()[tcp.Length + i] == id;
            return tcp.Length + i;
          }
        }
        i := i + 1;
      }
      at := tcp.Length + udp.Length;
    }

    /// The id part of `xtcpd_init_state` for record `i` of the TCP or the UDP table.
    method InitState(isTcp: bool, i: nat)
      requires Valid() && i < (if isTcp then tcp else udp).Length
      modifies this, tcp, udp
      ensures Valid()
      ensures 1 <= guid && guid !in old(Ids()[(if isTcp then i else tcp.Length + i) := 0])
      ensures Ids() == old(Ids())[(if isTcp then i else tcp.Length + i) := guid]
    {
      ghost var k := if isTcp then i else tcp.Length + i;
      ghost var before := Ids()[k := 0];
      if isTcp {
        tcp[i] := 0;
      } else {
        udp[i] := 0;
      }
      assert Ids() == before;
      FindGuid(k);
      if isTcp {
        tcp[i] := guid;
      } else {
        udp[i] := guid;
      }
      assert Ids() == before[k := guid];
    }

    /// The cyclic search for an id nobody uses.
    method FindGuid(ghost k: nat)
      requires Valid() && k < |Ids()| && Ids()[k] == 0
      modifies this`guid
      ensures Valid() && guid !in Ids()
    {
      FreeGuidExists(Ids(), k);
      ghost var goal :| 1 <= goal <= MAX_GUID && goal !in Ids();
      var owner := Lookup(guid);
      while owner != tcp.Length + udp.Length
        invariant Valid()
        invariant owner == |Ids()| <==> guid !in Ids()
        decreases owner != |Ids()|, if guid <= goal then goal - guid else MAX_GUID - guid + goal
      {
        guid := guid + 1;
        if guid > MAX_GUID {
          guid := 1;
        }
        owner := Lookup(guid);
      }
    }
  }
}
