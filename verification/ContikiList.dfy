/// Contiki's intrusive singly linked lists (`list.c`) on the heap: every operation is proved
/// against the sequence of elements the list stands for.

module ContikiList {
  class Node {
    var next: Node?

    constructor () {
      next := null;
    }
  }

  /// The sequence without its (only) occurrence of `x`.
  function Without<T(==)>(s: seq<T>, x: T): (r: seq<T>)
    ensures x !in s ==> r == s
    ensures forall y :: y in r ==> y in s
  {
    if s == [] then [] else if s[0] == x then s[1..] else [s[0]] + Without(s[1..], x)
  }

  predicate Distinct<T(==)>(s: seq<T>) {
    forall i, j :: 0 <= i < j < |s| ==> s[i] != s[j]
  }

  lemma {:induction false} WithoutAt<T>(s: seq<T>, i: nat)
    requires Distinct(s) && i < |s|
    ensures Without(s, s[i]) == s[..i] + s[i + 1..]
    ensures s[i] !in Without(s, s[i])
  {
    if i > 0 {
      WithoutAt(s[1..], i - 1);
      assert s[..i] + s[i + 1..] == [s[0]] + (s[1..][..i - 1] + s[1..][i..]);
    }
  }

  lemma {:induction false} WithoutKeepsDistinct<T>(s: seq<T>, x: T)
    requires Distinct(s)
    ensures Distinct(Without(s, x)) && x !in Without(s, x)
    ensures forall y :: y in Without(s, x) <==> y in s && y != x
  {
    if x in s {
      var i :| 0 <= i < |s| && s[i] == x;
      WithoutAt(s, i);
    }
  }

  lemma CutKeepsDistinct<T>(s: seq<T>, k: nat)
    requires Distinct(s) && k < |s|
    ensures Distinct(s[..k] + s[k + 1..])
  {
  }

  lemma InsertKeepsDistinct<T>(s: seq<T>, k: nat, x: T)
    requires Distinct(s) && k <= |s| && x !in s
    ensures Distinct(s[..k] + [x] + s[k..])
  {
  }

  lemma InsertedAt<T>(s: seq<T>, k: nat, x: T, i: nat)
    requires k <= |s| && i <= |s|
    ensures (s[..k] + [x] + s[k..])[i] == if i < k then s[i] else if i == k then x else s[i - 1]
  {
  }

  class List {
    var head: Node?
    ghost var items: seq<Node>

    /// The chain from `head` runs through exactly these nodes and ends.
    ghost predicate Valid()
      reads this, items
    {
      && Distinct(items)
      && head == At(0)
      && forall i :: 0 <= i < |items| ==> items[i].next == At(i + 1)
    }

    ghost function Nodes(): set<Node>
      reads this
    {
      set n | n in items
    }

    ghost function At(i: nat): Node?
      reads this
    {
      if i < |items| then items[i] else null
    }

    /// `list_init`
    constructor ()
      ensures Valid() && items == []
    {
      head, items := null, [];
    }

    /// `list_tail`
    method Tail() returns (l: Node?)
      requires Valid()
      ensures l == if items == [] then null else items[|items| - 1]
    {
      if head == null {
        return null;
      }
      l := head;
      ghost var i := 0;
      while l.next != null
        invariant i < |items| && l == items[i]
        decreases |items| - i
      {
        l := l.next;
        i := i + 1;
      }
    }

    /// `list_length`
    method Length() returns (n: nat)
      requires Valid()
      ensures n == |items|
    {
      n := 0;
      var l := head;
      while l != null
        invariant n <= |items| && l == At(n)
        decreases |items| - n
      {
        n := n + 1;
        l := l.next;
      }
    }

    /// `list_remove`
    method Remove(item: Node)
      requires Valid()
      modifies this, Nodes()
      ensures Valid() && items == Without(old(items), item)
      ensures item in old(items) ==> item.next == null
      ensures item !in old(items) ==> forall n :: n in items ==> n.next == old(n.next)
    {
      var r: Node? := null;
      var l := head;
      ghost var i := 0;
      while l != null && l != item
        invariant i <= |items| && l == At(i)
        invariant r == if i == 0 then null else items[i - 1]
        invariant item !in items[..i]
        decreases |items| - i
      {
        assert items[..i + 1] == items[..i] + [l];
        r := l;
        l := l.next;
        i := i + 1;
      }
      if l == null {
        assert items[..i] == items;
        return;
      }
      WithoutAt(items, i);
      Unlink(r, l, i);
    }

    /// Taking element `i` out, given its predecessor.
    method Unlink(r: Node?, l: Node, ghost i: nat)
      requires Valid() && i < |items| && l == items[i]
      requires r == if i == 0 then null else items[i - 1]
      modifies this, Nodes()
      ensures Valid() && items == old(items)[..i] + old(items)[i + 1..] && l.next == null
    {
      CutKeepsDistinct(items, i);
      if r == null {
        head := l.next;
      } else {
        r.next := l.next;
      }
      items := items[..i] + items[i + 1..];
      l.next := null;
    }

    /// `list_add`: at the end, moved there if it was in the list already.
    method Add(item: Node)
      requires Valid()
      modifies this, Nodes(), item
      ensures Valid() && items == Without(old(items), item) + [item]
    {
      Remove(item);
      WithoutKeepsDistinct(old(items), item);
      assert Nodes() <= old(Nodes());
      Append(item);
    }

    method Append(item: Node)
      requires Valid() && item !in items
      modifies this, Nodes(), item
      ensures Valid() && items == old(items) + [item]
    {
      item.next := null;
      var l := Tail();
      if l == null {
        head := item;
      } else {
        l.next := item;
      }
      items := items + [item];
    }

    /// `list_push`: at the front, moved there if it was in the list already.
    method Push(item: Node)
      requires Valid()
      modifies this, Nodes(), item
      ensures Valid() && items == [item] + Without(old(items), item)
    {
      Remove(item);
      WithoutKeepsDistinct(old(items), item);
      item.next := head;
      head := item;
      items := [item] + items;
    }

    /// `list_chop`
    method Chop() returns (r: Node?)
      requires Valid()
      modifies this, Nodes()
      ensures Valid()
      ensures if old(items) == [] then r == null && items == []
              else r == old(items)[|old(items)| - 1] && items == old(items)[..|old(items)| - 1]
    {
      if head == null {
        return null;
      }
      if head.next == null {
        r := head;
        head := null;
        items := [];
        return;
      }
      var l := head;
      ghost var i := 0;
      while l.next.next != null
        invariant i + 1 < |items| && l == items[i]
        decreases |items| - i
      {
        l := l.next;
        i := i + 1;
      }
      r := l.next;
      l.next := null;
      items := items[..|items| - 1];
    }

    /// `list_pop`
    method Pop() returns (r: Node?)
      requires Valid()
      modifies this
      ensures Valid()
      ensures if old(items) == [] then r == null && items == []
              else r == old(items)[0] && items == old(items)[1..]
    {
      r := head;
      if head != null {
        head := head.next;
        items := items[1..];
      }
    }

    /// `list_insert`: behind element `k`, for an item not in the list, or at the front.
    method Insert(previtem: Node?, newitem: Node, ghost k: nat)
      requires Valid()
      requires previtem != null ==> k < |items| && previtem == items[k] && newitem !in items
      modifies this, Nodes(), newitem
      ensures Valid()
      ensures items == if previtem == null then [newitem] + Without(old(items), newitem)
                       else old(items)[..k + 1] + [newitem] + old(items)[k + 1..]
    {
      if previtem == null {
        Push(newitem);
      } else {
        InsertBehind(previtem, newitem, k);
      }
    }

    method InsertBehind(previtem: Node, newitem: Node, ghost k: nat)
      requires Valid() && k < |items| && previtem == items[k] && newitem !in items
      modifies this, Nodes(), newitem
      ensures Valid() && items == old(items)[..k + 1] + [newitem] + old(items)[k + 1..]
    {
      ghost var was := items;
      InsertKeepsDistinct(items, k + 1, newitem);
      newitem.next := previtem.next;
      previtem.next := newitem;
      items := items[..k + 1] + [newitem] + items[k + 1..];
      forall i | 0 <= i < |items|
        ensures items[i].next == At(i + 1)
      {
        InsertedAt(was, k + 1, newitem, i);
        if i + 1 < |items| {
          InsertedAt(was, k + 1, newitem, i + 1);
        }
      }
    }
  }
}
