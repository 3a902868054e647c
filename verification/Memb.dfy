/// Contiki's memory block pools (`memb.c`): a fixed number of blocks with reference counts.

module Memb {
  import opened Basics

  /// The first free block.
  function FirstFree(count: seq<nat>, from: nat): (r: Option<nat>)
    requires from <= |count|
    ensures r.Some? ==> from <= r.value < |count| && count[r.value] == 0
    ensures r.Some? ==> forall i :: from <= i < r.value ==> count[i] != 0
    ensures r.None? ==> forall i :: from <= i < |count| ==> count[i] != 0
    decreases |count| - from
  {
    if from == |count| then None
    else if count[from] == 0 then Some(from)
    else FirstFree(count, from + 1)
  }

  /// Number of blocks in use.
  function InUse(count: seq<nat>): nat {
    if count == [] then 0 else (if count[0] == 0 then 0 else 1) + InUse(count[1..])
  }

  lemma {:induction false} InUseAfter(count: seq<nat>, i: nat, c: nat)
    requires i < |count|
    ensures InUse(count[i := c]) + (if count[i] == 0 then 0 else 1) == InUse(count) + (if c == 0 then 0 else 1)
  {
    if i > 0 {
      InUseAfter(count[1..], i - 1, c);
      assert count[i := c][1..] == count[1..][i - 1 := c];
    }
  }

  /// A block is identified with its number; a pointer that is not the start of a block is any
  /// other integer.
  class Pool {
    const count: array<nat>

    constructor (num: nat)
      ensures count.Length == num && fresh(count)
      ensures forall i :: 0 <= i < num ==> count[i] == 0
    {
      count := new nat[num](_ => 0);
    }

    method Alloc() returns (r: Option<nat>)
      modifies count
      ensures r == FirstFree(old(count[..]), 0)
      ensures count[..] == if r.Some? then old(count[..])[r.value := 1] else old(count[..])
    {
      var i := 0;
      while i < count.Length
        invariant i <= count.Length && count[..] == old(count[..])
        invariant FirstFree(count[..], 0) == FirstFree(count[..], i)
      {
        if count[i] == 0 {
          count[i] := count[i] + 1;
          return Some(i);
        }
        i := i + 1;
      }
      r := None;
    }

    /// The new reference count of the block, or -1 for a pointer that is not a block.
    method Free(ptr: int) returns (r: int)
      modifies count
      ensures if 0 <= ptr < count.Length then
                && r == (if old(count[ptr]) > 0 then old(count[ptr]) - 1 else 0)
                && count[..] == old(count[..])[ptr := r]
              else r == -1 && count[..] == old(count[..])
    {
      var i := 0;
      while i < count.Length
        invariant 0 <= i <= count.Length && count[..] == old(count[..])
        invariant !(0 <= ptr < i)
      {
        if i == ptr {
          if count[i] > 0 {
            count[i] := count[i] - 1;
          }
          return count[i];
        }
        i := i + 1;
      }
      r := -1;
    }
  }
}
