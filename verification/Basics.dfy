/// Small vocabulary shared by the other modules.

module Basics {
  datatype Option<+T> = None | Some(value: T)

  /// One octet of packet, buffer or stream data.
  type Byte = b: int | 0 <= b < 256

  /// A `u16_t`.
  type Word = w: int | 0 <= w < 0x1_0000

  const TWO32: nat := 0x1_0000_0000

  /// The representative of `x` in the range of an unsigned integer type.
  function Reduce(modulus: nat, x: int): (r: nat)
    requires modulus > 0
    ensures r < modulus
    ensures 0 <= x < modulus ==> r == x
    decreases if 0 <= x < modulus then 0 else if x < 0 then modulus - x else x
  {
    if x < 0 then Reduce(modulus, x + modulus) else if x >= modulus then Reduce(modulus, x - modulus) else x
  }

  /// `htons` on the little-endian machine.
  function Htons(w: Word): Word {
    w % 256 * 256 + w / 256
  }

  function Min(a: int, b: int): int {
    if a <= b then a else b
  }

  /// Conversions to the `u8_t` and `signed char` of the C code, wrapping around.
  function U8(x: int): (r: nat)
    ensures r < 256
    ensures 0 <= x < 256 ==> r == x
    decreases if 0 <= x < 256 then 0 else if x < 0 then 1 - x else x
  {
    if x < 0 then U8(x + 256) else if x >= 256 then U8(x - 256) else x
  }

  function S8(x: int): (r: int)
    ensures -128 <= r < 128
    ensures -128 <= x < 128 ==> r == x
    decreases if -128 <= x < 128 then 0 else if x < 0 then 1 - x else x
  {
    if x < -128 then S8(x + 256) else if x >= 128 then S8(x - 256) else x
  }

  function Flatten(ss: seq<seq<Byte>>): seq<Byte> {
    if ss == [] then [] else ss[0] + Flatten(ss[1..])
  }

  lemma FlattenOne(s: seq<Byte>)
    ensures Flatten([s]) == s
  {
  }

  lemma Associative(a: seq<Byte>, b: seq<Byte>, c: seq<Byte>)
    ensures (a + b) + c == a + (b + c)
  {
  }

  lemma {:induction false} FlattenSnoc(ss: seq<seq<Byte>>, s: seq<Byte>)
    ensures Flatten(ss + [s]) == Flatten(ss) + s
  {
    if ss == [] {
      assert Flatten([s]) == s;
    } else {
      FlattenSnoc(ss[1..], s);
      assert (ss + [s])[1..] == ss[1..] + [s];
      assert ss[0] + (Flatten(ss[1..]) + s) == (ss[0] + Flatten(ss[1..])) + s;
    }
  }

  lemma SubsetIsSmaller<T>(a: set<T>, b: set<T>)
    requires a <= b
    ensures |a| <= |b| && (|a| == |b| <==> a == b)
  {
    assert b == a + (b - a);
    assert |b| == |a| + |b - a|;
    if |a| == |b| {
      assert b - a == {};
    }
  }
}
