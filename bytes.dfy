// Bytes, optional values and the unsigned big-endian reading of a byte string,
// shared by the crypto codecs and the stream model.
module Bytes {

  /** An octet. Java's signed `byte` is read here by its bit pattern, 0..255. */
  newtype byte = x: int | 0 <= x < 256

  datatype Option<+T> = None | Some(value: T)

  function Min(a: int, b: int): int { if a <= b then a else b }

  /** 256^k */
  function Pow256(k: nat): (r: nat)
    ensures r >= 1
  {
    if k == 0 then 1 else 256 * Pow256(k - 1)
  }

  /** The unsigned big-endian value of `s`: the last byte is the least significant. */
  function Unsigned(s: seq<byte>): (n: nat)
  {
    if s == [] then 0 else Unsigned(s[..|s| - 1]) * 256 + s[|s| - 1] as int
  }

  lemma {:induction false} UnsignedBound(s: seq<byte>)
    ensures Unsigned(s) < Pow256(|s|)
  {
    if s != [] {
      UnsignedBound(s[..|s| - 1]);
    }
  }

  /** A byte put in front weighs 256^|s|. */
  lemma {:induction false} UnsignedCons(x: byte, s: seq<byte>)
    ensures Unsigned([x] + s) == x as int * Pow256(|s|) + Unsigned(s)
  {
    if s != [] {
      var t := [x] + s;
      var init := s[..|s| - 1];
      var last := s[|s| - 1] as int;
      assert t[..|t| - 1] == [x] + init && t[|t| - 1] as int == last;
      UnsignedCons(x, init);
      assert Unsigned(t) == Unsigned([x] + init) * 256 + last;
      assert Unsigned([x] + init) * 256 == x as int * Pow256(|init|) * 256 + Unsigned(init) * 256;
      assert x as int * Pow256(|init|) * 256 == x as int * Pow256(|s|);
    }
  }

  /** Leading zero bytes do not change the value. */
  lemma {:induction false} UnsignedLeadingZeros(z: nat, s: seq<byte>)
    ensures Unsigned(seq(z, _ => 0 as byte) + s) == Unsigned(s)
  {
    var zs := seq(z, _ => 0 as byte);
    if z == 0 {
      assert zs + s == s;
    } else {
      var zs' := seq(z - 1, _ => 0 as byte);
      assert zs == [0 as byte] + zs';
      assert zs + s == [0 as byte] + (zs' + s);
      UnsignedCons(0, zs' + s);
      UnsignedLeadingZeros(z - 1, s);
    }
  }

  lemma {:induction false} Pow256Monotone(j: nat, k: nat)
    requires j <= k
    ensures Pow256(j) <= Pow256(k)
  {
    if j < k {
      Pow256Monotone(j, k - 1);
    }
  }

  /** A byte string whose first byte is not zero is at least 256^(|s|-1). */
  lemma UnsignedLowerBound(s: seq<byte>)
    requires s != [] && s[0] != 0
    ensures Pow256(|s| - 1) <= Unsigned(s)
  {
    UnsignedCons(s[0], s[1..]);
    assert s == [s[0]] + s[1..];
  }
}
