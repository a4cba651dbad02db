/** Byte strings, fixed-width integers and the wrap-around arithmetic of
    machine integers. */
module Bytes {

  type byte = x: int | 0 <= x < 256
  type Bytes = seq<byte>

  const TWO_16: int := 0x1_0000
  const TWO_32: int := 0x1_0000_0000
  const TWO_64: int := 0x1_0000_0000_0000_0000
  const MAX_INT64: int := 0x7fff_ffff_ffff_ffff

  type uint16 = x: int | 0 <= x < 0x1_0000
  type uint32 = x: int | 0 <= x < 0x1_0000_0000
  type uint64 = x: int | 0 <= x < 0x1_0000_0000_0000_0000
  type int64 = x: int | -0x8000_0000_0000_0000 <= x < 0x8000_0000_0000_0000

  function Wrap32(x: nat): uint32 { x % TWO_32 }

  lemma Wrap32Add(a: nat, b: nat)
    ensures Wrap32(Wrap32(a) + b) == Wrap32(a + b)
  {
  }

  lemma Wrap32Id(x: uint32)
    ensures Wrap32(x) == x
  {
  }

  function Wrap64(x: nat): uint64 { x % TWO_64 }

  /** Conversion of an int64 to uint64 and back: two's complement. */
  function ToUint64(x: int64): uint64 { if x < 0 then x + TWO_64 else x }

  function ToInt64(x: uint64): int64 { if x > MAX_INT64 then x - TWO_64 else x }

  /** An integer result in int64 arithmetic, which wraps. */
  function WrapInt64(x: int): int64 { (x + 0x8000_0000_0000_0000) % TWO_64 - 0x8000_0000_0000_0000 }

  function Pow256(n: nat): (p: nat)
    ensures p > 0
  {
    if n == 0 then 1 else 256 * Pow256(n - 1)
  }

  /** The n low-order bytes of v, least significant first. */
  function LE(v: nat, n: nat): (s: Bytes)
    ensures |s| == n
    decreases n
  {
    if n == 0 then [] else [v % 256] + LE(v / 256, n - 1)
  }

  function FromLE(s: Bytes): (v: nat)
  {
    if s == [] then 0 else s[0] + 256 * FromLE(s[1..])
  }

  lemma {:induction false} LERoundTrip(v: nat, n: nat)
    requires v < Pow256(n)
    ensures FromLE(LE(v, n)) == v
    decreases n
  {
    if n > 0 {
      LERoundTrip(v / 256, n - 1);
      assert LE(v, n)[1..] == LE(v / 256, n - 1);
    }
  }

  lemma {:induction false} FromLEBound(s: Bytes)
    ensures FromLE(s) < Pow256(|s|)
  {
    if s != [] {
      FromLEBound(s[1..]);
    }
  }

  lemma Widths()
    ensures Pow256(2) == TWO_16 && Pow256(4) == TWO_32 && Pow256(8) == TWO_64
  {
    assert Pow256(1) == 256 * Pow256(0);
    assert Pow256(3) == 256 * Pow256(2);
    assert Pow256(5) == 256 * Pow256(4);
    assert Pow256(6) == 256 * Pow256(5);
    assert Pow256(7) == 256 * Pow256(6);
  }

  lemma LE2(v: uint16)
    ensures FromLE(LE(v, 2)) == v
  {
    Widths();
    LERoundTrip(v, 2);
  }

  lemma LE4(v: uint32)
    ensures FromLE(LE(v, 4)) == v
  {
    Widths();
    LERoundTrip(v, 4);
  }

  lemma LE8(v: uint64)
    ensures FromLE(LE(v, 8)) == v
  {
    Widths();
    LERoundTrip(v, 8);
  }

  function Uint16(s: Bytes): (v: uint16)
    requires |s| == 2
  {
    Widths();
    FromLEBound(s);
    FromLE(s)
  }

  function Uint32(s: Bytes): (v: uint32)
    requires |s| == 4
  {
    Widths();
    FromLEBound(s);
    FromLE(s)
  }

  function Uint64(s: Bytes): (v: uint64)
    requires |s| == 8
  {
    Widths();
    FromLEBound(s);
    FromLE(s)
  }

  /** Big-endian order, used by the encryption layer. */
  function BE(v: nat, n: nat): (s: Bytes)
    ensures |s| == n
    decreases n
  {
    if n == 0 then [] else BE(v / 256, n - 1) + [v % 256]
  }

  lemma {:induction false} BEInjective(v: nat, w: nat, n: nat)
    requires v < Pow256(n) && w < Pow256(n)
    requires BE(v, n) == BE(w, n)
    ensures v == w
    decreases n
  {
    if n > 0 {
      assert BE(v, n)[..n - 1] == BE(v / 256, n - 1);
      assert BE(w, n)[..n - 1] == BE(w / 256, n - 1);
      assert BE(v, n)[n - 1] == v % 256;
      assert BE(w, n)[n - 1] == w % 256;
      BEInjective(v / 256, w / 256, n - 1);
    }
  }

  /** Concatenation of a list of byte strings. */
  function Concat(parts: seq<Bytes>): (s: Bytes)
  {
    if parts == [] then [] else parts[0] + Concat(parts[1..])
  }

  lemma ConcatNil()
    ensures Concat([]) == []
  {
  }

  lemma {:induction false} ConcatAppend(parts: seq<Bytes>, more: seq<Bytes>)
    ensures Concat(parts + more) == Concat(parts) + Concat(more)
  {
    if parts == [] {
      assert parts + more == more;
    } else {
      assert (parts + more)[1..] == parts[1..] + more;
      ConcatAppend(parts[1..], more);
    }
  }

  lemma ConcatSnoc(parts: seq<Bytes>, p: Bytes)
    ensures Concat(parts + [p]) == Concat(parts) + p
  {
    ConcatAppend(parts, [p]);
    assert [p][1..] == [];
  }

  datatype Option<+T> = None | Some(value: T)
}
