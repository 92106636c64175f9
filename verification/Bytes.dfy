/** Machine integers and the little-endian byte encodings that every other module builds on. */
module Bytes {

  type byte = x: int | 0 <= x < 256
  type uint32 = x: int | 0 <= x < 0x1_0000_0000
  type uint64 = x: int | 0 <= x < 0x1_0000_0000_0000_0000

  const TWO32 := 0x1_0000_0000
  const TWO64 := 0x1_0000_0000_0000_0000

  type Bytes32 = s: seq<byte> | |s| == 32 witness seq(32, _ => 0)

  datatype Option<+T> = None | Some(value: T)
  datatype Result<+T, +E> = Ok(value: T) | Err(error: E)

  function Pow256(n: nat): (p: nat)
    ensures p > 0
  {
    if n == 0 then 1 else 256 * Pow256(n - 1)
  }

  /** The low `width` bytes of `v`, least significant first (binary.LittleEndian). */
  function LeBytes(width: nat, v: nat): (b: seq<byte>)
    ensures |b| == width
  {
    if width == 0 then [] else [v % 256] + LeBytes(width - 1, v / 256)
  }

  function Zeros(n: nat): (z: seq<byte>)
    ensures |z| == n
  {
    seq(n, _ => 0)
  }

  function LeValue(b: seq<byte>): nat {
    if b == [] then 0 else b[0] + 256 * LeValue(b[1..])
  }

  lemma {:induction false} LeValueBound(b: seq<byte>)
    ensures LeValue(b) < Pow256(|b|)
  {
    if b != [] {
      LeValueBound(b[1..]);
    }
  }

  /** Encoding and then decoding keeps the value whenever it fits the width. */
  lemma {:induction false} LeRoundTrip(width: nat, v: nat)
    requires v < Pow256(width)
    ensures LeValue(LeBytes(width, v)) == v
  {
    if width > 0 {
      LeRoundTrip(width - 1, v / 256);
    }
  }

  lemma Widths()
    ensures Pow256(4) == TWO32 && Pow256(8) == TWO64
  {
    assert Pow256(2) == 65536;
    assert Pow256(4) == 256 * (256 * Pow256(2));
    assert Pow256(6) == 256 * (256 * Pow256(4));
    assert Pow256(8) == 256 * (256 * Pow256(6));
  }

  lemma Le64RoundTrip(v: uint64)
    ensures LeValue(LeBytes(8, v)) == v
  {
    Widths();
    LeRoundTrip(8, v);
  }

  lemma Le32RoundTrip(v: uint32)
    ensures LeValue(LeBytes(4, v)) == v
  {
    Widths();
    LeRoundTrip(4, v);
  }

  predicate Splits(v: nat, i: nat, digit: byte, low: nat, high: nat) {
    low < Pow256(i) && v == low + Pow256(i) * (digit + 256 * high)
  }

  /** `digit` is the i-th digit of `v` to base 256, between lower and higher ones. */
  ghost predicate IsDigit256(v: nat, i: nat, digit: byte) {
    exists low, high :: Splits(v, i, digit, low, high)
  }

  lemma FirstDigit(v: nat)
    ensures IsDigit256(v, 0, v % 256)
  {
    assert Splits(v, 0, v % 256, 0, v / 256);
  }

  lemma Lifted(p: nat, low: nat, rest: nat, r: nat)
    requires low < p && r < 256
    ensures 256 * low + r < 256 * p
    ensures 256 * (low + p * rest) + r == (256 * low + r) + (256 * p) * rest
  {
    assert 256 * (p * rest) == (256 * p) * rest;
  }

  lemma NextDigit(v: nat, i: nat, digit: byte)
    requires IsDigit256(v / 256, i, digit)
    ensures IsDigit256(v, i + 1, digit)
  {
    var low: nat, high: nat :| Splits(v / 256, i, digit, low, high);
    Lifted(Pow256(i), low, digit + 256 * high, v % 256);
    assert Splits(v, i + 1, digit, 256 * low + v % 256, high);
  }

  /** The i-th byte is the i-th digit to base 256, the least significant one first. */
  lemma {:induction false} LeDigits(width: nat, v: nat, i: nat)
    requires i < width
    ensures IsDigit256(v, i, LeBytes(width, v)[i])
  {
    if i == 0 {
      FirstDigit(v);
    } else {
      LeDigits(width - 1, v / 256, i - 1);
      NextDigit(v, i - 1, LeBytes(width, v)[i]);
    }
  }
}
