/** Numbers as bytes: channel/utils.go and the number conversions of connector/serialize.go. */
module Encoding {
  import opened Bytes

  const NONCE_LEN := 32
  const NONCE_LIMIT := 0x1_00000000_00000000_00000000_00000000_00000000_00000000_00000000_00000000  // 256^32
  const MAX_BALANCE := 0x4000_0000

  // ---- Minimal encodings ----

  /** big.Int.Bytes: big-endian, no leading zero, empty for zero. */
  function BeBytes(v: nat): seq<byte> {
    if v == 0 then [] else BeBytes(v / 256) + [v % 256]
  }

  function BeValue(b: seq<byte>): nat {
    if b == [] then 0 else 256 * BeValue(b[..|b| - 1]) + b[|b| - 1]
  }

  /** The little-endian digits of `v` without trailing zeros. */
  function MinLe(v: nat): seq<byte> {
    if v == 0 then [] else [v % 256] + MinLe(v / 256)
  }

  lemma {:induction false} MinLeMirrorsBe(v: nat)
    ensures |MinLe(v)| == |BeBytes(v)|
    ensures forall k :: 0 <= k < |MinLe(v)| ==> MinLe(v)[k] == BeBytes(v)[|MinLe(v)| - 1 - k]
  {
    if v > 0 {
      MinLeMirrorsBe(v / 256);
    }
  }

  /** Reverses the library's big-endian bytes in place. */
  method BigToLittleEndianBytes(v: nat) returns (bytes: array<byte>)
    ensures fresh(bytes) && bytes[..] == MinLe(v)
  {
    var be := BeBytes(v);
    bytes := new byte[|be|](k requires 0 <= k < |be| => be[k]);
    var i, j := 0, bytes.Length - 1;
    while i < j
      invariant i + j == |be| - 1 && 0 <= i <= j + 1
      invariant forall k :: 0 <= k < i || j < k < |be| ==> bytes[k] == be[|be| - 1 - k]
      invariant forall k :: i <= k <= j ==> bytes[k] == be[k]
    {
      bytes[i], bytes[j] := bytes[j], bytes[i];
      i, j := i + 1, j - 1;
    }
    MinLeMirrorsBe(v);
  }

  /** What the method returns is the only byte string with that value and no trailing zero. */
  lemma {:induction false} MinLeUnique(b: seq<byte>, v: nat)
    ensures b == MinLe(v) <==> LeValue(b) == v && (b != [] ==> b[|b| - 1] != 0)
  {
    if b == [] {
    } else if |b| == 1 {
      assert b[1..] == [];
      if v > 0 { MinLeUnique([], v / 256); }
    } else {
      assert b == [b[0]] + b[1..];
      MinLeUnique(b[1..], v / 256);
      if b == MinLe(v) {
        assert b[1..] == MinLe(v / 256);
      }
      if LeValue(b) == v && b[|b| - 1] != 0 {
        MinLeUnique(b[1..], LeValue(b[1..]));
        assert v / 256 == LeValue(b[1..]);
      }
    }
  }

  /** Its i-th byte is the i-th digit to base 256. */
  lemma {:induction false} MinLeDigits(v: nat, i: nat)
    requires i < |MinLe(v)|
    ensures IsDigit256(v, i, MinLe(v)[i])
  {
    if i == 0 {
      FirstDigit(v);
    } else {
      MinLeDigits(v / 256, i - 1);
      NextDigit(v, i - 1, MinLe(v)[i]);
    }
  }

  lemma {:induction false} WidthBound(v: nat, n: nat)
    ensures |MinLe(v)| <= n <==> v < Pow256(n)
  {
    if v > 0 && n > 0 {
      WidthBound(v / 256, n - 1);
    }
  }

  /** An accepted balance takes at most four bytes on the wire. */
  lemma BalanceWidth(b: nat)
    requires b <= MAX_BALANCE
    ensures |MinLe(b)| <= 4
  {
    Widths();
    WidthBound(b, 4);
  }

  // ---- Nonces ----

  /** MakeNonce: the minimal big-endian bytes, copied to the left end of a 32-byte array. */
  function MakeNonce(n: int): Option<seq<byte>> {
    if n <= 0 || n >= NONCE_LIMIT then None
    else
      var b := BeBytes(n);
      NonceFits(n);
      Some(b + Zeros(NONCE_LEN - |b|))
  }

  lemma NonceLimit()
    ensures Pow256(NONCE_LEN) == NONCE_LIMIT
  {
    Widths();
    PowAdd(8, 8);
    PowAdd(16, 16);
  }

  lemma NonceFits(n: nat)
    ensures |BeBytes(n)| <= NONCE_LEN <==> n < NONCE_LIMIT
  {
    MinLeMirrorsBe(n);
    WidthBound(n, NONCE_LEN);
    NonceLimit();
  }

  lemma {:induction false} BeRoundTrip(v: nat)
    ensures BeValue(BeBytes(v)) == v
  {
    if v > 0 {
      BeRoundTrip(v / 256);
      assert BeBytes(v)[..|BeBytes(v)| - 1] == BeBytes(v / 256);
    }
  }

  lemma {:induction false} BeShift(b: seq<byte>, k: nat)
    ensures BeValue(b + Zeros(k)) == BeValue(b) * Pow256(k)
  {
    if k == 0 {
      assert b + Zeros(0) == b;
    } else {
      BeShift(b, k - 1);
      assert (b + Zeros(k))[..|b| + k - 1] == b + Zeros(k - 1);
    }
  }

  lemma {:induction false} PowAdd(m: nat, n: nat)
    ensures Pow256(m + n) == Pow256(m) * Pow256(n)
  {
    if m > 0 {
      PowAdd(m - 1, n);
    }
  }

  lemma ShiftOnce(w: nat)
    requires w > 0
    ensures BeBytes(w * 256) == BeBytes(w) + [0]
  {
    assert w * 256 / 256 == w && w * 256 % 256 == 0;
  }

  lemma {:induction false} ShiftedBytes(v: nat, k: nat)
    requires v > 0
    ensures v * Pow256(k) > 0 && BeBytes(v * Pow256(k)) == BeBytes(v) + Zeros(k)
    decreases k
  {
    if k == 0 {
      assert BeBytes(v) + Zeros(0) == BeBytes(v);
    } else {
      var w := v * Pow256(k - 1);
      ShiftedBytes(v, k - 1);
      assert v * Pow256(k) == w * 256;
      ShiftOnce(w);
      assert BeBytes(v) + Zeros(k) == BeBytes(v) + Zeros(k - 1) + [0];
    }
  }

  /** Read as a big-endian number, the array is the nonce shifted to the top of the 32 bytes. */
  lemma NonceValue(n: int)
    requires MakeNonce(n).Some?
    ensures |BeBytes(n)| <= NONCE_LEN
    ensures BeValue(MakeNonce(n).value) == n * Pow256(NONCE_LEN - |BeBytes(n)|)
  {
    NonceFits(n);
    BeRoundTrip(n);
    BeShift(BeBytes(n), NONCE_LEN - |BeBytes(n)|);
  }

  lemma Cancel(a: nat, b: nat, p: nat)
    requires p > 0
    ensures a * p == b * p ==> a == b
  {
    if a < b {
      assert a * p < b * p;
    } else if a > b {
      assert a * p > b * p;
    }
  }

  lemma CancelPower(a: nat, b: nat, k: nat, r: nat)
    requires a * Pow256(r) == b * Pow256(k + r)
    ensures a == b * Pow256(k)
  {
    var p, q := Pow256(r), b * Pow256(k);
    PowAdd(k, r);
    assert a * p == q * p;
    Cancel(a, q, p);
  }

  ghost predicate PowerMultiple(a: nat, b: nat) {
    exists k: nat :: a == b * Pow256(k)
  }

  lemma SameNonceEquation(a: int, b: int)
    requires MakeNonce(a).Some? && MakeNonce(a) == MakeNonce(b)
    ensures |BeBytes(a)| <= NONCE_LEN && |BeBytes(b)| <= NONCE_LEN
    ensures a * Pow256(NONCE_LEN - |BeBytes(a)|) == b * Pow256(NONCE_LEN - |BeBytes(b)|)
  {
    NonceValue(a);
    NonceValue(b);
  }

  lemma SameNonceIsMultiple(a: int, b: int)
    requires MakeNonce(a).Some? && MakeNonce(a) == MakeNonce(b) && |BeBytes(a)| >= |BeBytes(b)|
    ensures a == b * Pow256(|BeBytes(a)| - |BeBytes(b)|)
  {
    SameNonceEquation(a, b);
    CancelPower(a, b, |BeBytes(a)| - |BeBytes(b)|, NONCE_LEN - |BeBytes(a)|);
  }

  lemma MultipleHasSameNonce(a: int, b: int, k: nat)
    requires MakeNonce(a).Some? && MakeNonce(b).Some? && a == b * Pow256(k)
    ensures MakeNonce(a) == MakeNonce(b)
  {
    ShiftedBytes(b, k);
    NonceFits(a);
    NonceFits(b);
    var s := NONCE_LEN - |BeBytes(b)| - k;
    assert Zeros(k) + Zeros(s) == Zeros(k + s);
    assert BeBytes(b) + Zeros(k) + Zeros(s) == BeBytes(b) + (Zeros(k) + Zeros(s));
  }

  lemma CollisionIsMultiple(a: int, b: int)
    requires MakeNonce(a).Some? && MakeNonce(a) == MakeNonce(b)
    ensures PowerMultiple(a, b) || PowerMultiple(b, a)
    ensures |BeBytes(a)| == |BeBytes(b)| ==> a == b
  {
    assert Pow256(0) == 1;
    if |BeBytes(a)| >= |BeBytes(b)| {
      SameNonceIsMultiple(a, b);
    } else {
      SameNonceIsMultiple(b, a);
    }
  }

  lemma MultipleCollides(a: int, b: int)
    requires MakeNonce(a).Some? && MakeNonce(b).Some? && PowerMultiple(a, b)
    ensures MakeNonce(a) == MakeNonce(b)
  {
    var k: nat :| a == b * Pow256(k);
    MultipleHasSameNonce(a, b, k);
  }

  /** The array does not determine the nonce: two nonces in range collide exactly when one is the
      other times a power of 256. Nonces of equal byte length never collide. */
  lemma NonceCollision(a: int, b: int)
    requires MakeNonce(a).Some? && MakeNonce(b).Some?
    ensures MakeNonce(a) == MakeNonce(b) <==> PowerMultiple(a, b) || PowerMultiple(b, a)
    ensures MakeNonce(a) == MakeNonce(b) && |BeBytes(a)| == |BeBytes(b)| ==> a == b
  {
    if MakeNonce(a) == MakeNonce(b) {
      CollisionIsMultiple(a, b);
    }
    if PowerMultiple(a, b) {
      MultipleCollides(a, b);
    }
    if PowerMultiple(b, a) {
      MultipleCollides(b, a);
    }
  }
}
