/** The two byte comparisons: the UI's, and the admin token's, which folds the lengths in. */
module ConstantTime {

  type Byte = bv8

  /** `*a.get(i).unwrap_or(&0)` */
  function At(a: seq<Byte>, i: nat): Byte {
    if i < |a| then a[i] else 0
  }

  /** ui.rs: true exactly for equal byte strings. */
  method UiEq(a: seq<Byte>, b: seq<Byte>) returns (eq: bool)
    ensures eq <==> a == b
  {
    if |a| != |b| { return false; }
    var diff: Byte := 0;
    for i := 0 to |a|
      invariant diff == 0 <==> a[..i] == b[..i]
    {
      assert a[..i + 1] == a[..i] + [a[i]] && b[..i + 1] == b[..i] + [b[i]];
      diff := Accumulate(diff, a[i], b[i]);
    }
    assert a[..|a|] == a && b[..|b|] == b;
    eq := diff == 0;
  }

  /** `diff |= x ^ y`: the accumulator stays zero exactly while no difference has been seen. */
  method Accumulate(diff: Byte, x: Byte, y: Byte) returns (d: Byte)
    ensures d == 0 <==> diff == 0 && x == y
  {
    d := diff | (x ^ y);
  }

  /** `n as u8`: the cast keeps the low byte. */
  function LowByte(n: nat): Byte { (n % 256) as Byte }

  /** `m ^ n` on lengths, bit by bit from the lowest. */
  function Xor(m: nat, n: nat): nat {
    if m == 0 && n == 0 then 0 else 2 * Xor(m / 2, n / 2) + if m % 2 == n % 2 then 0 else 1
  }

  /** The cut of the lengths' exclusive or is zero exactly when the lengths agree modulo 256. */
  lemma CutLengths(m: nat, n: nat)
    ensures LowByte(Xor(m, n)) == 0 <==> m % 256 == n % 256
  {
    XorLow(m, n, 256);
    ZeroByte(Xor(m, n) % 256);
  }

  const POWERS := {1, 2, 4, 8, 16, 32, 64, 128, 256}

  lemma {:induction false} XorLow(m: nat, n: nat, p: nat)
    requires p in POWERS
    ensures Xor(m, n) % p == 0 <==> m % p == n % p
    decreases p
  {
    if p > 1 {
      XorLow(m / 2, n / 2, p / 2);
      Doubled(m, p / 2);
      Doubled(n, p / 2);
      Doubled(Xor(m, n), p / 2);
    }
  }

  /** The low bits of a number are its lowest bit and the low bits of its half. */
  lemma Doubled(x: nat, p: nat)
    requires 0 < p
    ensures x % (2 * p) == 2 * (x / 2 % p) + x % 2
  {
    var k, r := x / 2 / p, 2 * (x / 2 % p) + x % 2;
    assert x == 2 * p * k + r;
    Remainder(x, 2 * p, k, r);
  }

  lemma Remainder(x: nat, d: nat, k: nat, r: nat)
    requires 0 < d && x == d * k + r && r < d
    ensures x % d == r
  {
    var q := x / d;
    assert d * (q - k) == r - x % d by { assert x == d * q + x % d; }
    Multiple(d, q - k);
  }

  lemma Multiple(d: nat, j: int)
    requires 0 < d
    ensures (j >= 1 ==> d * j >= d) && (j <= -1 ==> d * j + d <= 0)
  { }

  lemma ZeroByte(k: nat)
    requires k < 256
    ensures k as Byte == 0 <==> k == 0
  { }

  /** What the admin comparison accepts: equal zero-padded buffers, and lengths equal modulo 256. */
  ghost predicate PaddedEqual(a: seq<Byte>, b: seq<Byte>) {
    |a| % 256 == |b| % 256 && forall i: nat :: At(a, i) == At(b, i)
  }

  /** admin.rs: the length difference, cut to its low byte (`CutLengths`), starts the accumulator. */
  method AdminEq(a: seq<Byte>, b: seq<Byte>) returns (eq: bool)
    ensures eq <==> PaddedEqual(a, b)
  {
    var len := if |a| >= |b| then |a| else |b|;
    var diff := LowByte(Xor(|a|, |b|));
    CutLengths(|a|, |b|);
    for i := 0 to len
      invariant diff == 0 <==> |a| % 256 == |b| % 256 && forall k: nat | k < i :: At(a, k) == At(b, k)
    {
      diff := Accumulate(diff, At(a, i), At(b, i));
    }
    eq := diff == 0;
  }

  /** "Mismatched-length inputs always return false" does not hold: 256 zero bytes pass for none at all. */
  lemma MismatchedLengthsAccepted()
    ensures exists a: seq<Byte>, b: seq<Byte> :: |a| != |b| && PaddedEqual(a, b)
  {
    var zeros: seq<Byte> := seq(256, _ => 0);
    assert PaddedEqual(zeros, []);
  }

  /** `longer` is `shorter` followed by one or more blocks of 256 zero bytes. */
  ghost predicate ZeroExtends(longer: seq<Byte>, shorter: seq<Byte>) {
    && |shorter| < |longer| && (|longer| - |shorter|) % 256 == 0
    && longer[..|shorter|] == shorter && forall i | |shorter| <= i < |longer| :: longer[i] == 0
  }

  /** The comparison is equality except on such pairs; so it is equality whenever both buffers are under
      256 bytes, or neither holds a zero byte. The second clause covers the one caller: a header value read
      with `to_str` and an environment variable hold no zero byte, so the endpoint itself never meets an
      exception. */
  lemma AdminEqExactly(a: seq<Byte>, b: seq<Byte>)
    ensures PaddedEqual(a, b) <==> a == b || ZeroExtends(a, b) || ZeroExtends(b, a)
    ensures (|a| < 256 && |b| < 256) || (0 !in a && 0 !in b) ==> (PaddedEqual(a, b) <==> a == b)
  {
    if |a| >= |b| { Padded(a, b); } else { Padded(b, a); }
    PaddedSymmetric(a, b);
  }

  lemma PaddedSymmetric(a: seq<Byte>, b: seq<Byte>)
    ensures PaddedEqual(a, b) <==> PaddedEqual(b, a)
  { }

  lemma Padded(a: seq<Byte>, b: seq<Byte>)
    requires |a| >= |b|
    ensures PaddedEqual(a, b) <==> a == b || ZeroExtends(a, b)
    ensures ZeroExtends(a, b) ==> |a| >= 256 && 0 in a
  {
    if PaddedEqual(a, b) {
      forall i: nat | i < |a| ensures a[i] == At(b, i) { assert At(a, i) == At(b, i); }
      if |a| == |b| { assert a == b; } else { assert a[..|b|] == b; }
    }
    if ZeroExtends(a, b) {
      assert a[|b|] == 0;
      assert forall i | 0 <= i < |b| :: a[i] == a[..|b|][i];
    }
  }
}
