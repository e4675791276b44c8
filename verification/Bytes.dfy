/** Bytes, and the numbers they stand for in little-endian and big-endian order. */
module Bytes {

  type byte = x: int | 0 <= x < 256
  type bytes = seq<byte>

  function Pow256(k: nat): (p: nat)
    ensures p >= 1
  {
    if k == 0 then 1 else 256 * Pow256(k - 1)
  }

  lemma {:induction false} Pow256Monotonic(j: nat, k: nat)
    requires j <= k
    ensures Pow256(j) <= Pow256(k)
    decreases k
  {
    if j < k {
      Pow256Monotonic(j, k - 1);
    }
  }

  /** The number a little-endian byte string stands for. */
  function LE(s: bytes): (n: nat)
  {
    if s == [] then 0 else s[0] + 256 * LE(s[1..])
  }

  /** The `k` lowest base-256 digits of `n`, least significant first; a negative
      `n` contributes its two's complement, since `/` and `%` floor here. */
  function Digits(n: int, k: nat): (s: bytes)
    ensures |s| == k
    decreases k
  {
    if k == 0 then [] else [n % 256] + Digits(n / 256, k - 1)
  }

  function Reversed<T>(s: seq<T>): (r: seq<T>)
    ensures |r| == |s|
    ensures forall i :: 0 <= i < |s| ==> r[i] == s[|s| - 1 - i]
  {
    seq(|s|, i requires 0 <= i < |s| => s[|s| - 1 - i])
  }

  lemma ReversedTwice<T>(s: seq<T>)
    ensures Reversed(Reversed(s)) == s
  {
  }

  lemma {:induction false} LEBound(s: bytes)
    ensures LE(s) < Pow256(|s|)
  {
    if s != [] {
      LEBound(s[1..]);
    }
  }

  /** Digits are the base-256 expansion: `n` modulo `256^k`. */
  lemma {:induction false} LEDigits(n: nat, k: nat)
    requires n < Pow256(k)
    ensures LE(Digits(n, k)) == n
  {
    if k != 0 {
      LEDigits(n / 256, k - 1);
      assert Digits(n, k)[1..] == Digits(n / 256, k - 1);
    }
  }

  lemma {:induction false} DigitsLE(s: bytes)
    ensures Digits(LE(s), |s|) == s
  {
    if s != [] {
      DigitsLE(s[1..]);
      assert s == [s[0]] + s[1..];
    }
  }

  /** A byte string is determined by its length and its number. */
  lemma LEInjective(a: bytes, b: bytes)
    requires |a| == |b| && LE(a) == LE(b)
    ensures a == b
  {
    DigitsLE(a);
    DigitsLE(b);
  }

  lemma {:induction false} LEAppendZero(s: bytes)
    ensures LE(s + [0]) == LE(s)
  {
    if s != [] {
      assert (s + [0])[1..] == s[1..] + [0];
      LEAppendZero(s[1..]);
    } else {
      assert s + [0] == [0];
    }
  }

  function Zeros(n: nat): (z: bytes)
    ensures |z| == n
    ensures forall i :: 0 <= i < n ==> z[i] == 0
  {
    seq(n, i => 0)
  }

  lemma {:induction false} LEZeros(s: bytes, n: nat)
    ensures LE(s + Zeros(n)) == LE(s)
    decreases n
  {
    if n == 0 {
      assert s + Zeros(0) == s;
    } else {
      assert s + Zeros(n) == (s + Zeros(n - 1)) + [0];
      LEAppendZero(s + Zeros(n - 1));
      LEZeros(s, n - 1);
    }
  }

  /** The top byte of a byte string decides how large its number is at least. */
  lemma {:induction false} LETopByte(s: bytes)
    requires s != [] && s[|s| - 1] != 0
    ensures LE(s) >= Pow256(|s| - 1)
  {
    if |s| > 1 {
      LETopByte(s[1..]);
    }
  }

  /** The least number of bytes, at least one, that hold `n`. */
  function Width(n: nat): (w: nat)
    ensures w >= 1
  {
    if n < 256 then 1 else 1 + Width(n / 256)
  }

  /** `Width` is the least size that fits. */
  lemma {:induction false} WidthLeast(n: nat, k: nat)
    requires k >= 1
    ensures Width(n) <= k <==> n < Pow256(k)
    decreases n
  {
    if n < 256 {
      Pow256Monotonic(1, k);
      assert Pow256(1) == 256 * Pow256(0);
    } else if k == 1 {
      assert Pow256(1) == 256 * Pow256(0);
    } else {
      WidthLeast(n / 256, k - 1);
    }
  }

  /** Digits beyond the width are zeros. */
  lemma {:induction false} DigitsPadded(n: nat, k: nat, m: nat)
    requires n < Pow256(k) && k <= m
    ensures Digits(n, m) == Digits(n, k) + Zeros(m - k)
  {
    LEDigits(n, k);
    LEZeros(Digits(n, k), m - k);
    Pow256Monotonic(k, m);
    LEDigits(n, m);
    LEInjective(Digits(n, m), Digits(n, k) + Zeros(m - k));
  }
}
