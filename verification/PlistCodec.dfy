/** The number encodings of binary property lists: stripping and padding of null
    bytes, integer records, and their readers. Little-endian host. */
module PlistCodec {
  import opened Arithmetic
  import opened Bytes

  const TWO63: int := 0x8000_0000_0000_0000
  const TWO64: int := 0x1_0000_0000_0000_0000

  type int64 = x: int | -TWO63 <= x < TWO63

  /** The two's complement reading of `n` in `k` bytes. */
  function Signed(n: int, k: nat): (v: int)
    ensures -(Pow256(k) as int) <= 2 * v < Pow256(k)
  {
    var m := n % Pow256(k);
    if 2 * m < Pow256(k) then m else m - Pow256(k)
  }

  lemma Pow256Values()
    ensures Pow256(0) == 1 && Pow256(1) == 0x100 && Pow256(2) == 0x1_0000
    ensures Pow256(4) == 0x1_0000_0000 && Pow256(8) == TWO64
  {
    assert Pow256(1) == 256 * Pow256(0);
    assert Pow256(2) == 256 * Pow256(1);
    assert Pow256(3) == 256 * Pow256(2);
    assert Pow256(4) == 256 * Pow256(3);
    assert Pow256(5) == 256 * Pow256(4);
    assert Pow256(6) == 256 * Pow256(5);
    assert Pow256(7) == 256 * Pow256(6);
    assert Pow256(8) == 256 * Pow256(7);
  }

  // --- regulateNullBytes ---

  function Stripped(s: bytes, minBytes: nat): (r: bytes)
  {
    if |s| > minBytes && s[|s| - 1] == 0 then Stripped(s[..|s| - 1], minBytes) else s
  }

  /** What `regulateNullBytes` returns: high null bytes dropped down to `minBytes`,
      then null bytes added up to `minBytes`. */
  function Regulated(s: bytes, minBytes: nat): (r: bytes)
  {
    var t := Stripped(s, minBytes);
    if |t| < minBytes then t + Zeros(minBytes - |t|) else t
  }

  method RegulateNullBytes(origBytes: bytes, minBytes: nat) returns (r: bytes)
    requires origBytes != []
    requires minBytes >= 1
    ensures r == Regulated(origBytes, minBytes)
  {
    r := origBytes;
    while r[|r| - 1] == 0 && |r| > minBytes
      invariant r != []
      invariant Stripped(r, minBytes) == Stripped(origBytes, minBytes)
    {
      r := r[..|r| - 1];
    }
    ghost var t := r;
    while |r| < minBytes
      invariant |t| <= |r| && (|r| <= minBytes || r == t)
      invariant r == t + Zeros(|r| - |t|)
    {
      r := r + [0];
    }
  }

  lemma {:induction false} StrippedMeaning(s: bytes, minBytes: nat)
    ensures LE(Stripped(s, minBytes)) == LE(s)
    ensures |Stripped(s, minBytes)| <= |s|
    ensures |Stripped(s, minBytes)| < |s| ==> |Stripped(s, minBytes)| >= minBytes
    ensures var r := Stripped(s, minBytes); |r| > minBytes ==> r[|r| - 1] != 0
    decreases |s|
  {
    if |s| > minBytes && s[|s| - 1] == 0 {
      StrippedMeaning(s[..|s| - 1], minBytes);
      assert s == s[..|s| - 1] + [0];
      LEAppendZero(s[..|s| - 1]);
    }
  }

  /** Null-byte regulation is canonical: the result is the base-256 expansion of the
      same number in the least size that holds it, but at least `minBytes`. */
  lemma RegulatedMeaning(s: bytes, minBytes: nat)
    requires minBytes >= 1
    ensures var n := LE(s);
            Regulated(s, minBytes) == Digits(n, if Width(n) < minBytes then minBytes else Width(n))
  {
    var t := Stripped(s, minBytes);
    StrippedMeaning(s, minBytes);
    var n := LE(s);
    var r := Regulated(s, minBytes);
    assert LE(r) == n by {
      LEZeros(t, if |t| < minBytes then minBytes - |t| else 0);
      assert t + Zeros(0) == t;
    }
    LEBound(r);
    WidthLeast(n, |r|);
    if |r| > minBytes {
      assert r == t;
      LETopByte(r);
      WidthLeast(n, |r| - 1);
    }
    DigitsLE(r);
  }

  // --- intToBytes and bytesToInt ---

  method IntToBytes(val: int, numBytes: nat) returns (bytes: bytes)
    ensures bytes == Digits(val, numBytes)
  {
    bytes := [];
    var n, rest := 0, val;
    while n < numBytes
      invariant n <= numBytes && |bytes| == n
      invariant Digits(val, numBytes) == bytes + Digits(rest, numBytes - n)
    {
      bytes := bytes + [rest % 256];
      rest := rest / 256;
      n := n + 1;
    }
  }

  lemma SignedShift(r: int, b: byte, k: nat)
    ensures Signed(Signed(r, k) * 256 + b, k) == Signed(r * 256 + b, k)
  {
    var p := Pow256(k);
    var s := Signed(r, k);
    var q := (r - s) / p;
    assert r - s == q * p by {
      assert r == (r / p) * p + r % p;
      if 2 * (r % p) < p {
        DivExact(r / p, p);
      } else {
        assert r - s == (r / p + 1) * p;
        DivExact(r / p + 1, p);
      }
    }
    assert r * 256 + b == (s * 256 + b) + (256 * q) * p;
    ModShift(s * 256 + b, 256 * q, p);
  }

  /** The little-endian branch: `numBytes` bytes folded from the top, the accumulator
      wrapping at its own width after every step. */
  method BytesToInt(bytes: bytes, numBytes: nat) returns (result: int)
    requires |bytes| >= numBytes
    ensures result == Signed(LE(bytes[..numBytes]), numBytes)
  {
    result := 0;
    var n := numBytes;
    assert bytes[n..numBytes] == [];
    while n > 0
      invariant n <= numBytes
      invariant result == Signed(LE(bytes[n..numBytes]), numBytes)
    {
      n := n - 1;
      assert bytes[n..numBytes] == [bytes[n]] + bytes[n + 1..numBytes];
      SignedShift(LE(bytes[n + 1..numBytes]), bytes[n], numBytes);
      result := Signed(result * 256 + bytes[n], numBytes);
    }
    assert bytes[0..numBytes] == bytes[..numBytes];
  }

  // --- nextpow2 and ilog2 ---

  function NextPow2(x: bv32): (p: bv32)
  {
    var a := x - 1;
    var b := a | (a >> 1);
    var c := b | (b >> 2);
    var d := c | (c >> 4);
    var e := d | (d >> 8);
    var f := e | (e >> 16);
    f + 1
  }

  /** The bit-smearing yields the least power of two at or above `x`. */
  lemma NextPow2Least(x: bv32)
    requires 1 <= x <= 0x8000_0000
    ensures var p := NextPow2(x); x <= p && p & (p - 1) == 0 && (p >> 1) < x
  {
  }

  function Pow2(k: nat): (p: nat)
    ensures p >= 1
  {
    if k == 0 then 1 else 2 * Pow2(k - 1)
  }

  method Ilog2(x: nat) returns (r: nat)
    requires x >= 1
    ensures Pow2(r) <= x < 2 * Pow2(r)
  {
    r := 0;
    var y := x;
    while y / 2 != 0
      invariant y >= 1
      invariant y * Pow2(r) <= x < (y + 1) * Pow2(r)
    {
      ghost var z := y;
      y := y / 2;
      r := r + 1;
      Halving(z, Pow2(r - 1), x);
    }
    assert y == 1;
  }

  // --- integer records ---

  /** The exponent of the power of two that an integer record of `w` bytes is padded to. */
  function Log2Size(w: nat): (e: nat)
    ensures e <= 3
    ensures w <= 8 ==> w <= Pow2(e)
  {
    assert Pow2(1) == 2 && Pow2(2) == 4 && Pow2(3) == 8;
    if w <= 1 then 0 else if w <= 2 then 1 else if w <= 4 then 2 else 3
  }

  /** A number record: a header nibble holding the exponent, then big-endian bytes. */
  function NumberRecord(tag: byte, n: nat, minBytes: nat): (r: bytes)
    requires tag <= 0xF0
  {
    var e := Log2Size(if Width(n) < minBytes then minBytes else Width(n));
    [tag + e] + Reversed(Digits(n, Pow2(e)))
  }

  function IntRecord(value: int): (r: bytes)
  {
    NumberRecord(0x10, value % TWO64, 1)
  }

  lemma SizeOfPadding(w: nat)
    requires 1 <= w <= 8
    ensures NextPow2(w as bv32) as int == Pow2(Log2Size(w))
  {
    assert Pow2(1) == 2 && Pow2(2) == 4 && Pow2(3) == 8;
    if w == 1 {
    } else if w == 2 {
    } else if w == 3 {
    } else if w == 4 {
    } else if w == 5 {
    } else if w == 6 {
    } else if w == 7 {
    }
  }

  method PaddedSize(w: nat) returns (size: nat)
    requires 1 <= w <= 8
    ensures size == Pow2(Log2Size(w))
  {
    SizeOfPadding(w);
    size := NextPow2(w as bv32) as int;
  }

  lemma Pow2Injective(j: nat, k: nat)
    ensures j < k ==> 2 * Pow2(j) <= Pow2(k)
    decreases k
  {
    if j < k - 1 {
      Pow2Injective(j, k - 1);
    }
  }

  /** The common tail of the integer and real writers: pad to a power of two, push the
      header, reverse. */
  method PadAndReverse(tag: byte, n: nat, minBytes: nat, regulated: bytes) returns (buffer: bytes)
    requires tag <= 0xF0 && 1 <= minBytes <= 8 && n < TWO64
    requires regulated == Digits(n, if Width(n) < minBytes then minBytes else Width(n))
    ensures buffer == NumberRecord(tag, n, minBytes)
  {
    hide Digits, Width, Pow2, Pow256;
    Pow256Values();
    WidthLeast(n, 8);
    ghost var w := |regulated|;
    WidthLeast(n, w);
    var size := PaddedSize(|regulated|);
    buffer := regulated + Zeros(size - |regulated|);
    DigitsPadded(n, w, size);
    var log := Ilog2(size);
    Pow2Injective(log, Log2Size(w));
    Pow2Injective(Log2Size(w), log);
    buffer := Reversed(buffer + [tag + log]);
    assert buffer == [tag + log] + Reversed(Digits(n, size));
  }

  /** Only the lowest `k` bytes of a number reach its digits. */
  lemma {:induction false} DigitsMod(value: int, k: nat)
    ensures Digits(value, k) == Digits(value % Pow256(k), k)
    decreases k
  {
    if k != 0 {
      var p := Pow256(k - 1);
      var q, m := value / (256 * p), value % (256 * p);
      assert value == (q * p + m / 256) * 256 + m % 256;
      DivUnique(value, q * p + m / 256, m % 256, 256);
      ModShift(m / 256, q, p);
      DigitsMod(value / 256, k - 1);
      DigitsMod(m / 256, k - 1);
    }
  }

  method EncodeInteger(value: int) returns (buffer: bytes)
    ensures buffer == IntRecord(value)
  {
    var raw := IntToBytes(value, 8);
    var regulated := RegulateNullBytes(raw, 1);
    Pow256Values();
    DigitsMod(value, 8);
    LEDigits(value % TWO64, 8);
    RegulatedMeaning(raw, 1);
    buffer := PadAndReverse(0x10, value % TWO64, 1, regulated);
  }
}
