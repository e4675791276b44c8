/** The encoded forms of characters as the standards give them, stated apart from the writers and
    decoders. */
module XmlEncodings {
  import opened Bytes
  import opened XmlUtf

  /** How the decoders report a character. */
  function UnitOf(ch: uint32): (u: Unit)
  {
    if ch < 0x1_0000 then Low(ch) else High(ch)
  }

  // --- writing ---

  /** The bytes of a character in UTF-8 (section 3 of RFC 3629), for all numbers of 21 bits. */
  function Utf8Of(ch: nat): (s: bytes)
    requires ch < 0x20_0000
  {
    if ch < 0x80 then [ch]
    else if ch < 0x800 then [0xC0 + ch / 0x40, 0x80 + ch % 0x40]
    else if ch < 0x1_0000 then [0xE0 + ch / 0x1000, 0x80 + ch / 0x40 % 0x40, 0x80 + ch % 0x40]
    else [0xF0 + ch / 0x4_0000, 0x80 + ch / 0x1000 % 0x40, 0x80 + ch / 0x40 % 0x40, 0x80 + ch % 0x40]
  }

  /** The words of a character in UTF-16 (section 2.1 of RFC 2781). */
  function Utf16Of(ch: nat): (s: seq<uint16>)
    requires ch < 0x11_0000
  {
    if ch < 0x1_0000 then [ch] else [0xD800 + (ch - 0x1_0000) / 0x400, 0xDC00 + (ch - 0x1_0000) % 0x400]
  }

  lemma Utf8Form(ch: nat)
    requires ch < 0x20_0000
    ensures Encode(Utf8, UnitOf(ch)) == Utf8Of(ch)
  {
  }

  lemma Utf16Form(ch: nat)
    requires ch < 0x11_0000
    ensures Encode(Utf16, UnitOf(ch)) == Utf16Of(ch)
  {
  }

  /** Every character is written as the standards say; Latin-1 has a question mark for those it lacks. */
  lemma EncodedForms(ch: nat)
    requires ch < 0x11_0000
    ensures Encode(Utf8, UnitOf(ch)) == Utf8Of(ch)
    ensures Encode(Utf16, UnitOf(ch)) == Utf16Of(ch)
    ensures Encode(Utf32, UnitOf(ch)) == [ch]
    ensures Encode(Latin1, UnitOf(ch)) == [if ch < 0x100 then ch else '?' as int]
  {
    hide Utf8Of, Utf16Of, Utf8Low, Utf8High, Utf16High;
    Utf8Form(ch);
    Utf16Form(ch);
  }

  /** What is written always fits the units of its encoding, also for numbers that are no characters. */
  lemma EncodedFits(e: Encoding, u: Unit)
    ensures forall w | w in Encode(e, u) ::
      w < match e case Utf8 => 0x100 case Utf16 => 0x1_0000 case Utf32 => 0x1_0000_0000 case Latin1 => 0x100
  {
  }

  // --- reading UTF-8 ---

  /** A byte that continues a sequence; it carries what it has above 0x80. */
  predicate Continues(b: byte)
  {
    0x80 <= b <= 0xBF
  }

  /** A lead byte with as many bytes behind it as it announces; together they carry the number. */
  predicate Sequence(s: bytes, ch: int)
  {
    match |s|
    case 1 => s[0] < 0x80 && ch == s[0]
    case 2 => 0xC0 <= s[0] < 0xE0 && Continues(s[1]) && ch == (s[0] as int - 0xC0) * 0x40 + (s[1] as int - 0x80)
    case 3 =>
      && 0xE0 <= s[0] < 0xF0 && Continues(s[1]) && Continues(s[2])
      && ch == (s[0] as int - 0xE0) * 0x1000 + (s[1] as int - 0x80) * 0x40 + (s[2] as int - 0x80)
    case 4 =>
      && 0xF0 <= s[0] < 0xF8 && Continues(s[1]) && Continues(s[2]) && Continues(s[3])
      && ch == (s[0] as int - 0xF0) * 0x4_0000 + (s[1] as int - 0x80) * 0x1000
               + (s[2] as int - 0x80) * 0x40 + (s[3] as int - 0x80)
    case _ => false
  }

  /** Every such sequence is read as its number, also one that is longer than it need be. */
  lemma SequenceReads(s: bytes, ch: int, rest: bytes)
    requires Sequence(s, ch)
    ensures 0 <= ch < 0x20_0000 && (|s| < 4 ==> ch < 0x1_0000)
    ensures Units8(s + rest) == [if |s| < 4 then Low(ch) else High(ch)] + Units8(rest)
  {
    hide Units8;
    var data := s + rest;
    assert forall i :: 0 <= i < |s| ==> data[i] == s[i];
    Units8Step(data);
    assert data[|s|..] == rest;
  }

  lemma Units8Step(data: bytes)
    requires data != []
    ensures Units8(data) == Unit8(data).0 + Units8(data[Unit8(data).1..])
  {
  }

  /** A byte that no such sequence starts with is dropped. */
  lemma OthersDropped(data: bytes)
    requires data != []
    requires forall n, ch :: 1 <= n <= |data| ==> !Sequence(data[..n], ch)
    ensures Units8(data) == Units8(data[1..])
  {
    hide Units8, Unit8, Sequence;
    if Unit8(data).0 != [] {
      Taken(data);
      assert false;
    }
    Units8Step(data);
    NothingTaken(data);
    assert [] + Units8(data[1..]) == Units8(data[1..]);
  }

  lemma NothingTaken(data: bytes)
    requires data != [] && Unit8(data).0 == []
    ensures Unit8(data).1 == 1
  {
    hide Bits;
  }

  /** What is read as a character is such a sequence. */
  lemma Taken(data: bytes)
    requires data != [] && Unit8(data).0 != []
    ensures var (u, n) := Unit8(data); Sequence(data[..n], if u[0].Low? then u[0].word else u[0].ch)
  {
    var n := Unit8(data).1;
    assert forall i :: 0 <= i < n ==> data[..n][i] == data[i];
  }

  // --- the other encodings ---

  /** UTF-32 is read and written without loss, whatever the numbers. */
  lemma {:induction false} Utf32RoundTrip(data: seq<uint32>)
    ensures EncodeAll(Utf32, Units32(data, false)) == data
  {
    hide Swap32;
    if data != [] {
      Utf32RoundTrip(data[1..]);
      EncodeAllCons(Utf32, UnitOf(data[0]), Units32(data[1..], false));
      assert data == [data[0]] + data[1..];
    }
  }

  /** Latin-1 is read and written without loss. */
  lemma {:induction false} Latin1RoundTrip(data: bytes)
    ensures EncodeAll(Latin1, UnitsLatin1(data)) == data
  {
    if data != [] {
      Latin1RoundTrip(data[1..]);
      EncodeAllCons(Latin1, Low(data[0]), UnitsLatin1(data[1..]));
      assert data == [data[0]] + data[1..];
    }
  }

  // --- byte order ---

  /** Swapping turns the order of the bytes round. */
  lemma SwapReverses(v: uint16, w: uint32)
    ensures Digits(Swap16(v), 2) == Reversed(Digits(v, 2))
    ensures Digits(Swap32(w), 4) == Reversed(Digits(w, 4))
  {
    hide Swap32;
    TwoDigits(v);
    TwoDigits(Swap16(v));
    Swap32Reverses(w);
  }

  lemma TwoDigits(v: uint16)
    ensures Digits(v, 2) == [v % 0x100, v / 0x100]
  {
    assert Digits(v / 0x100, 1) == [v / 0x100 % 0x100] + Digits(v / 0x100 / 0x100, 0);
  }

  lemma FourDigits(n: nat, a: byte, b: byte, c: byte, d: byte)
    requires n == a + 0x100 * (b + 0x100 * (c + 0x100 * d))
    ensures Digits(n, 4) == [a, b, c, d]
  {
    assert n % 0x100 == a && n / 0x100 == b + 0x100 * (c + 0x100 * d);
    TwoMore(n / 0x100, b, c + 0x100 * d);
    assert Digits(n, 4) == [a] + Digits(n / 0x100, 3);
    assert Digits(d, 1) == [d % 0x100] + Digits(d / 0x100, 0);
  }

  lemma TwoMore(n: nat, b: byte, m: nat)
    requires n == b + 0x100 * m
    ensures Digits(n, 3) == [b, m % 0x100] + Digits(m / 0x100, 1)
  {
    assert n % 0x100 == b && n / 0x100 == m;
    assert Digits(m, 2) == [m % 0x100] + Digits(m / 0x100, 1);
  }

  lemma WordBytes(w: uint32)
    ensures w == w % 0x100 + 0x100 * (w / 0x100 % 0x100 + 0x100 * (w / 0x1_0000 % 0x100 + 0x100 * (w / 0x100_0000)))
  {
    var x, y := w / 0x100, w / 0x1_0000;
    assert x == x % 0x100 + 0x100 * (x / 0x100) && x / 0x100 == y;
    assert y == y % 0x100 + 0x100 * (y / 0x100) && y / 0x100 == w / 0x100_0000;
  }

  lemma Swap32Reverses(w: uint32)
    ensures Digits(Swap32(w), 4) == Reversed(Digits(w, 4))
  {
    hide Digits;
    var a, b, c, d := w % 0x100, w / 0x100 % 0x100, w / 0x1_0000 % 0x100, w / 0x100_0000;
    WordBytes(w);
    FourDigits(w, a, b, c, d);
    FourDigits(Swap32(w), d, c, b, a);
    assert Reversed([a, b, c, d]) == [d, c, b, a];
  }
}
