/** What the references of a text stand for, told from the text's bytes: the five names, and every
    number in decimal or hexadecimal digits. */
module XmlReferences {
  import opened Bytes
  import opened XmlEncodings
  import opened XmlUtf
  import opened XmlText
  import opened XmlTextRoundTrip

  /** The bytes of ASCII text. */
  function Ascii(s: string): (t: bytes)
    requires forall i :: 0 <= i < |s| ==> s[i] < 128 as char
    ensures |t| == |s| && forall i :: 0 <= i < |s| ==> t[i] == s[i] as int
  {
    seq(|s|, i requires 0 <= i < |s| => s[i] as int)
  }

  /** The named references, with the character each stands for. */
  predicate Named(text: string, ch: char): (named: bool)
    ensures named ==> forall i :: 0 <= i < |text| ==> text[i] < 128 as char
  {
    || (text == "&amp;" && ch == '&')
    || (text == "&apos;" && ch == '\'')
    || (text == "&gt;" && ch == '>')
    || (text == "&lt;" && ch == '<')
    || (text == "&quot;" && ch == '"')
  }

  lemma NameIs(t: bytes, text: string, ch: char)
    requires Named(text, ch) && Ascii(text) <= t
    ensures Name(t) == (Ascii(text)[1..], ch as int) && At(t, 1) != HASH && 0 !in Ascii(text)[1..]
  {
    assert forall k :: 0 <= k < |text| ==> At(t, k) == Ascii(text)[k] == text[k] as int;
    NameBytes(text, ch);
  }

  lemma NameBytes(text: string, ch: char)
    requires Named(text, ch)
    ensures Ascii(text)[1..] == match ch
      case '&' => [97, 109, 112, 59]
      case '\'' => [97, 112, 111, 115, 59]
      case '>' => [103, 116, 59]
      case '<' => [108, 116, 59]
      case _ => [113, 117, 111, 116, 59]
  {
    assert forall k :: 1 <= k < |text| ==> Ascii(text)[1..][k - 1] == text[k] as int;
  }

  /** Whatever follows, a named reference is decoded to its character. */
  lemma NamedReference(text: string, ch: char, rest: bytes)
    requires Named(text, ch)
    ensures Entity(Ascii(text) + rest) == Reference(true, [ch as int], |text|)
  {
    hide Name, Ascii;
    var t := Ascii(text) + rest;
    NameIs(t, text, ch);
    assert t[1..|text|] == Ascii(text)[1..];
    MatchedAll(t, 1, Ascii(text)[1..]);
  }

  // --- numbers ---

  /** A digit as it is printed; hexadecimal digits above nine as small or capital letters. */
  function Digit1(d: nat, capital: bool): (c: char)
    requires d < 16
  {
    if capital then "0123456789ABCDEF"[d] else "0123456789abcdef"[d]
  }

  function Numeral(n: nat, base: nat, capital: bool): (s: string)
    requires base == 10 || base == 16
    ensures s != [] && forall i :: 0 <= i < |s| ==> s[i] < 128 as char
  {
    (if n < base then "" else Numeral(n / base, base, capital)) + [Digit1(n % base, capital)]
  }

  lemma DigitReads(d: nat, base: nat, capital: bool)
    requires d < base && (base == 10 || base == 16)
    ensures Digit(Digit1(d, capital) as int, base) == d
  {
  }

  lemma DecimalStep(t: bytes, k: nat, n: uint32)
    requires k < |t| && Digit(t[k], 10) == n % 10
    ensures Number(t, k, 10, n / 10) == Number(t, k + 1, 10, n)
  {
    hide Digit;
    assert 10 * (n / 10) + n % 10 == n;
  }

  lemma HexadecimalStep(t: bytes, k: nat, n: uint32)
    requires k < |t| && Digit(t[k], 16) == n % 16
    ensures Number(t, k, 16, n / 16) == Number(t, k + 1, 16, n)
  {
    hide Digit;
    assert 16 * (n / 16) + n % 16 == n;
  }

  function Front(n: nat, base: nat, capital: bool): (s: string)
    requires base == 10 || base == 16
  {
    if n < base then "" else Numeral(n / base, base, capital)
  }

  lemma NumeralParts(n: nat, base: nat, capital: bool)
    requires base == 10 || base == 16
    ensures n % base < base && n / base <= n && (n >= base ==> n / base < n) && (n < base ==> n / base == 0)
    ensures Numeral(n, base, capital) == Front(n, base, capital) + [Digit1(n % base, capital)]
  {
  }

  /** One more digit, the last one of the numeral, behind the digits of the others. */
  lemma LastDigit(t: bytes, k: nat, n: uint32, base: nat, capital: bool)
    requires base == 10 || base == 16
    requires k < |t| && t[k] == Digit1(n % base, capital) as int
    ensures Number(t, k, base, n / base) == Number(t, k + 1, base, n)
  {
    hide Digit, Digit1, Number;
    DigitReads(n % base, base, capital);
    if base == 10 {
      DecimalStep(t, k, n);
    } else {
      HexadecimalStep(t, k, n);
    }
  }

  /** Having read a number's digits is having its value. */
  lemma {:induction false} NumeralReads(t: bytes, k: nat, n: uint32, base: nat, capital: bool)
    requires base == 10 || base == 16
    requires var s := Numeral(n, base, capital);
      k + |s| <= |t| && forall i :: 0 <= i < |s| ==> t[k + i] == s[i] as int
    ensures Number(t, k, base, 0) == Number(t, k + |Numeral(n, base, capital)|, base, n)
    decreases n
  {
    hide Digit, Digit1, Number, Numeral;
    NumeralParts(n, base, capital);
    var s, front := Numeral(n, base, capital), Front(n, base, capital);
    assert t[k + |front|] == s[|front|] as int;
    LastDigit(t, k + |front|, n, base, capital);
    if n >= base {
      assert forall i :: 0 <= i < |front| ==> front[i] == s[i];
      NumeralReads(t, k, n / base, base, capital);
    }
  }

  lemma NumberStops(t: bytes, k: nat, base: nat, n: uint32)
    requires k < |t| && t[k] == 59
    ensures Number(t, k, base, n) == (n, k)
  {
  }

  lemma Utf8Is(ch: nat)
    requires ch < 0x20_0000
    ensures Utf8Any(ch) == Utf8Of(ch)
  {
    hide Utf8Of;
    Utf8Form(ch);
  }

  /** A numeric reference as it is written. */
  function NumericText(ch: nat, hexadecimal: bool, capital: bool): (s: string)
    ensures forall i :: 0 <= i < |s| ==> s[i] < 128 as char
  {
    (if hexadecimal then "&#x" else "&#") + Numeral(ch, if hexadecimal then 16 else 10, capital) + ";"
  }

  /** Where the parts of the reference stand. */
  lemma NumericTextAt(t: bytes, ch: nat, hexadecimal: bool, capital: bool)
    requires Ascii(NumericText(ch, hexadecimal, capital)) <= t
    ensures var k, digits := if hexadecimal then 3 else 2, Numeral(ch, if hexadecimal then 16 else 10, capital);
      && k + |digits| + 1 == |NumericText(ch, hexadecimal, capital)|
      && t[0] == 38 && t[1] == 35 && (hexadecimal ==> t[2] == 120)
      && (forall i :: 0 <= i < |digits| ==> t[k + i] == digits[i] as int)
      && t[k + |digits|] == 59
  {
    hide Numeral;
    var text, k := NumericText(ch, hexadecimal, capital), if hexadecimal then 3 else 2;
    var digits := Numeral(ch, if hexadecimal then 16 else 10, capital);
    assert forall i :: 0 <= i < |text| ==> t[i] == Ascii(text)[i] == text[i] as int;
    forall i | 0 <= i < |digits| ensures t[k + i] == digits[i] as int {
      assert text[k + i] == digits[i];
    }
    assert text[k + |digits|] == ';';
  }

  /** Whatever follows, a numeric reference is decoded to the UTF-8 form of its character. */
  lemma NumericReference(ch: nat, hexadecimal: bool, capital: bool, rest: bytes)
    requires ch < 0x20_0000
    ensures var text := NumericText(ch, hexadecimal, capital);
      Entity(Ascii(text) + rest) == Reference(true, Utf8Of(ch), |text|)
  {
    hide Digit1, Digit, Number, Utf8Any, Utf8Of, Numeral, NumericText;
    var t := Ascii(NumericText(ch, hexadecimal, capital)) + rest;
    var k, base := if hexadecimal then 3 else 2, if hexadecimal then 16 else 10;
    var digits := Numeral(ch, base, capital);
    NumericTextAt(t, ch, hexadecimal, capital);
    var end := k + |digits|;
    NumeralReads(t, k, ch, base, capital);
    NumberStops(t, end, base, ch);
    Utf8Is(ch);
    FirstDigit(ch, base, capital);
    assert t[k] == digits[0] as int;
  }

  lemma {:induction false} FirstDigit(n: nat, base: nat, capital: bool)
    requires base == 10 || base == 16
    ensures var c := Numeral(n, base, capital)[0]; c != ';' && c != 'x'
    decreases n
  {
    if n >= base {
      FirstDigit(n / base, base, capital);
    }
  }

  // --- whole texts ---

  /** In a text, a reference is replaced by what it stands for, and the rest is read on. */
  lemma NamedInText(text: string, ch: char, rest: bytes, lines: Lines)
    requires Named(text, ch)
    ensures Unescaped(Ascii(text) + rest, lines, true) == [ch as int] + Unescaped(rest, lines, true)
  {
    hide Entity;
    NamedReference(text, ch, rest);
    var t := Ascii(text) + rest;
    assert t[0] == text[0] as int == 38;
    assert t[|text|..] == rest;
  }

  lemma NumericInText(ch: nat, hexadecimal: bool, capital: bool, rest: bytes, lines: Lines)
    requires ch < 0x20_0000
    ensures Unescaped(Ascii(NumericText(ch, hexadecimal, capital)) + rest, lines, true)
         == Utf8Of(ch) + Unescaped(rest, lines, true)
  {
    hide Entity, NumericText, Utf8Of;
    NumericReference(ch, hexadecimal, capital, rest);
    var text := NumericText(ch, hexadecimal, capital);
    var t := Ascii(text) + rest;
    NumericTextAt(t, ch, hexadecimal, capital);
    assert t[|text|..] == rest;
  }

  // --- what is no reference ---

  /** Digits of the base from `k` on, at least one, up to a semicolon. */
  predicate DigitsAt(t: bytes, k: nat, base: nat)
  {
    exists end :: k < end < |t| && t[end] == ';' as int && forall i :: k <= i < end ==> IsDigit(t[i], base)
  }

  predicate IsDigit(b: byte, base: nat)
  {
    || '0' as int <= b <= '9' as int
    || (base == 16 && ('a' as int <= b <= 'f' as int || 'A' as int <= b <= 'F' as int))
  }

  /** One of the five names, or a number. */
  ghost predicate IsReference(t: bytes)
  {
    || (exists text, ch :: Named(text, ch) && Ascii(text) <= t)
    || (Ascii("&#x") <= t && DigitsAt(t, 3, 16))
    || (Ascii("&#") <= t && At(t, 2) != 'x' as int && DigitsAt(t, 2, 10))
  }

  lemma DigitIff(b: byte, base: nat)
    requires base == 10 || base == 16
    ensures Digit(b, base) >= 0 <==> IsDigit(b, base)
  {
  }

  /** A number is read to the first byte that is no digit. */
  lemma {:induction false} NumberEnds(t: bytes, k: nat, base: nat, value: uint32)
    requires k <= |t| && (base == 10 || base == 16)
    ensures var end := Number(t, k, base, value).1;
      !IsDigit(At(t, end), base) && forall i :: k <= i < end ==> IsDigit(t[i], base)
    decreases |t| - k
  {
    hide IsDigit, Digit;
    DigitIff(At(t, k), base);
    if Digit(At(t, k), base) >= 0 {
      NotAtEnd(t, k, base);
      NumberEnds(t, k + 1, base, (base * value + Digit(At(t, k), base)) % 0x1_0000_0000);
    }
  }

  lemma NotAtEnd(t: bytes, k: nat, base: nat)
    requires Digit(At(t, k), base) >= 0
    ensures k < |t|
  {
  }

  lemma {:induction false} MatchedPart(t: bytes, k: nat, name: bytes)
    requires 0 !in name && k <= |t|
    ensures var n := Matched(t, k, name); t[k..k + n] == name[..n]
    decreases |name|
  {
    if name != [] && At(t, k) == name[0] {
      MatchedPart(t, k + 1, name[1..]);
      var n := Matched(t, k + 1, name[1..]);
      assert t[k..k + 1 + n] == [t[k]] + t[k + 1..k + 1 + n];
      assert name[..1 + n] == [name[0]] + name[1..][..n];
    }
  }

  /** Nothing but a reference is decoded; anything else behind an ampersand is kept as it is. */
  lemma DecodedIff(t: bytes)
    requires t != [] && t[0] == '&' as int
    ensures Entity(t).decoded <==> IsReference(t)
    ensures !Entity(t).decoded ==> Entity(t).out == t[..Entity(t).length]
  {
    hide IsReference, Number, Digit, Matched, IsDigit, DigitsAt, Utf8Any, Name, Numeric;
    if At(t, 1) == HASH {
      NumericIff(t, if At(t, 2) == LETTER_X then 3 else 2, if At(t, 2) == LETTER_X then 16 else 10);
      HashIff(t);
    } else {
      NameIff(t);
    }
  }

  lemma NumericIff(t: bytes, k: nat, base: nat)
    requires k <= |t| && (base == 10 || base == 16)
    ensures Numeric(t, k, base).decoded <==> DigitsAt(t, k, base)
    ensures !Numeric(t, k, base).decoded ==> Numeric(t, k, base).out == t[..Numeric(t, k, base).length]
  {
    hide IsDigit, Digit, Number, Utf8Any;
    NoDigits(base);
    if At(t, k) != SEMICOLON {
      var end := Number(t, k, base, 0).1;
      NumberEnds(t, k, base, 0);
      if DigitsAt(t, k, base) {
        var e :| k < e < |t| && t[e] == ';' as int && forall i :: k <= i < e ==> IsDigit(t[i], base);
        SameEnd(t, k, base, end, e);
      }
    }
  }

  lemma SameEnd(t: bytes, k: nat, base: nat, end: nat, e: nat)
    requires k <= end <= |t| && !IsDigit(At(t, end), base) && forall i :: k <= i < end ==> IsDigit(t[i], base)
    requires k <= e < |t| && !IsDigit(t[e], base) && forall i :: k <= i < e ==> IsDigit(t[i], base)
    ensures end == e
  {
    hide IsDigit;
  }

  lemma NoDigits(base: nat)
    ensures !IsDigit(SEMICOLON, base) && !IsDigit(0, base)
  {
  }

  lemma HashIff(t: bytes)
    requires t != [] && t[0] == '&' as int && At(t, 1) == HASH
    ensures IsReference(t) <==> if At(t, 2) == LETTER_X then DigitsAt(t, 3, 16) else DigitsAt(t, 2, 10)
  {
    hide DigitsAt;
    forall text, ch | Named(text, ch) ensures !(Ascii(text) <= t) {
      assert Ascii(text)[1] != HASH;
    }
    assert Ascii("&#") == [38, 35] && Ascii("&#x") == [38, 35, 120];
    if At(t, 2) == LETTER_X {
      assert t[..3] == [38, 35, 120];
    }
    assert t[..2] == [38, 35];
  }

  lemma NameIff(t: bytes)
    requires t != [] && t[0] == '&' as int && At(t, 1) != HASH
    ensures Entity(t).decoded <==> IsReference(t)
  {
    hide Matched, DigitsAt, Name, Ascii, Named, Entity;
    if Entity(t).decoded {
      NameDecoded(t);
    }
    if text, c :| Named(text, c) && Ascii(text) <= t {
      NamedReference(text, c, t[|text|..]);
      assert Ascii(text) + t[|text|..] == t;
    }
    assert Ascii("&#")[1] == HASH && Ascii("&#x")[1] == HASH;
  }

  lemma NameDecoded(t: bytes)
    requires t != [] && t[0] == '&' as int && At(t, 1) != HASH && Entity(t).decoded
    ensures exists text, ch :: Named(text, ch) && Ascii(text) <= t
  {
    hide Matched, Name, Named, Ascii;
    var (name, ch) := Name(t);
    NameParts(t);
    MatchedPart(t, 1, name);
    assert name[..|name|] == name;
    var text :| Named(text, ch as char) && Ascii(text) == [38] + name;
    assert t[..1 + |name|] == [38] + t[1..1 + |name|];
  }

  lemma NameParts(t: bytes)
    ensures 0 !in Name(t).0
    ensures var (name, ch) := Name(t);
      name == [] || exists text :: Named(text, ch as char) && Ascii(text) == [38] + name
  {
    var (name, ch) := Name(t);
    var text := if ch == AMP then "&amp;" else if ch == APOS then "&apos;" else if ch == GREATER then "&gt;"
      else if ch == LESS then "&lt;" else "&quot;";
    assert name != [] ==> Ascii(text) == [38] + name;
  }

  // --- what is escaped ---

  /** The escaped form of every byte, in character data and in attributes. */
  predicate EscapedAs(b: byte, kind: Kind, s: bytes)
  {
    if b == '&' as int then s == Ascii("&amp;")
    else if b == '<' as int then s == Ascii("&lt;")
    else if b == '>' as int then s == Ascii("&gt;")
    else if b == '"' as int && kind.Attribute? then s == Ascii("&quot;")
    else if b >= 32 || b == 9 || (kind.Pcdata? && (b == 10 || b == 13)) then s == [b]
    else s == Ascii("&#" + ["0123"[b / 10], "0123456789"[b % 10]] + ";")
  }

  lemma EscapedByteIs(b: byte, kind: Kind)
    requires b != 0
    ensures EscapedAs(b, kind, EscapedByte(b, kind))
  {
  }

  // --- line ends ---

  /** A carriage return, alone or with the line feed behind it, becomes one line feed; in attributes that
      convert white space these, line feeds and tabs become spaces. Any other byte stays, but for references. */
  lemma LineEnds(b: byte, rest: bytes, escape: bool)
    ensures Unescaped([13, 10] + rest, Newlines, escape) == [10] + Unescaped(rest, Newlines, escape)
    ensures Unescaped([13, 10] + rest, Spaces, escape) == [32] + Unescaped(rest, Spaces, escape)
    ensures At(rest, 0) != 10 ==> Unescaped([13] + rest, Newlines, escape) == [10] + Unescaped(rest, Newlines, escape)
    ensures At(rest, 0) != 10 ==> Unescaped([13] + rest, Spaces, escape) == [32] + Unescaped(rest, Spaces, escape)
    ensures b == 10 || b == 9 ==> Unescaped([b] + rest, Spaces, escape) == [32] + Unescaped(rest, Spaces, escape)
    ensures forall lines: Lines ::
      (b == 13 ==> lines.Kept?) && (b == 38 ==> !escape) && (lines.Spaces? ==> b != 9 && b != 10) ==>
        Unescaped([b] + rest, lines, escape) == [b] + Unescaped(rest, lines, escape)
  {
    hide Entity;
    assert ([13, 10] + rest)[2..] == rest && ([13] + rest)[1..] == rest && ([b] + rest)[1..] == rest;
    assert At([13, 10] + rest, 1) == 10 && At([13] + rest, 1) == At(rest, 0);
  }
}
