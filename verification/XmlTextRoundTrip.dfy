/** Reading back what the writer escaped. */
module XmlTextRoundTrip {
  import opened Bytes
  import opened XmlUtf
  import opened XmlText
  import opened XmlGap

  /** A line-end or tab character that the reader rewrites. */
  predicate Rewritten(b: byte, lines: Lines)
  {
    match lines
    case Kept => false
    case Newlines => b == CR
    case Spaces => b == CR || b == LF || b == TAB
  }

  /** A byte that comes back: the writer hides it or the reader leaves it alone. */
  predicate Survives(b: byte, kind: Kind, lines: Lines)
  {
    Special(b, kind) || !Rewritten(b, lines)
  }

  lemma {:induction false} MatchedAll(t: seq<byte>, k: nat, name: seq<byte>)
    requires 0 !in name && k + |name| <= |t| && t[k..k + |name|] == name
    ensures Matched(t, k, name) == |name|
    decreases |name|
  {
    if name != [] {
      assert t[k] == t[k..k + |name|][0] == name[0];
      assert t[k + 1..k + 1 + |name[1..]|] == t[k..k + |name|][1..] == name[1..];
      MatchedAll(t, k + 1, name[1..]);
    }
  }

  lemma NumericDecodes(b: byte, rest: seq<byte>)
    requires b < 32
    ensures Entity([AMP, HASH, b / 10 + 48, b % 10 + 48, SEMICOLON] + rest) == Reference(true, [b], 5)
  {
    var t := [AMP, HASH, b / 10 + 48, b % 10 + 48, SEMICOLON] + rest;
    assert t[1] == HASH && t[2] == b / 10 + 48 && t[3] == b % 10 + 48 && t[4] == SEMICOLON;
    assert Number(t, 4, 10, b) == (b, 4);
    assert Number(t, 3, 10, b / 10) == (b, 4);
    assert Number(t, 2, 10, 0) == (b, 4);
    assert Utf8Any(b) == [b];
  }

  lemma NamedDecodes(b: byte, kind: Kind, rest: seq<byte>)
    requires b == AMP || b == LESS || b == GREATER || (b == QUOTE && kind.Attribute?)
    ensures Entity(EscapedByte(b, kind) + rest) == Reference(true, [b], |EscapedByte(b, kind)|)
  {
    hide Matched;
    var e := EscapedByte(b, kind);
    var t := e + rest;
    assert t[1] == e[1];
    assert Name(t) == (e[1..], b);
    assert t[1..1 + |e[1..]|] == e[1..];
    MatchedAll(t, 1, e[1..]);
  }

  /** An escaped byte reads back as itself, whatever follows. */
  lemma EscapedDecodes(b: byte, kind: Kind, lines: Lines, rest: seq<byte>)
    requires b != 0 && Survives(b, kind, lines)
    ensures Unescaped(EscapedByte(b, kind) + rest, lines, true) == [b] + Unescaped(rest, lines, true)
  {
    hide Entity;
    var e := EscapedByte(b, kind);
    if Special(b, kind) {
      if b == AMP || b == LESS || b == GREATER || b == QUOTE {
        NamedDecodes(b, kind, rest);
      } else {
        NumericDecodes(b, rest);
      }
      assert (e + rest)[|e|..] == rest;
      assert (e + rest)[0] == AMP;
    } else {
      assert e == [b] && ([b] + rest)[1..] == rest;
    }
  }

  lemma {:induction false} EscapedReadsBack(text: seq<byte>, kind: Kind, lines: Lines)
    requires 0 !in text && forall k :: 0 <= k < |text| ==> Survives(text[k], kind, lines)
    ensures Unescaped(Escaped(text, kind), lines, true) == text
  {
    hide Unescaped, EscapedByte, Survives;
    if text == [] {
      UnescapedNothing(lines);
    } else {
      assert Survives(text[0], kind, lines);
      EscapedDecodes(text[0], kind, lines, Escaped(text[1..], kind));
      EscapedReadsBack(text[1..], kind, lines);
    }
  }

  lemma UnescapedNothing(lines: Lines)
    ensures Unescaped([], lines, true) == []
  {
  }

  /** What comes back never holds a byte that the writer passes through and the reader rewrites. */
  lemma {:induction false} NoneSurvives(text: seq<byte>, kind: Kind, lines: Lines)
    requires 0 !in text
    ensures forall k :: 0 <= k < |Unescaped(Escaped(text, kind), lines, true)| ==>
              Survives(Unescaped(Escaped(text, kind), lines, true)[k], kind, lines)
    decreases |text|
  {
    hide Unescaped, EscapedByte, Survives;
    if text == [] {
      UnescapedNothing(lines);
    } else {
      NoneSurvives(text[1..], kind, lines);
      if Survives(text[0], kind, lines) {
        EscapedDecodes(text[0], kind, lines, Escaped(text[1..], kind));
      } else {
        RewrittenDecodes(text, kind, lines);
        if text[0] == CR && |text| > 1 && text[1] == LF && !Special(LF, kind) {
          NoneSurvives(text[2..], kind, lines);
        }
      }
    }
  }

  /** A rewritten byte becomes a newline or a space, and takes a newline after it along. */
  lemma RewrittenDecodes(text: seq<byte>, kind: Kind, lines: Lines)
    requires 0 !in text && text != [] && !Survives(text[0], kind, lines)
    ensures var b := if lines.Spaces? then SPACE else LF;
      var rest := if text[0] == CR && |text| > 1 && text[1] == LF && !Special(LF, kind) then text[2..] else text[1..];
      && Survives(b, kind, lines)
      && Unescaped(Escaped(text, kind), lines, true) == [b] + Unescaped(Escaped(rest, kind), lines, true)
  {
    hide Entity;
    var t := Escaped(text, kind);
    assert EscapedByte(text[0], kind) == [text[0]];
    assert t[1..] == Escaped(text[1..], kind);
    if |text| > 1 {
      assert Escaped(text[1..], kind) == EscapedByte(text[1], kind) + Escaped(text[1..][1..], kind);
      assert text[1..][1..] == text[2..];
      if text[1] == LF && !Special(LF, kind) {
        assert t[1] == LF && t[2..] == Escaped(text[2..], kind);
      } else {
        assert EscapedByte(text[1], kind)[0] != LF;
        assert At(t, 1) != LF;
      }
    }
  }

  /** A text reads back exactly when each of its bytes survives. */
  lemma EscapeRoundTripIff(text: seq<byte>, kind: Kind, lines: Lines)
    requires 0 !in text
    ensures Unescaped(Escaped(text, kind), lines, true) == text
       <==> forall k :: 0 <= k < |text| ==> Survives(text[k], kind, lines)
  {
    hide Unescaped, Escaped, Survives;
    NoneSurvives(text, kind, lines);
    if forall k :: 0 <= k < |text| ==> Survives(text[k], kind, lines) {
      EscapedReadsBack(text, kind, lines);
    }
  }

  /** Where texts without NUL and carriage return are always safe: in character data, with line
      ends kept or normalised, and in attributes unless tabs are turned into spaces. */
  lemma SafeTexts(text: seq<byte>, kind: Kind, lines: Lines)
    requires 0 !in text && CR !in text
    requires !lines.Spaces? || (kind.Attribute? && TAB !in text)
    ensures Unescaped(Escaped(text, kind), lines, true) == text
  {
    forall k | 0 <= k < |text| ensures Survives(text[k], kind, lines) {
      assert text[k] in text;
    }
    EscapedReadsBack(text, kind, lines);
  }

  /** The escaped text holds no byte that would end it early. */
  lemma {:induction false} EscapedEndsLater(text: seq<byte>, kind: Kind)
    requires 0 !in text
    ensures 0 !in Escaped(text, kind) && LESS !in Escaped(text, kind)
    ensures kind.Attribute? ==> QUOTE !in Escaped(text, kind)
  {
    if text != [] {
      EscapedEndsLater(text[1..], kind);
      var e := EscapedByte(text[0], kind);
      assert 0 !in e && LESS !in e && (kind.Attribute? ==> QUOTE !in e);
    }
  }

  lemma {:induction false} TextEndsAt(c: seq<byte>, from: nat, end: byte, stop: nat)
    requires from <= stop < |c| && 0 in c[from..] && c[stop] == end
    requires forall k :: from <= k < stop ==> c[k] != 0 && c[k] != end
    ensures TextEnd(c, from, end) == stop
    decreases stop - from
  {
    if from < stop {
      assert c[from..] == [c[from]] + c[from + 1..];
      TextEndsAt(c, from + 1, end, stop);
    }
  }

  /** Written between markup, an escaped text is found and read back whole by the converters. */
  lemma WrittenReadsBack(before: seq<byte>, text: seq<byte>, after: seq<byte>, kind: Kind, lines: Lines)
    requires 0 !in text && 0 in after
    requires forall k :: 0 <= k < |text| ==> Survives(text[k], kind, lines)
    ensures var end := if kind.Pcdata? then LESS else QUOTE;
      var c := before + Escaped(text, kind) + [end] + after;
      && 0 in c[|before|..]
      && TextEnd(c, |before|, end) == |before| + |Escaped(text, kind)|
      && Unescaped(c[|before|..TextEnd(c, |before|, end)], lines, true) == text
  {
    hide Unescaped, Escaped, Survives, TextEnd;
    var end := if kind.Pcdata? then LESS else QUOTE;
    var e := Escaped(text, kind);
    var c := before + e + [end] + after;
    var stop := |before| + |e|;
    assert c[|before|..] == e + [end] + after;
    EscapedEndsLater(text, kind);
    forall k | |before| <= k < stop ensures c[k] != 0 && c[k] != end {
      assert c[k] == e[k - |before|];
    }
    TextEndsAt(c, |before|, end, stop);
    assert c[|before|..stop] == e;
    EscapedReadsBack(text, kind, lines);
  }
}
