/** Character data and attribute values: what they stand for, and the writer's escapes. */
module XmlText {
  import opened Bytes
  import opened XmlUtf

  const TAB: byte := 9
  const LF: byte := 10
  const CR: byte := 13
  const SPACE: byte := 32
  const QUOTE: byte := 34
  const HASH: byte := 35
  const AMP: byte := 38
  const APOS: byte := 39
  const SEMICOLON: byte := 59
  const LESS: byte := 60
  const GREATER: byte := 62
  const LETTER_A: byte := 97
  const LETTER_G: byte := 103
  const LETTER_L: byte := 108
  const LETTER_M: byte := 109
  const LETTER_O: byte := 111
  const LETTER_P: byte := 112
  const LETTER_Q: byte := 113
  const LETTER_S: byte := 115
  const LETTER_T: byte := 116
  const LETTER_U: byte := 117
  const LETTER_X: byte := 120

  /** What happens to line ends: kept, made newlines, or made spaces together with tabs. */
  datatype Lines = Kept | Newlines | Spaces

  // --- references ---

  /** A byte of the text; the byte that ends it matches nothing, like NUL. */
  function At(t: seq<byte>, k: nat): (b: byte)
  {
    if k < |t| then t[k] else 0
  }

  /** What a reference stands for, or the part of it that is kept as it is. */
  datatype Reference = Reference(decoded: bool, out: seq<byte>, length: nat)

  function Literal(t: seq<byte>, k: nat): (r: Reference)
    requires k <= |t|
  {
    Reference(false, t[..k], k)
  }

  /** The value of a digit; hexadecimal letters may be of either case. */
  function Digit(b: byte, base: nat): (d: int)
    ensures d == -1 || 0 <= d < 16
  {
    if 48 <= b <= 57 then b - 48
    else if base == 16 && 97 <= b <= 102 then b - 87
    else if base == 16 && 65 <= b <= 70 then b - 55
    else -1
  }

  /** Reads digits from `k` on, in 32-bit arithmetic; stops at the first other byte. */
  function Number(t: seq<byte>, k: nat, base: nat, value: uint32): (r: (uint32, nat))
    requires k <= |t|
    ensures k <= r.1 <= |t|
    decreases |t| - k
  {
    var d := Digit(At(t, k), base);
    if d < 0 then (value, k) else Number(t, k + 1, base, (base * value + d) % 0x1_0000_0000)
  }

  function Utf8Any(ch: uint32): (s: seq<byte>)
    ensures |s| <= 4 && s == EncodeAny(ch)
  {
    EncodeAny(ch)
  }

  function EncodeAny(ch: uint32): (s: seq<uint32>)
  {
    Encode(Utf8, if ch < 0x1_0000 then Low(ch) else High(ch))
  }

  function Numeric(t: seq<byte>, k: nat, base: nat): (r: Reference)
    requires k <= |t|
  {
    if At(t, k) == SEMICOLON then Literal(t, k) else
      var (value, end) := Number(t, k, base, 0);
      if At(t, end) == SEMICOLON then Reference(true, Utf8Any(value), end + 1) else Literal(t, end)
  }

  /** The only name the text can still turn out to have, and its character. */
  function Name(t: seq<byte>): (r: (seq<byte>, byte))
  {
    if At(t, 1) == LETTER_A && At(t, 2) == LETTER_P then
      ([LETTER_A, LETTER_P, LETTER_O, LETTER_S, SEMICOLON], APOS)
    else if At(t, 1) == LETTER_A then ([LETTER_A, LETTER_M, LETTER_P, SEMICOLON], AMP)
    else if At(t, 1) == LETTER_G then ([LETTER_G, LETTER_T, SEMICOLON], GREATER)
    else if At(t, 1) == LETTER_L then ([LETTER_L, LETTER_T, SEMICOLON], LESS)
    else if At(t, 1) == LETTER_Q then ([LETTER_Q, LETTER_U, LETTER_O, LETTER_T, SEMICOLON], QUOTE)
    else ([], 0)
  }

  /** How many bytes of `name` the text has from position `k` on. */
  function Matched(t: seq<byte>, k: nat, name: seq<byte>): (n: nat)
    requires 0 !in name && k <= |t|
    ensures n <= |name| && k + n <= |t|
    decreases |name|
  {
    if name != [] && At(t, k) == name[0] then 1 + Matched(t, k + 1, name[1..]) else 0
  }

  /** The reference that starts with the ampersand at the beginning of `t`. */
  function Entity(t: seq<byte>): (r: Reference)
    requires t != []
  {
    if At(t, 1) == HASH then
      if At(t, 2) == LETTER_X then Numeric(t, 3, 16) else Numeric(t, 2, 10)
    else
      var (name, ch) := Name(t);
      var n := Matched(t, 1, name);
      if name != [] && n == |name| then Reference(true, [ch], 1 + n) else Literal(t, 1 + n)
  }

  /** No reference is shorter than what it stands for: the room for a decoding in place. */
  lemma EntityShrinks(t: seq<byte>)
    requires t != []
    ensures 1 <= Entity(t).length <= |t| && |Entity(t).out| <= Entity(t).length
  {
    hide Number, Utf8Any, Matched, Digit;
    if At(t, 1) == HASH {
      var k, base := if At(t, 2) == LETTER_X then 3 else 2, if At(t, 2) == LETTER_X then 16 else 10;
      if At(t, k) != SEMICOLON {
        NumberMeets(t, k, base);
      }
    }
  }

  /** A decoded reference is longer than what it stands for; any other one is kept as it is. */
  lemma EntityShrinksMore(t: seq<byte>)
    requires t != []
    ensures Entity(t).decoded ==> |Entity(t).out| < Entity(t).length
    ensures !Entity(t).decoded ==> |Entity(t).out| == Entity(t).length
  {
    hide Number, Matched, Digit, Utf8Any;
    if At(t, 1) == HASH {
      var k, base := if At(t, 2) == LETTER_X then 3 else 2, if At(t, 2) == LETTER_X then 16 else 10;
      if At(t, k) != SEMICOLON {
        NumberMeets(t, k, base);
        OneDigit(t, k);
      }
    }
  }

  /** A number of one decimal digit stands for one byte. */
  lemma OneDigit(t: seq<byte>, k: nat)
    requires k <= |t|
    ensures var (value, end) := Number(t, k, 10, 0); end == k + 1 ==> |Utf8Any(value)| == 1
  {
    var d := Digit(At(t, k), 10);
    if d >= 0 {
      var e := Digit(At(t, k + 1), 10);
      assert Number(t, k, 10, 0) == Number(t, k + 1, 10, d);
      assert e >= 0 ==> Number(t, k + 1, 10, d).1 >= k + 2;
    }
  }

  lemma NumberMeets(t: seq<byte>, k: nat, base: nat)
    requires k <= |t| && At(t, k) != SEMICOLON
    ensures var end := Number(t, k, base, 0).1; At(t, end) == SEMICOLON ==> k < end < |t|
  {
  }

  // --- whole texts ---

  /** The text with references decoded and line ends rewritten. */
  function Unescaped(t: seq<byte>, lines: Lines, escape: bool): (u: seq<byte>)
    decreases |t|
  {
    if t == [] then [] else
      if !lines.Kept? && t[0] == CR then
        [if lines.Spaces? then SPACE else LF] + Unescaped(if At(t, 1) == LF then t[2..] else t[1..], lines, escape)
      else if lines.Spaces? && (t[0] == LF || t[0] == TAB) then
        [SPACE] + Unescaped(t[1..], lines, escape)
      else if escape && t[0] == AMP then
        EntityShrinks(t);
        Entity(t).out + Unescaped(t[Entity(t).length..], lines, escape)
      else [t[0]] + Unescaped(t[1..], lines, escape)
  }

  /** No line end of two bytes is cut to one, and no reference decoded. */
  predicate NothingDropped(t: seq<byte>, lines: Lines, escape: bool)
    decreases |t|
  {
    if t == [] then true
    else if !lines.Kept? && t[0] == CR then At(t, 1) != LF && NothingDropped(t[1..], lines, escape)
    else if lines.Spaces? && (t[0] == LF || t[0] == TAB) then NothingDropped(t[1..], lines, escape)
    else if escape && t[0] == AMP then
      EntityShrinks(t);
      !Entity(t).decoded && NothingDropped(t[Entity(t).length..], lines, escape)
    else NothingDropped(t[1..], lines, escape)
  }

  /** The rewriting is as long as the text if and only if nothing is dropped. */
  lemma {:induction false} DroppedIff(t: seq<byte>, lines: Lines, escape: bool)
    ensures |Unescaped(t, lines, escape)| == |t| <==> NothingDropped(t, lines, escape)
    decreases |t|
  {
    hide Entity;
    if t != [] {
      DroppedIff(t[1..], lines, escape);
      if !lines.Kept? && t[0] == CR {
        if At(t, 1) == LF {
          UnescapedShrinks(t[2..], lines, escape);
        }
      } else if escape && t[0] == AMP {
        EntityShrinks(t);
        EntityShrinksMore(t);
        UnescapedShrinks(t[Entity(t).length..], lines, escape);
        DroppedIff(t[Entity(t).length..], lines, escape);
      }
    }
  }

  lemma {:induction false} UnescapedShrinks(t: seq<byte>, lines: Lines, escape: bool)
    ensures |Unescaped(t, lines, escape)| <= |t|
    decreases |t|
  {
    hide Entity;
    if t != [] {
      UnescapedShrinks(t[1..], lines, escape);
      if At(t, 1) == LF {
        UnescapedShrinks(t[2..], lines, escape);
      }
      if t[0] == AMP {
        EntityShrinks(t);
        UnescapedShrinks(t[Entity(t).length..], lines, escape);
      }
    }
  }

  // --- escapes ---

  datatype Kind = Pcdata | Attribute

  /** The bytes the writer does not pass through: the two low columns of its character table. */
  predicate Special(b: byte, kind: Kind)
  {
    || b == AMP || b == LESS || b == GREATER
    || (kind.Attribute? && b == QUOTE)
    || (b < 32 && b != TAB && (kind.Pcdata? ==> b != LF && b != CR))
  }

  function EscapedByte(b: byte, kind: Kind): (s: seq<byte>)
    requires b != 0
  {
    if !Special(b, kind) then [b]
    else if b == AMP then [AMP, LETTER_A, LETTER_M, LETTER_P, SEMICOLON]
    else if b == LESS then [AMP, LETTER_L, LETTER_T, SEMICOLON]
    else if b == GREATER then [AMP, LETTER_G, LETTER_T, SEMICOLON]
    else if b == QUOTE then [AMP, LETTER_Q, LETTER_U, LETTER_O, LETTER_T, SEMICOLON]
    else [AMP, HASH, b / 10 + 48, b % 10 + 48, SEMICOLON]
  }

  function Escaped(text: seq<byte>, kind: Kind): (s: seq<byte>)
    requires 0 !in text
  {
    if text == [] then [] else EscapedByte(text[0], kind) + Escaped(text[1..], kind)
  }

  /** The writer's output and its loop over a NUL-terminated text. */
  class BufferedWriter {
    var written: seq<byte>

    constructor ()
      ensures written == []
    {
      written := [];
    }

    method Write(s: seq<byte>)
      modifies this
      ensures written == old(written) + s
    {
      written := written + s;
    }

    method TextOutputEscaped(s: array<byte>, from: nat, ghost end: nat, kind: Kind)
      requires from <= end < s.Length && s[end] == 0 && 0 !in s[from..end]
      modifies this
      ensures written == old(written) + Escaped(s[from..end], kind)
    {
      hide Escaped, EscapedByte, Special;
      var i := from;
      assert s[from..from] == [];
      EscapedNothing(kind);
      while s[i] != 0
        invariant from <= i <= end
        invariant written == old(written) + Escaped(s[from..i], kind)
        decreases end - i
      {
        var prev := i;
        i := SkipPlain(s, prev, end, kind);
        Write(s[prev..i]);
        SliceJoins(s[..], from, prev, i);
        PlainRun(s[from..prev], s[prev..i], kind);
        if s[i] != 0 {
          SliceJoins(s[..], from, i, i + 1);
          WriteSpecial(s[i], kind);
          EscapedAppend(s[from..i], s[i], kind);
          i := i + 1;
        }
      }
      assert i == end;
    }

    /** The inner loop: where the run of bytes that need no escape ends. */
    method SkipPlain(s: array<byte>, prev: nat, ghost end: nat, kind: Kind) returns (i: nat)
      requires prev <= end < s.Length && s[end] == 0 && 0 !in s[prev..end]
      ensures prev <= i <= end && Special(s[i], kind)
      ensures forall b | b in s[prev..i] :: b != 0 && !Special(b, kind)
    {
      i := prev;
      while !Special(s[i], kind)
        invariant prev <= i <= end
        invariant forall k :: prev <= k < i ==> s[k] != 0 && !Special(s[k], kind)
        decreases end - i
      {
        assert s[i] in s[prev..end];
        i := i + 1;
      }
    }

    method WriteSpecial(b: byte, kind: Kind)
      requires b != 0 && Special(b, kind)
      modifies this
      ensures written == old(written) + EscapedByte(b, kind)
    {
      if b == AMP {
        Write([AMP, LETTER_A, LETTER_M, LETTER_P, SEMICOLON]);
      } else if b == LESS {
        Write([AMP, LETTER_L, LETTER_T, SEMICOLON]);
      } else if b == GREATER {
        Write([AMP, LETTER_G, LETTER_T, SEMICOLON]);
      } else if b == QUOTE {
        Write([AMP, LETTER_Q, LETTER_U, LETTER_O, LETTER_T, SEMICOLON]);
      } else {
        Write([AMP, HASH, b / 10 + 48, b % 10 + 48, SEMICOLON]);
      }
    }
  }

  lemma EscapedNothing(kind: Kind)
    ensures Escaped([], kind) == []
  {
  }

  lemma {:induction false} EscapedAppend(text: seq<byte>, b: byte, kind: Kind)
    requires 0 !in text && b != 0
    ensures 0 !in text + [b] && Escaped(text + [b], kind) == Escaped(text, kind) + EscapedByte(b, kind)
  {
    hide EscapedByte;
    if text == [] {
      assert [b][1..] == [];
    } else {
      EscapedAppend(text[1..], b, kind);
      assert (text + [b])[1..] == text[1..] + [b];
    }
  }

  /** Bytes that are not special stand for themselves. */
  lemma SliceJoins(s: seq<byte>, from: nat, mid: nat, upto: nat)
    requires from <= mid <= upto <= |s|
    ensures s[from..upto] == s[from..mid] + s[mid..upto]
    ensures upto == mid + 1 ==> s[mid..upto] == [s[mid]]
  {
  }

  lemma {:induction false} PlainRun(text: seq<byte>, run: seq<byte>, kind: Kind)
    requires 0 !in text && 0 !in run && forall k :: 0 <= k < |run| ==> !Special(run[k], kind)
    ensures 0 !in text + run && Escaped(text + run, kind) == Escaped(text, kind) + run
    decreases |run|
  {
    hide Escaped;
    if run == [] {
      assert text + run == text;
    } else {
      var last := |run| - 1;
      PlainRun(text, run[..last], kind);
      EscapedAppend(text + run[..last], run[last], kind);
      assert text + run == text + run[..last] + [run[last]];
    }
  }
}
