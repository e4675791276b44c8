/** Unescaping in place: decoded text overwrites its source, and a moving gap of bytes no longer
    needed is closed by moving only what lies between two gaps. */
module XmlGap {
  import opened Bytes
  import opened XmlUtf
  import opened XmlText

  /** A gap of `size` bytes that ends at `end`; `end` is null until there is one. */
  class Gap {
    var open: bool
    var end: nat
    var size: nat

    constructor ()
      ensures !open && size == 0
    {
      open, end, size := false, 0, 0;
    }

    /** The text starts at `start` and has been read up to `s`. */
    predicate Valid(start: nat, s: nat)
      reads this
    {
      Placed(open, end, size, start, s)
    }

    /** The text read so far, without the gap. */
    function Output(b: array<byte>, start: nat, s: nat): (out: seq<byte>)
      requires Valid(start, s) && s <= b.Length
      reads this, b
    {
      Joined(open, end, size, b[..], start, s)
    }

    /** Pushes a new gap of `count` bytes at `s`, past which the reading goes on. */
    method Push(b: array<byte>, ghost start: nat, s: nat, count: nat) returns (next: nat)
      requires Valid(start, s) && s + count <= b.Length
      modifies this, b
      ensures next == s + count && Valid(start, next)
      ensures Output(b, start, next) == old(Output(b, start, s))
      ensures b[..start] == old(b[..start]) && b[s..] == old(b[s..])
    {
      hide Joined;
      Close(b, start, s);
      next := s + count;
      open, end, size := true, next, size + count;
      JoinedAtEnd(next, size, b[..], start);
    }

    /** Collapses all gaps and returns the end of the text. */
    method Flush(b: array<byte>, ghost start: nat, s: nat) returns (end: nat)
      requires Valid(start, s) && s <= b.Length
      modifies b
      ensures start <= end <= s && b[start..end] == old(Output(b, start, s))
      ensures b[..start] == old(b[..start]) && b[s..] == old(b[s..])
    {
      hide Joined;
      Close(b, start, s);
      end := s - size;
    }

    /** `memmove(end - size, end, s - end)`, when there is a gap. */
    method Close(b: array<byte>, ghost start: nat, s: nat)
      requires Valid(start, s) && s <= b.Length
      modifies b
      ensures b[start..s - size] == old(Output(b, start, s))
      ensures b[..start] == old(b[..start]) && b[s..] == old(b[s..])
    {
      hide Joined;
      ghost var was := b[..];
      if open {
        Memmove(b, end - size, end, s - end);
      }
      Closed(open, end, size, was, start, s);
    }
  }

  predicate Placed(open: bool, end: nat, size: nat, start: nat, s: nat)
  {
    start <= s && (if open then size <= end <= s && start <= end - size else size == 0)
  }

  function Joined(open: bool, end: nat, size: nat, c: seq<byte>, start: nat, s: nat): (out: seq<byte>)
    requires Placed(open, end, size, start, s) && s <= |c|
  {
    if open then c[start..end - size] + c[end..s] else c[start..s]
  }

  lemma JoinedAtEnd(end: nat, size: nat, c: seq<byte>, start: nat)
    requires Placed(true, end, size, start, end) && end <= |c|
    ensures Joined(true, end, size, c, start, end) == c[start..end - size]
  {
  }

  /** Without anything in the gap the buffer reads as what has come out. */
  lemma JoinedWhole(open: bool, end: nat, size: nat, c: seq<byte>, start: nat, s: nat)
    requires Placed(open, end, size, start, s) && s <= |c|
    ensures |Joined(open, end, size, c, start, s)| == s - start <==> Joined(open, end, size, c, start, s) == c[start..s]
  {
  }

  lemma JoinedGrows(open: bool, end: nat, size: nat, c: seq<byte>, start: nat, s: nat, next: nat)
    requires Placed(open, end, size, start, s) && s <= next <= |c|
    ensures Joined(open, end, size, c, start, next) == Joined(open, end, size, c, start, s) + c[s..next]
  {
    if open {
      assert c[end..next] == c[end..s] + c[s..next];
    } else {
      assert c[start..next] == c[start..s] + c[s..next];
    }
  }

  lemma JoinedDepends(open: bool, end: nat, size: nat, c: seq<byte>, d: seq<byte>, start: nat, s: nat)
    requires Placed(open, end, size, start, s) && s <= |c| && s <= |d| && c[..s] == d[..s]
    ensures Joined(open, end, size, c, start, s) == Joined(open, end, size, d, start, s)
  {
    assert c[start..s] == c[..s][start..] && d[start..s] == d[..s][start..];
    if open {
      assert c[start..end - size] == c[..s][start..end - size] && d[start..end - size] == d[..s][start..end - size];
      assert c[end..s] == c[..s][end..] && d[end..s] == d[..s][end..];
    }
  }

  lemma Closed(open: bool, end: nat, size: nat, c: seq<byte>, start: nat, s: nat)
    requires Placed(open, end, size, start, s) && s <= |c|
    ensures var d := if open then c[..end - size] + c[end..s] + c[s - size..] else c;
      && |d| == |c|
      && d[start..s - size] == Joined(open, end, size, c, start, s)
      && d[..start] == c[..start] && d[s..] == c[s..]
  {
    if open {
      ClosedOpen(end, size, c, start, s);
    }
  }

  lemma ClosedOpen(end: nat, size: nat, c: seq<byte>, start: nat, s: nat)
    requires Placed(true, end, size, start, s) && s <= |c|
    ensures var d := c[..end - size] + c[end..s] + c[s - size..];
      && |d| == |c|
      && d[start..s - size] == c[start..end - size] + c[end..s]
      && d[..start] == c[..start] && d[s..] == c[s..]
  {
    var d := c[..end - size] + c[end..s] + c[s - size..];
    assert d[start..s - size] == d[start..end - size] + d[end - size..s - size];
  }

  /** Moves `n` bytes from `source` down to `target`; the two ranges may overlap. */
  method Memmove(b: array<byte>, target: nat, source: nat, n: nat)
    requires target <= source && source + n <= b.Length
    modifies b
    ensures b[..] == old(b[..target] + b[source..source + n] + b[target + n..])
  {
    ghost var was := b[..];
    forall k | target <= k < target + n {
      b[k] := b[k + (source - target)];
    }
    assert b[..target] == was[..target] && b[target + n..] == was[target + n..];
    ghost var moved, read := b[target..target + n], was[source..source + n];
    forall k | 0 <= k < n ensures moved[k] == read[k] {
      assert b[target + k] == was[target + k + (source - target)];
    }
    assert moved == read;
    assert b[..] == b[..target] + b[target..target + n] + b[target + n..];
  }

  // --- reading a reference ---

  /** The bytes that can stand behind a text; none of them is part of a reference. */
  predicate EndsText(b: byte)
  {
    b == 0 || b == LESS || b == QUOTE || b == APOS
  }

  method ReadDigits(b: array<byte>, from: nat, base: nat, ghost s: nat, ghost stop: nat)
    returns (value: uint32, end: nat)
    requires s <= from <= stop < b.Length && EndsText(b[stop])
    ensures from <= end <= stop
    ensures Number(b[s..stop], from - s, base, 0) == (value, end - s)
  {
    value, end := 0, from;
    while Digit(b[end], base) >= 0
      invariant from <= end <= stop
      invariant Number(b[s..stop], from - s, base, 0) == Number(b[s..stop], end - s, base, value)
      decreases stop - end
    {
      value := (base * value + Digit(b[end], base)) % 0x1_0000_0000;
      end := end + 1;
    }
  }

  /** A numeric reference whose digits start at `from`. */
  method ReadNumeric(b: array<byte>, from: nat, base: nat, ghost s: nat, ghost stop: nat)
    returns (decoded: bool, out: seq<byte>, end: nat)
    requires s <= from <= stop < b.Length && EndsText(b[stop])
    ensures var r := Numeric(b[s..stop], from - s, base);
      decoded == r.decoded && end == s + r.length && (decoded ==> out == r.out)
  {
    hide Number, Utf8Any, Digit;
    if b[from] == SEMICOLON {
      return false, [], from;
    }
    var value;
    value, end := ReadDigits(b, from, base, s, stop);
    if b[end] == SEMICOLON {
      return true, Utf8Any(value), end + 1;
    }
    return false, [], end;
  }

  /** Compares the text with a name, byte after byte, up to the first difference. */
  method ReadName(b: array<byte>, from: nat, name: seq<byte>, ghost s: nat, ghost stop: nat) returns (end: nat)
    requires s <= from <= stop < b.Length && EndsText(b[stop])
    requires forall k :: 0 <= k < |name| ==> !EndsText(name[k])
    requires 0 !in name
    ensures end == from + Matched(b[s..stop], from - s, name)
  {
    end := from;
    while end - from < |name| && b[end] == name[end - from]
      invariant from <= end <= stop && end - from <= |name|
      invariant Matched(b[s..stop], from - s, name) == end - from + Matched(b[s..stop], end - s, name[end - from..])
      decreases |name| - (end - from)
    {
      assert name[end - from..][1..] == name[end - from + 1..];
      end := end + 1;
    }
  }

  /** Tries one name behind the ampersand at `s`; `ch` is what it stands for. */
  method ReadNamed(b: array<byte>, s: nat, name: seq<byte>, ch: byte, ghost stop: nat)
    returns (decoded: bool, out: seq<byte>, end: nat)
    requires s < stop < b.Length && EndsText(b[stop])
    requires (name, ch) == Name(b[s..stop]) && At(b[s..stop], 1) != HASH && name != []
    requires forall k :: 0 <= k < |name| ==> !EndsText(name[k])
    requires 0 !in name
    ensures var r := Entity(b[s..stop]);
      decoded == r.decoded && end == s + r.length && (decoded ==> out == r.out)
  {
    hide Matched, Name;
    end := ReadName(b, s + 1, name, s, stop);
    decoded, out := end - (s + 1) == |name|, [ch];
  }

  /** The switch of `strconv_escape`, without its writing. */
  method ReadReference(b: array<byte>, s: nat, ghost stop: nat) returns (decoded: bool, out: seq<byte>, end: nat)
    requires s < stop < b.Length && EndsText(b[stop])
    ensures var r := Entity(b[s..stop]);
      decoded == r.decoded && end == s + r.length && (decoded ==> out == r.out)
  {
    hide Matched, Number, Digit, Utf8Any, Numeric;
    ghost var t := b[s..stop];
    if b[s + 1] == HASH {
      assert At(t, 1) == HASH;
      if b[s + 2] == LETTER_X {
        decoded, out, end := ReadNumeric(b, s + 3, 16, s, stop);
      } else {
        decoded, out, end := ReadNumeric(b, s + 2, 10, s, stop);
      }
    } else if b[s + 1] == LETTER_A {
      assert At(t, 1) == LETTER_A;
      if b[s + 2] == LETTER_M {
        decoded, out, end := ReadNamed(b, s, [LETTER_A, LETTER_M, LETTER_P, SEMICOLON], AMP, stop);
      } else if b[s + 2] == LETTER_P {
        decoded, out, end := ReadNamed(b, s, [LETTER_A, LETTER_P, LETTER_O, LETTER_S, SEMICOLON], APOS, stop);
      } else {
        decoded, out, end := false, [], s + 2;
        MatchedOne(t, [LETTER_A, LETTER_M, LETTER_P, SEMICOLON]);
      }
    } else if b[s + 1] == LETTER_G {
      decoded, out, end := ReadNamed(b, s, [LETTER_G, LETTER_T, SEMICOLON], GREATER, stop);
    } else if b[s + 1] == LETTER_L {
      decoded, out, end := ReadNamed(b, s, [LETTER_L, LETTER_T, SEMICOLON], LESS, stop);
    } else if b[s + 1] == LETTER_Q {
      decoded, out, end := ReadNamed(b, s, [LETTER_Q, LETTER_U, LETTER_O, LETTER_T, SEMICOLON], QUOTE, stop);
    } else {
      decoded, out, end := false, [], s + 1;
      MatchedNone(t);
    }
  }

  lemma MatchedOne(t: seq<byte>, name: seq<byte>)
    requires |t| >= 1 && |name| >= 2 && 0 !in name && At(t, 1) == name[0] && At(t, 2) != name[1]
    ensures Matched(t, 1, name) == 1
  {
    assert name[1..][0] == name[1];
  }

  lemma MatchedNone(t: seq<byte>)
    requires |t| >= 1
    ensures Matched(t, 1, []) == 0
  {
  }

  // --- rewriting in place ---

  /** One more byte read and kept. */
  lemma OutputGrows(g: Gap, b: array<byte>, start: nat, s: nat, next: nat)
    requires g.Valid(start, s) && s <= next <= b.Length
    ensures g.Valid(start, next) && g.Output(b, start, next) == g.Output(b, start, s) + b[s..next]
  {
    JoinedGrows(g.open, g.end, g.size, b[..], start, s, next);
    assert b[..][s..next] == b[s..next];
  }

  /** Writes `out` at `s`. */
  method Write(b: array<byte>, s: nat, out: seq<byte>)
    requires s + |out| <= b.Length
    modifies b
    ensures b[..] == old(b[..s]) + out + old(b[s + |out|..])
  {
    forall k | s <= k < s + |out| {
      b[k] := out[k - s];
    }
  }

  lemma Written(c: seq<byte>, s: nat, out: seq<byte>, start: nat)
    requires start <= s && s + |out| <= |c|
    ensures var d := c[..s] + out + c[s + |out|..];
      && |d| == |c| && d[..s] == c[..s] && d[s..s + |out|] == out && d[s + |out|..] == c[s + |out|..]
      && d[..start] == c[..start]
  {
  }

  lemma Suffix(c: seq<byte>, d: seq<byte>, s: nat, next: nat)
    requires s <= next <= |c| == |d| && c[s..] == d[s..]
    ensures c[next..] == d[next..]
  {
    assert c[next..] == c[s..][next - s..] && d[next..] == d[s..][next - s..];
  }

  /** Writes `out` at `s` and drops what is left of the source text up to `next`. */
  method Replace(b: array<byte>, g: Gap, ghost start: nat, s: nat, out: seq<byte>, next: nat)
    requires g.Valid(start, s) && s + |out| <= next <= b.Length
    modifies g, b
    ensures g.Valid(start, next) && g.Output(b, start, next) == old(g.Output(b, start, s)) + out
    ensures b[..start] == old(b[..start]) && b[next..] == old(b[next..])
  {
    hide Joined;
    ghost var was := b[..];
    Write(b, s, out);
    ghost var now := b[..];
    Written(was, s, out, start);
    JoinedDepends(g.open, g.end, g.size, was, now, start, s);
    JoinedGrows(g.open, g.end, g.size, now, start, s, s + |out|);
    var end := g.Push(b, start, s + |out|, next - (s + |out|));
    Suffix(now, was, s + |out|, next);
    Suffix(b[..], now, s + |out|, next);
  }

  method StrconvEscape(b: array<byte>, s: nat, g: Gap, ghost start: nat, ghost stop: nat) returns (next: nat)
    requires g.Valid(start, s) && s < stop < b.Length && EndsText(b[stop])
    modifies g, b
    ensures next == s + old(Entity(b[s..stop])).length <= stop && g.Valid(start, next)
    ensures g.Output(b, start, next) == old(g.Output(b, start, s)) + old(Entity(b[s..stop])).out
    ensures b[..start] == old(b[..start]) && b[next..] == old(b[next..])
  {
    hide Entity;
    ghost var t := b[s..stop];
    EntityShrinks(t);
    var decoded, out;
    decoded, out, next := ReadReference(b, s, stop);
    if decoded {
      Replace(b, g, start, s, out, next);
    } else {
      EntityKeeps(t);
      assert b[s..next] == t[..next - s];
      OutputGrows(g, b, start, s, next);
    }
  }

  lemma EntityKeeps(t: seq<byte>)
    requires t != [] && !Entity(t).decoded
    ensures Entity(t).length <= |t| && Entity(t).out == t[..Entity(t).length]
  {
  }

  /** Overwrites the byte at `s`. */
  method Overwrite(b: array<byte>, g: Gap, ghost start: nat, s: nat, to: byte)
    requires g.Valid(start, s) && s < b.Length
    modifies b
    ensures g.Valid(start, s + 1) && g.Output(b, start, s + 1) == old(g.Output(b, start, s)) + [to]
    ensures b[..start] == old(b[..start]) && b[s + 1..] == old(b[s + 1..])
  {
    hide Joined;
    ghost var was := b[..];
    Write(b, s, [to]);
    Written(was, s, [to], start);
    JoinedDepends(g.open, g.end, g.size, was, b[..], start, s);
    JoinedGrows(g.open, g.end, g.size, b[..], start, s, s + 1);
  }

  /** A carriage return becomes `to`; a newline after it goes into the gap. */
  method RewriteReturn(b: array<byte>, g: Gap, ghost start: nat, s: nat, to: byte) returns (next: nat)
    requires g.Valid(start, s) && s + 1 < b.Length
    modifies g, b
    ensures next == if old(b[s + 1]) == LF then s + 2 else s + 1
    ensures g.Valid(start, next) && g.Output(b, start, next) == old(g.Output(b, start, s)) + [to]
    ensures b[..start] == old(b[..start]) && b[next..] == old(b[next..])
  {
    hide Joined;
    assert b[s + 1..][0] == b[s + 1];
    Overwrite(b, g, start, s, to);
    assert b[s + 1..][0] == b[s + 1];
    next := s + 1;
    if b[next] == LF {
      ghost var c := b[..];
      assert c[next..] == old(b[..])[s + 1..];
      next := g.Push(b, start, next, 1);
      Suffix(c, old(b[..]), s + 1, next);
      Suffix(b[..], c, s + 1, next);
    }
  }

  // --- whole texts ---

  /** Where the text from `from` on ends: at the first `end` byte or NUL. */
  ghost function TextEnd(c: seq<byte>, from: nat, end: byte): (stop: nat)
    requires from < |c| && 0 in c[from..]
    ensures from <= stop < |c| && (c[stop] == 0 || c[stop] == end)
    ensures forall k :: from <= k < stop ==> c[k] != 0 && c[k] != end
    decreases |c| - from
  {
    if c[from] == 0 || c[from] == end then from else TextEnd(c, from + 1, end)
  }

  /** The text of `c0` has been read up to `s` and has come out as `out` so far. */
  ghost predicate Progress(c0: seq<byte>, c: seq<byte>, out: seq<byte>, start: nat, s: nat, stop: nat,
                           lines: Lines, escape: bool)
  {
    && start <= s <= stop < |c0| && |c0| == |c|
    && c[..start] == c0[..start] && c[s..] == c0[s..]
    && Unescaped(c0[start..stop], lines, escape) == out + Unescaped(c0[s..stop], lines, escape)
  }

  /** Whether a byte is rewritten when it is read. */
  predicate Rewrites(b: byte, lines: Lines, escape: bool)
  {
    || (!lines.Kept? && b == CR)
    || (lines.Spaces? && (b == LF || b == TAB))
    || (escape && b == AMP)
  }

  lemma PlainStep(c0: seq<byte>, c: seq<byte>, out: seq<byte>, start: nat, s: nat, stop: nat,
                  lines: Lines, escape: bool)
    requires Progress(c0, c, out, start, s, stop, lines, escape) && s < stop && !Rewrites(c0[s], lines, escape)
    ensures Progress(c0, c, out + c[s..s + 1], start, s + 1, stop, lines, escape)
  {
    hide Unescaped;
    Advance(c0, c, s, s + 1, stop);
    assert c[s..s + 1] == [c0[s]];
    var t := c0[s..stop];
    UnescapedPlain(t, lines, escape);
    var rest := Unescaped(t[1..], lines, escape);
    assert out + ([c0[s]] + rest) == out + [c0[s]] + rest;
  }

  lemma UnescapedPlain(t: seq<byte>, lines: Lines, escape: bool)
    requires t != [] && !Rewrites(t[0], lines, escape)
    ensures Unescaped(t, lines, escape) == [t[0]] + Unescaped(t[1..], lines, escape)
  {
  }

  lemma Advance(c0: seq<byte>, c: seq<byte>, s: nat, next: nat, stop: nat)
    requires s < stop < |c0| && |c0| == |c| && s <= next <= stop && c[s..] == c0[s..]
    ensures c[next..] == c0[next..] && c0[s..stop][next - s..] == c0[next..stop] && c[s] == c0[s] && c[stop] == c0[stop]
    ensures c[s..stop] == c0[s..stop]
    ensures c[s + 1] == c0[s + 1]
  {
    Suffix(c, c0, s, next);
    assert c[s] == c[s..][0] && c[stop] == c[s..][stop - s] && c[s + 1] == c[s..][1];
    assert c0[s] == c0[s..][0] && c0[stop] == c0[s..][stop - s] && c0[s + 1] == c0[s..][1];
    assert c[s..stop] == c[s..][..stop - s] && c0[s..stop] == c0[s..][..stop - s];
  }

  /** What the rewritten byte at the front of a text becomes, and how much it takes along. */
  function Piece(t: seq<byte>, lines: Lines): (r: (seq<byte>, nat))
    requires t != []
  {
    if !lines.Kept? && t[0] == CR then ([if lines.Spaces? then SPACE else LF], if At(t, 1) == LF then 2 else 1)
    else if lines.Spaces? && (t[0] == LF || t[0] == TAB) then ([SPACE], 1)
    else (Entity(t).out, Entity(t).length)
  }

  lemma UnescapedStep(t: seq<byte>, lines: Lines, escape: bool)
    requires t != [] && Rewrites(t[0], lines, escape)
    ensures 1 <= Piece(t, lines).1 <= |t|
    ensures Unescaped(t, lines, escape) == Piece(t, lines).0 + Unescaped(t[Piece(t, lines).1..], lines, escape)
  {
    hide Entity;
    EntityShrinks(t);
  }

  /** One reference or rewritten byte. */
  method Rewrite(b: array<byte>, g: Gap, s: nat, lines: Lines, escape: bool, ghost start: nat, ghost stop: nat)
    returns (next: nat)
    requires g.Valid(start, s) && s < stop < b.Length
    requires EndsText(b[stop]) && Rewrites(b[s], lines, escape)
    modifies g, b
    ensures next == s + old(Piece(b[..][s..stop], lines)).1 <= stop && g.Valid(start, next)
    ensures g.Output(b, start, next) == old(g.Output(b, start, s)) + old(Piece(b[..][s..stop], lines)).0
    ensures b[..start] == old(b[..start]) && b[next..] == old(b[next..])
  {
    hide Joined, Entity;
    assert b[s..stop] == b[..][s..stop];
    EntityShrinks(b[s..stop]);
    if !lines.Kept? && b[s] == CR {
      next := RewriteReturn(b, g, start, s, if lines.Spaces? then SPACE else LF);
    } else if lines.Spaces? && (b[s] == LF || b[s] == TAB) {
      Overwrite(b, g, start, s, SPACE);
      next := s + 1;
    } else {
      next := StrconvEscape(b, s, g, start, stop);
    }
  }

  lemma RewriteStep(c0: seq<byte>, c: seq<byte>, d: seq<byte>, out: seq<byte>, start: nat, s: nat, stop: nat,
                    lines: Lines, escape: bool)
    requires Progress(c0, c, out, start, s, stop, lines, escape) && s < stop && Rewrites(c[s], lines, escape)
    requires var next := s + Piece(c[s..stop], lines).1;
      |d| == |c| && next <= stop && d[..start] == c[..start] && d[next..] == c[next..]
    ensures var next := s + Piece(c[s..stop], lines).1;
      s < next && Progress(c0, d, out + Piece(c[s..stop], lines).0, start, next, stop, lines, escape)
  {
    hide Piece, Unescaped;
    var t := c0[s..stop];
    Advance(c0, c, s, s, stop);
    UnescapedStep(t, lines, escape);
    Advance(c0, c, s, s + Piece(t, lines).1, stop);
    var rest := Unescaped(t[Piece(t, lines).1..], lines, escape);
    assert out + (Piece(t, lines).0 + rest) == out + Piece(t, lines).0 + rest;
  }

  lemma ProgressStarts(end: nat, size: nat, c0: seq<byte>, start: nat, stop: nat, lines: Lines, escape: bool)
    requires start <= stop < |c0| && size == 0
    ensures Progress(c0, c0, Joined(false, end, size, c0, start, start), start, start, stop, lines, escape)
  {
    hide Unescaped;
    assert c0[start..start] == [];
    assert [] + Unescaped(c0[start..stop], lines, escape) == Unescaped(c0[start..stop], lines, escape);
  }

  lemma ProgressReads(c0: seq<byte>, c: seq<byte>, out: seq<byte>, start: nat, s: nat, stop: nat,
                      lines: Lines, escape: bool)
    requires Progress(c0, c, out, start, s, stop, lines, escape)
    ensures start <= s <= stop < |c| == |c0| && c[s] == c0[s] && c[stop] == c0[stop]
  {
    assert c[s..][0] == c0[s..][0] && c[s..][stop - s] == c0[s..][stop - s];
  }

  lemma ProgressEnds(c0: seq<byte>, c: seq<byte>, out: seq<byte>, start: nat, stop: nat, lines: Lines, escape: bool)
    requires Progress(c0, c, out, start, stop, stop, lines, escape)
    ensures out == Unescaped(c0[start..stop], lines, escape)
    ensures c[..start] == c0[..start] && c[stop..] == c0[stop..]
  {
    assert c0[stop..stop] == [];
  }

  /** The loop of `strconv_pcdata_impl` and of the attribute converters: reads up to `end` or NUL,
      and terminates the text with NUL in the first case. */
  method Convert(b: array<byte>, start: nat, end: byte, lines: Lines, escape: bool) returns (ended: bool, next: nat)
    requires start < b.Length && 0 in b[..][start..]
    requires end == LESS || end == QUOTE || end == APOS
    modifies b
    ensures var stop := old(TextEnd(b[..], start, end));
      var u := old(Unescaped(b[..][start..stop], lines, escape));
      && start + |u| <= stop < b.Length
      && ended == (old(b[stop]) == end)
      && b[..start] == old(b[..start])
      && if ended
         then next == stop + 1 && b[start..start + |u|] == u && b[start + |u|] == 0 && b[next..] == old(b[next..])
         else next == stop && b[next..] == old(b[next..]) && (b[start..stop] == u <==> |u| == stop - start)
  {
    hide Joined, Unescaped, Progress, TextEnd;
    ghost var c0, stop := b[..], TextEnd(b[..], start, end);
    var g := new Gap();
    var s := start;
    ProgressStarts(g.end, g.size, c0, start, stop, lines, escape);
    UnescapedShrinks(c0[start..stop], lines, escape);
    while true
      invariant fresh(g) && g.Valid(start, s) && s <= stop
      invariant Progress(c0, b[..], g.Output(b, start, s), start, s, stop, lines, escape)
      decreases stop - s
    {
      ProgressReads(c0, b[..], g.Output(b, start, s), start, s, stop, lines, escape);
      if b[s] == end {
        assert s == stop;
        Finish(b, g, start, s, lines, escape, c0);
        return true, s + 1;
      } else if b[s] == 0 {
        assert s == stop;
        ProgressEnds(c0, b[..], g.Output(b, start, s), start, stop, lines, escape);
        JoinedWhole(g.open, g.end, g.size, b[..], start, s);
        assert b[start..s] == b[..][start..s];
        assert b[..start] == c0[..start] && b[s..] == c0[s..];
        return false, s;
      } else {
        s := ReadOne(b, g, s, lines, escape, start, stop, c0);
      }
    }
  }

  /** One byte kept, or one rewriting. */
  method ReadOne(b: array<byte>, g: Gap, s: nat, lines: Lines, escape: bool, ghost start: nat, ghost stop: nat,
                 ghost c0: seq<byte>)
    returns (next: nat)
    requires g.Valid(start, s) && s < stop < |c0| == b.Length && EndsText(c0[stop])
    requires Progress(c0, b[..], g.Output(b, start, s), start, s, stop, lines, escape)
    modifies g, b
    ensures s < next <= stop && g.Valid(start, next)
    ensures Progress(c0, b[..], g.Output(b, start, next), start, next, stop, lines, escape)
  {
    hide Joined, Unescaped, Progress;
    ghost var c, out := b[..], g.Output(b, start, s);
    ProgressReads(c0, c, out, start, s, stop, lines, escape);
    if Rewrites(b[s], lines, escape) {
      next := Rewrite(b, g, s, lines, escape, start, stop);
      RewriteStep(c0, c, b[..], out, start, s, stop, lines, escape);
    } else {
      OutputGrows(g, b, start, s, s + 1);
      PlainStep(c0, c, out, start, s, stop, lines, escape);
      next := s + 1;
    }
  }

  /** The text's end at its markup: what has come out is closed up and terminated. */
  method Finish(b: array<byte>, g: Gap, ghost start: nat, s: nat, ghost lines: Lines, ghost escape: bool,
                ghost c0: seq<byte>)
    requires g.Valid(start, s) && s < b.Length
    requires Progress(c0, b[..], g.Output(b, start, s), start, s, s, lines, escape)
    modifies b
    ensures start <= s < |c0| == b.Length
    ensures var u := Unescaped(c0[start..s], lines, escape);
      start + |u| <= s && b[start..start + |u|] == u && b[start + |u|] == 0
    ensures b[..start] == c0[..start] && b[s + 1..] == c0[s + 1..]
  {
    hide Joined, Unescaped;
    ghost var c := b[..];
    ProgressEnds(c0, c, g.Output(b, start, s), start, s, lines, escape);
    assert b[..start] == c[..start];
    Suffix(c, c0, s, s + 1);
    assert b[s + 1..] == c[s + 1..];
    Terminate(b, g, start, s);
  }

  /** `*g.flush(s) = 0`. */
  method Terminate(b: array<byte>, g: Gap, ghost start: nat, s: nat)
    requires g.Valid(start, s) && s < b.Length
    modifies b
    ensures var u := old(g.Output(b, start, s));
      start + |u| <= s && b[start..start + |u|] == u && b[start + |u|] == 0
    ensures b[..start] == old(b[..start]) && b[s + 1..] == old(b[s + 1..])
  {
    hide Joined;
    ghost var was := b[..];
    var end := g.Flush(b, start, s);
    ghost var now := b[..];
    b[end] := 0;
    assert b[start..end] == now[start..end];
    Suffix(now, was, s, s + 1);
    assert b[s + 1..] == now[s + 1..];
    assert b[..start] == now[..start];
  }

  /** Character data, up to the markup behind it. Text that ends in NUL keeps its open gap, and reads as
      the rewriting if and only if nothing went into the gap. */
  method StrconvPcdata(b: array<byte>, start: nat, eol: bool, escape: bool) returns (next: nat)
    requires start < b.Length && 0 in b[..][start..]
    modifies b
    ensures var stop := old(TextEnd(b[..], start, LESS));
      var u := old(Unescaped(b[..][start..stop], if eol then Newlines else Kept, escape));
      && start + |u| <= stop < b.Length && b[..start] == old(b[..start])
      && next == (if old(b[stop]) == LESS then stop + 1 else stop) && b[next..] == old(b[next..])
      && (old(b[stop]) == LESS ==> b[start..start + |u|] == u && b[start + |u|] == 0)
      && (old(b[stop]) != LESS ==>
            (b[start..stop] == u <==> old(NothingDropped(b[..][start..stop], if eol then Newlines else Kept, escape))))
  {
    hide Unescaped, TextEnd, NothingDropped;
    DroppedIff(b[..][start..TextEnd(b[..], start, LESS)], if eol then Newlines else Kept, escape);
    var ended;
    ended, next := Convert(b, start, LESS, if eol then Newlines else Kept, escape);
  }

  /** An attribute value, up to the quote it began with; none when the quote is missing. */
  method StrconvAttribute(b: array<byte>, start: nat, quote: byte, lines: Lines, escape: bool) returns (next: nat)
    requires start < b.Length && 0 in b[..][start..]
    requires quote == QUOTE || quote == APOS
    modifies b
    ensures var stop := old(TextEnd(b[..], start, quote));
      var u := old(Unescaped(b[..][start..stop], lines, escape));
      && start + |u| <= stop < b.Length && b[..start] == old(b[..start])
      && next == (if old(b[stop]) == quote then stop + 1 else 0)
      && (old(b[stop]) == quote ==>
            b[start..start + |u|] == u && b[start + |u|] == 0 && b[next..] == old(b[next..]))
  {
    hide Unescaped, TextEnd;
    var ended;
    ended, next := Convert(b, start, quote, lines, escape);
    if !ended {
      next := 0;
    }
  }
}
