/** Unicode transcoding in two passes: a counter predicts how many code units a writer will
    emit; the decoders hand both the same characters. */
module XmlUtf {
  import opened Bytes

  type uint16 = x: int | 0 <= x < 0x1_0000
  type uint32 = x: int | 0 <= x < 0x1_0000_0000

  /** A decoded character as the decoders report it: through `low`, which is only for characters
      below U+10000, or through `high`. */
  datatype Unit = Low(word: uint16) | High(ch: uint32)

  datatype Encoding = Utf8 | Utf16 | Utf32 | Latin1

  // --- what a character is encoded as ---

  function Utf8Low(ch: uint16): (s: seq<uint32>)
  {
    if ch < 0x80 then [ch]
    else if ch < 0x800 then [0xC0 + ch / 0x40, 0x80 + ch % 0x40]
    else [0xE0 + ch / 0x1000, 0x80 + ch / 0x40 % 0x40, 0x80 + ch % 0x40]
  }

  /** Four bytes; the first keeps three of the bits above the low 18, all it has room for
      beside its marker. */
  function Utf8High(ch: uint32): (s: seq<uint32>)
  {
    [0xF0 + ch / 0x4_0000 % 0x10, 0x80 + ch / 0x1000 % 0x40, 0x80 + ch / 0x40 % 0x40, 0x80 + ch % 0x40]
  }

  function Utf16High(ch: uint32): (s: seq<uint32>)
  {
    var x := (ch - 0x1_0000) % 0x1_0000_0000;
    [(0xD800 + x / 0x400) % 0x1_0000, 0xDC00 + x % 0x400]
  }

  function Encode(e: Encoding, u: Unit): (s: seq<uint32>)
  {
    match (e, u)
    case (Utf8, Low(ch)) => Utf8Low(ch)
    case (Utf8, High(ch)) => Utf8High(ch)
    case (Utf16, Low(ch)) => [ch]
    case (Utf16, High(ch)) => Utf16High(ch)
    case (Utf32, Low(ch)) => [ch]
    case (Utf32, High(ch)) => [ch]
    case (Latin1, Low(ch)) => [if ch > 255 then 63 else ch]
    case (Latin1, High(_)) => [63]
  }

  function EncodeAll(e: Encoding, us: seq<Unit>): (s: seq<uint32>)
  {
    if us == [] then [] else Encode(e, us[0]) + EncodeAll(e, us[1..])
  }

  lemma EncodeAllCons(e: Encoding, u: Unit, us: seq<Unit>)
    ensures EncodeAll(e, [u] + us) == Encode(e, u) + EncodeAll(e, us)
  {
    hide Encode;
    assert ([u] + us)[1..] == us;
  }

  // --- what a text decodes to ---

  function Swap16(v: uint16): (w: uint16)
  {
    v % 0x100 * 0x100 + v / 0x100
  }

  function Swap32(v: uint32): (w: uint32)
  {
    v % 0x100 * 0x100_0000 + v / 0x100 % 0x100 * 0x1_0000 + v / 0x1_0000 % 0x100 * 0x100 + v / 0x100_0000
  }

  function Lead16(v: uint16, swap: bool): (w: uint16)
  {
    if swap then Swap16(v) else v
  }

  predicate IsLowWord(w: uint16)
  {
    w < 0xD800 || w >= 0xE000
  }

  predicate IsPair(w: uint16, next: uint16)
  {
    0xD800 <= w < 0xDC00 && 0xDC00 <= next < 0xE000
  }

  function PairValue(w: uint16, next: uint16): (ch: uint32)
    requires IsPair(w, next)
  {
    0x1_0000 + (w - 0xD800) * 0x400 + (next - 0xDC00)
  }

  /** Words outside surrogate pairs that are surrogates are dropped. */
  function Units16(data: seq<uint16>, swap: bool): (us: seq<Unit>)
  {
    if data == [] then [] else
      var lead := Lead16(data[0], swap);
      if IsLowWord(lead) then [Low(lead)] + Units16(data[1..], swap)
      else if |data| > 1 && IsPair(lead, Lead16(data[1], swap)) then
        [High(PairValue(lead, Lead16(data[1], swap)))] + Units16(data[2..], swap)
      else Units16(data[1..], swap)
  }

  function Units32(data: seq<uint32>, swap: bool): (us: seq<Unit>)
  {
    if data == [] then [] else
      var lead := if swap then Swap32(data[0]) else data[0];
      [if lead < 0x1_0000 then Low(lead) else High(lead)] + Units32(data[1..], swap)
  }

  function UnitsLatin1(data: seq<byte>): (us: seq<Unit>)
  {
    if data == [] then [] else [Low(data[0])] + UnitsLatin1(data[1..])
  }

  predicate IsTail(b: byte)
  {
    0x80 <= b < 0xC0
  }

  /** The character a sequence of two to four bytes stands for, when the source reads it so. */
  function Bits(data: seq<byte>, i: nat, n: nat): (ch: uint32)
    requires 2 <= n <= 4 && i + n <= |data|
    requires match n case 2 => 0xC0 <= data[i] < 0xE0 case 3 => 0xE0 <= data[i] < 0xF0 case _ => 0xF0 <= data[i] < 0xF8
    ensures n < 4 ==> ch < 0x1_0000
  {
    match n
    case 2 => (data[i] as int - 0xC0) * 0x40 + data[i + 1] as int % 0x40
    case 3 => (data[i] as int - 0xE0) * 0x1000 + data[i + 1] as int % 0x40 * 0x40 + data[i + 2] as int % 0x40
    case _ =>
      (data[i] as int - 0xF0) * 0x4_0000 + data[i + 1] as int % 0x40 * 0x1000
      + data[i + 2] as int % 0x40 * 0x40 + data[i + 3] as int % 0x40
  }

  /** One UTF-8 sequence: the character, if the bytes form one, and how many bytes it took. */
  function Unit8(data: seq<byte>): (r: (seq<Unit>, nat))
    requires data != []
    ensures 1 <= r.1 <= |data|
  {
    var lead := data[0];
    if lead < 0x80 then ([Low(lead)], 1)
    else if 0xC0 <= lead < 0xE0 && |data| >= 2 && IsTail(data[1]) then
      ([Low(Bits(data, 0, 2))], 2)
    else if 0xE0 <= lead < 0xF0 && |data| >= 3 && IsTail(data[1]) && IsTail(data[2]) then
      ([Low(Bits(data, 0, 3))], 3)
    else if 0xF0 <= lead < 0xF8 && |data| >= 4 && IsTail(data[1]) && IsTail(data[2]) && IsTail(data[3]) then
      ([High(Bits(data, 0, 4))], 4)
    else ([], 1)
  }

  function Units8(data: seq<byte>): (us: seq<Unit>)
    decreases |data|
  {
    if data == [] then [] else
      var (u, n) := Unit8(data);
      u + Units8(data[n..])
  }

  // --- counters and writers ---

  /** What the counters add for one character; Latin-1 has a writer only, one byte a character. */
  function Count(e: Encoding, u: Unit): (n: nat)
  {
    match (e, u)
    case (Utf8, Low(ch)) => if ch < 0x80 then 1 else if ch < 0x800 then 2 else 3
    case (Utf8, High(_)) => 4
    case (Utf16, Low(_)) => 1
    case (Utf16, High(_)) => 2
    case (_, _) => 1
  }

  lemma CountIsLength(e: Encoding, u: Unit)
    ensures Count(e, u) == |Encode(e, u)|
  {
  }

  /** The `result` that a decoder threads through: a count, or a position in a buffer. */
  class Result {
    const encoding: Encoding
    const writes: bool
    const buffer: array<uint32>
    var pos: nat

    constructor Counter(encoding: Encoding)
      ensures this.encoding == encoding && !writes && pos == 0 && fresh(buffer)
    {
      this.encoding, writes, pos := encoding, false, 0;
      buffer := new uint32[0];
    }

    constructor Writer(encoding: Encoding, buffer: array<uint32>, pos: nat)
      ensures this.encoding == encoding && writes && this.buffer == buffer && this.pos == pos
    {
      this.encoding, writes, this.buffer, this.pos := encoding, true, buffer, pos;
    }

    /** The state after `s` has been emitted at `start` over the contents `before`. */
    ghost predicate Emitted(start: nat, before: seq<uint32>, s: seq<uint32>)
      reads this, buffer
    {
      && pos == start + |s|
      && (if writes then
            pos <= buffer.Length == |before| && buffer[..] == before[..start] + s + before[pos..]
          else buffer[..] == before)
    }

    /** `Traits::low` and `Traits::high`. */
    method Put(u: Unit)
      requires writes ==> pos + |Encode(encoding, u)| <= buffer.Length
      modifies this, buffer
      ensures Emitted(old(pos), old(buffer[..]), Encode(encoding, u))
    {
      if writes {
        var s := Encode(encoding, u);
        forall i | 0 <= i < |s| {
          buffer[pos + i] := s[i];
        }
        pos := pos + |s|;
      } else {
        CountIsLength(encoding, u);
        pos := pos + Count(encoding, u);
      }
    }
  }

  lemma EmittedTwice(start: nat, before: seq<uint32>, s: seq<uint32>, between: seq<uint32>, t: seq<uint32>)
    requires start + |s| + |t| <= |before| == |between|
    requires between == before[..start] + s + before[start + |s|..]
    ensures between[..start + |s|] + t + between[start + |s| + |t|..]
         == before[..start] + (s + t) + before[start + |s + t|..]
  {
  }

  /** Emits one more character after `done`; `rest` is what is still to come after it. */
  method PutNext(result: Result, u: Unit, ghost rest: seq<Unit>,
                 ghost start: nat, ghost before: seq<uint32>, ghost done: seq<uint32>)
    returns (ghost next: seq<uint32>)
    requires result.Emitted(start, before, done)
    requires result.writes ==> start + |done| + |EncodeAll(result.encoding, [u] + rest)| <= |before|
    modifies result, result.buffer
    ensures next + EncodeAll(result.encoding, rest) == done + EncodeAll(result.encoding, [u] + rest)
    ensures result.Emitted(start, before, next)
  {
    hide Encode, EncodeAll;
    EncodeAllCons(result.encoding, u, rest);
    ghost var between := result.buffer[..];
    result.Put(u);
    next := done + Encode(result.encoding, u);
    if result.writes {
      EmittedTwice(start, before, done, between, Encode(result.encoding, u));
    }
  }

  // --- decoders ---

  method DecodeLatin1Block(data: seq<byte>, result: Result)
    requires result.writes ==> result.pos + |EncodeAll(result.encoding, UnitsLatin1(data))| <= result.buffer.Length
    modifies result, result.buffer
    ensures result.Emitted(old(result.pos), old(result.buffer[..]), EncodeAll(result.encoding, UnitsLatin1(data)))
  {
    hide Encode;
    ghost var all := EncodeAll(result.encoding, UnitsLatin1(data));
    ghost var done: seq<uint32> := [];
    assert data[0..] == data;
    for i := 0 to |data|
      invariant all == done + EncodeAll(result.encoding, UnitsLatin1(data[i..]))
      invariant result.Emitted(old(result.pos), old(result.buffer[..]), done)
    {
      assert data[i..][1..] == data[i + 1..];
      done := PutNext(result, Low(data[i]), UnitsLatin1(data[i + 1..]), old(result.pos), old(result.buffer[..]), done);
    }
    assert done == all;
  }

  /** What the UTF-16 decoder may conclude from one word, or from two. */
  lemma Units16At(data: seq<uint16>, i: nat, swap: bool)
    requires i < |data|
    ensures IsLowWord(Lead16(data[i], swap)) ==>
              Units16(data[i..], swap) == [Low(Lead16(data[i], swap))] + Units16(data[i + 1..], swap)
    ensures i + 1 < |data| && IsPair(Lead16(data[i], swap), Lead16(data[i + 1], swap)) ==>
              Units16(data[i..], swap)
              == [High(PairValue(Lead16(data[i], swap), Lead16(data[i + 1], swap)))] + Units16(data[i + 2..], swap)
    ensures !IsLowWord(Lead16(data[i], swap))
            && !(i + 1 < |data| && IsPair(Lead16(data[i], swap), Lead16(data[i + 1], swap))) ==>
              Units16(data[i..], swap) == Units16(data[i + 1..], swap)
  {
    hide Lead16;
    var rest := data[i..];
    assert rest[1..] == data[i + 1..];
    if |rest| > 1 {
      assert rest[2..] == data[i + 2..];
    }
  }

  method DecodeUtf16Block(data: seq<uint16>, swap: bool, result: Result)
    requires result.writes ==> result.pos + |EncodeAll(result.encoding, Units16(data, swap))| <= result.buffer.Length
    modifies result, result.buffer
    ensures result.Emitted(old(result.pos), old(result.buffer[..]), EncodeAll(result.encoding, Units16(data, swap)))
  {
    hide Encode, EncodeAll, Units16, Swap16;
    ghost var start, before := result.pos, result.buffer[..];
    ghost var all := EncodeAll(result.encoding, Units16(data, swap));
    ghost var done: seq<uint32> := [];
    var i := 0;
    assert data[0..] == data;
    while i < |data|
      invariant 0 <= i <= |data|
      invariant all == done + EncodeAll(result.encoding, Units16(data[i..], swap))
      invariant result.Emitted(start, before, done)
    {
      Units16At(data, i, swap);
      var lead := if swap then Swap16(data[i]) else data[i];
      if lead < 0xD800 {
        done := PutNext(result, Low(lead), Units16(data[i + 1..], swap), start, before, done);
        i := i + 1;
      } else if 0 <= lead - 0xE000 < 0x2000 {
        done := PutNext(result, Low(lead), Units16(data[i + 1..], swap), start, before, done);
        i := i + 1;
      } else if 0 <= lead - 0xD800 < 0x400 && i + 1 < |data| {
        var next := if swap then Swap16(data[i + 1]) else data[i + 1];
        if 0 <= next - 0xDC00 < 0x400 {
          var ch := 0x1_0000 + lead % 0x400 * 0x400 + next % 0x400;
          assert ch == PairValue(lead, next);
          done := PutNext(result, High(ch), Units16(data[i + 2..], swap), start, before, done);
          i := i + 2;
        } else {
          i := i + 1;
        }
      } else {
        i := i + 1;
      }
    }
    assert data[i..] == [];
    EncodeNothing(result.encoding, swap);
  }

  lemma EncodeNothing(e: Encoding, swap: bool)
    ensures EncodeAll(e, Units16([], swap)) == [] && EncodeAll(e, Units32([], swap)) == []
          && EncodeAll(e, Units8([])) == []
  {
  }

  method DecodeUtf32Block(data: seq<uint32>, swap: bool, result: Result)
    requires result.writes ==> result.pos + |EncodeAll(result.encoding, Units32(data, swap))| <= result.buffer.Length
    modifies result, result.buffer
    ensures result.Emitted(old(result.pos), old(result.buffer[..]), EncodeAll(result.encoding, Units32(data, swap)))
  {
    hide Encode;
    ghost var start, before := result.pos, result.buffer[..];
    ghost var all := EncodeAll(result.encoding, Units32(data, swap));
    ghost var done: seq<uint32> := [];
    var i := 0;
    assert data[0..] == data;
    while i < |data|
      invariant 0 <= i <= |data|
      invariant all == done + EncodeAll(result.encoding, Units32(data[i..], swap))
      invariant result.Emitted(start, before, done)
    {
      assert data[i..][1..] == data[i + 1..];
      var lead := if swap then Swap32(data[i]) else data[i];
      var u := if lead < 0x1_0000 then Low(lead) else High(lead);
      done := PutNext(result, u, Units32(data[i + 1..], swap), start, before, done);
      i := i + 1;
    }
    assert done == all;
  }

  // --- the aligned fast path of the UTF-8 decoder ---

  /** The four bytes at an aligned address read as one little-endian word. */
  function Word(a: bv8, b: bv8, c: bv8, d: bv8): (w: bv32)
  {
    a as bv32 | ((b as bv32) << 8) | ((c as bv32) << 16) | ((d as bv32) << 24)
  }

  lemma NoHighBits(a: bv8, b: bv8, c: bv8, d: bv8)
    ensures Word(a, b, c, d) & 0x8080_8080 == 0 <==> a < 0x80 && b < 0x80 && c < 0x80 && d < 0x80
  {
    assert (a & 0x80 == 0) == (a < 0x80);
    assert (b & 0x80 == 0) == (b < 0x80);
    assert (c & 0x80 == 0) == (c < 0x80);
    assert (d & 0x80 == 0) == (d < 0x80);
  }

  predicate IsAsciiWord(a: byte, b: byte, c: byte, d: byte)
  {
    Word(a as bv8, b as bv8, c as bv8, d as bv8) & 0x8080_8080 == 0
  }

  lemma HighBit(a: byte)
    ensures a as bv8 < 0x80 <==> a < 0x80
  {
  }

  lemma AsciiWord(a: byte, b: byte, c: byte, d: byte)
    ensures IsAsciiWord(a, b, c, d) <==> a < 0x80 && b < 0x80 && c < 0x80 && d < 0x80
  {
    hide Word;
    NoHighBits(a as bv8, b as bv8, c as bv8, d as bv8);
    HighBit(a);
    HighBit(b);
    HighBit(c);
    HighBit(d);
  }

  lemma AsciiAt(data: seq<byte>, i: nat)
    requires i < |data| && data[i] < 0x80
    ensures Units8(data[i..]) == [Low(data[i])] + Units8(data[i + 1..])
  {
    assert data[i..][1..] == data[i + 1..];
  }

  /** What the UTF-8 decoder may conclude from the bytes at `i`. */
  lemma Units8At(data: seq<byte>, i: nat)
    requires i < |data|
    ensures var (u, n) := Unit8(data[i..]);
      && i + n <= |data|
      && Units8(data[i..]) == u + Units8(data[i + n..])
      && (u == [] ==> Units8(data[i..]) == Units8(data[i + n..]))
  {
    hide Unit8;
    var (u, n) := Unit8(data[i..]);
    assert data[i..][n..] == data[i + n..];
    assert [] + Units8(data[i + n..]) == Units8(data[i + n..]);
  }

  /** Whole aligned words of ASCII, four characters at a time. */
  method DecodeAsciiWords(data: seq<byte>, from: nat, result: Result,
                          ghost start: nat, ghost before: seq<uint32>, ghost sofar: seq<uint32>)
    returns (i: nat, ghost done: seq<uint32>)
    requires from <= |data|
    requires result.Emitted(start, before, sofar)
    requires result.writes ==> start + |sofar + EncodeAll(result.encoding, Units8(data[from..]))| <= |before|
    modifies result, result.buffer
    ensures from <= i <= |data|
    ensures done + EncodeAll(result.encoding, Units8(data[i..]))
          == sofar + EncodeAll(result.encoding, Units8(data[from..]))
    ensures result.Emitted(start, before, done)
  {
    hide Encode, EncodeAll, Units8, IsAsciiWord;
    i, done := from, sofar;
    while |data| - i >= 4 && IsAsciiWord(data[i], data[i + 1], data[i + 2], data[i + 3])
      invariant from <= i <= |data|
      invariant done + EncodeAll(result.encoding, Units8(data[i..]))
            == sofar + EncodeAll(result.encoding, Units8(data[from..]))
      invariant result.Emitted(start, before, done)
      decreases |data| - i
    {
      AsciiWord(data[i], data[i + 1], data[i + 2], data[i + 3]);
      AsciiAt(data, i);
      done := PutNext(result, Low(data[i]), Units8(data[i + 1..]), start, before, done);
      AsciiAt(data, i + 1);
      done := PutNext(result, Low(data[i + 1]), Units8(data[i + 2..]), start, before, done);
      AsciiAt(data, i + 2);
      done := PutNext(result, Low(data[i + 2]), Units8(data[i + 3..]), start, before, done);
      AsciiAt(data, i + 3);
      done := PutNext(result, Low(data[i + 3]), Units8(data[i + 4..]), start, before, done);
      i := i + 4;
    }
  }

  predicate TwoAt(data: seq<byte>, i: nat)
    requires i < |data|
  {
    0xC0 <= data[i] < 0xE0 && |data| - i >= 2 && IsTail(data[i + 1])
  }

  predicate ThreeAt(data: seq<byte>, i: nat)
    requires i < |data|
  {
    0xE0 <= data[i] < 0xF0 && |data| - i >= 3 && IsTail(data[i + 1]) && IsTail(data[i + 2])
  }

  predicate FourAt(data: seq<byte>, i: nat)
    requires i < |data|
  {
    0xF0 <= data[i] < 0xF8 && |data| - i >= 4 && IsTail(data[i + 1]) && IsTail(data[i + 2]) && IsTail(data[i + 3])
  }

  /** The cases that the decoder tells apart. */
  lemma Units8Cases(data: seq<byte>, i: nat)
    requires i < |data|
    ensures data[i] < 0x80 ==> Units8(data[i..]) == [Low(data[i])] + Units8(data[i + 1..])
    ensures TwoAt(data, i) ==> Units8(data[i..]) == [Low(Bits(data, i, 2))] + Units8(data[i + 2..])
    ensures ThreeAt(data, i) ==> Units8(data[i..]) == [Low(Bits(data, i, 3))] + Units8(data[i + 3..])
    ensures FourAt(data, i) ==> Units8(data[i..]) == [High(Bits(data, i, 4))] + Units8(data[i + 4..])
    ensures data[i] >= 0x80 && !TwoAt(data, i) && !ThreeAt(data, i) && !FourAt(data, i) ==>
              Units8(data[i..]) == Units8(data[i + 1..])
  {
    hide Units8;
    Units8At(data, i);
  }

  /** `address` is where `data` lies in memory; what is decoded does not depend on it. */
  method DecodeUtf8Block(address: nat, data: seq<byte>, result: Result)
    requires result.writes ==> result.pos + |EncodeAll(result.encoding, Units8(data))| <= result.buffer.Length
    modifies result, result.buffer
    ensures result.Emitted(old(result.pos), old(result.buffer[..]), EncodeAll(result.encoding, Units8(data)))
  {
    hide Encode, EncodeAll, Units8, Bits, IsTail, Result.Emitted;
    ghost var start, before := result.pos, result.buffer[..];
    ghost var all := EncodeAll(result.encoding, Units8(data));
    ghost var done: seq<uint32> := [];
    var i := 0;
    assert data[0..] == data;
    NothingEmitted(result);
    while i < |data|
      invariant 0 <= i <= |data|
      invariant all == done + EncodeAll(result.encoding, Units8(data[i..]))
      invariant result.Emitted(start, before, done)
      decreases |data| - i
    {
      EmittedLength(result, start, before, done);
      Units8Cases(data, i);
      var lead := data[i];
      var size := |data| - i;
      if lead < 0x80 {
        done := PutNext(result, Low(lead), Units8(data[i + 1..]), start, before, done);
        i := i + 1;
        if (address + i) % 4 == 0 {
          EmittedLength(result, start, before, done);
          i, done := DecodeAsciiWords(data, i, result, start, before, done);
        }
      } else if 0 <= lead - 0xC0 < 0x20 && size >= 2 && IsTail(data[i + 1]) {
        assert TwoAt(data, i);
        done := PutNext(result, Low(Bits(data, i, 2)), Units8(data[i + 2..]), start, before, done);
        i := i + 2;
      } else if 0 <= lead - 0xE0 < 0x10 && size >= 3 && IsTail(data[i + 1]) && IsTail(data[i + 2]) {
        assert ThreeAt(data, i);
        done := PutNext(result, Low(Bits(data, i, 3)), Units8(data[i + 3..]), start, before, done);
        i := i + 3;
      } else if 0 <= lead - 0xF0 < 0x08 && size >= 4 && IsTail(data[i + 1]) && IsTail(data[i + 2])
        && IsTail(data[i + 3]) {
        assert FourAt(data, i);
        done := PutNext(result, High(Bits(data, i, 4)), Units8(data[i + 4..]), start, before, done);
        i := i + 4;
      } else {
        i := i + 1;
      }
    }
    assert data[i..] == [];
    EncodeNothing(result.encoding, false);
    assert done + [] == done;
  }

  lemma NothingEmitted(result: Result)
    requires result.writes ==> result.pos <= result.buffer.Length
    ensures result.Emitted(result.pos, result.buffer[..], [])
  {
  }

  lemma EmittedLength(result: Result, start: nat, before: seq<uint32>, done: seq<uint32>)
    requires result.Emitted(start, before, done)
    ensures result.writes ==> start + |done| <= result.buffer.Length == |before|
  {
  }

  // --- whole buffers, in two passes ---

  /** A buffer for `length` units, never empty. */
  method Allocate(length: nat) returns (out: array<uint32>)
    ensures fresh(out) && out.Length == if length > 0 then length else 1
  {
    out := new uint32[if length > 0 then length else 1];
  }

  method ConvertBufferUtf16(contents: seq<uint16>, swap: bool) returns (out: array<uint32>, length: nat)
    ensures fresh(out) && out.Length == (if length > 0 then length else 1)
    ensures out[..length] == EncodeAll(Utf8, Units16(contents, swap))
  {
    hide EncodeAll, Units16;
    var counter := new Result.Counter(Utf8);
    DecodeUtf16Block(contents, swap, counter);
    length := counter.pos;
    out := Allocate(length);
    var writer := new Result.Writer(Utf8, out, 0);
    DecodeUtf16Block(contents, swap, writer);
    assert writer.pos == length;
  }

  method ConvertBufferUtf32(contents: seq<uint32>, swap: bool) returns (out: array<uint32>, length: nat)
    ensures fresh(out) && out.Length == (if length > 0 then length else 1)
    ensures out[..length] == EncodeAll(Utf8, Units32(contents, swap))
  {
    hide EncodeAll, Units32;
    var counter := new Result.Counter(Utf8);
    DecodeUtf32Block(contents, swap, counter);
    length := counter.pos;
    out := Allocate(length);
    var writer := new Result.Writer(Utf8, out, 0);
    DecodeUtf32Block(contents, swap, writer);
    assert writer.pos == length;
  }

  method GetLatin1PrefixLength(data: seq<byte>) returns (n: nat)
    ensures n <= |data|
    ensures forall i :: 0 <= i < n ==> data[i] <= 127
    ensures n < |data| ==> data[n] > 127
  {
    for i := 0 to |data|
      invariant forall k :: 0 <= k < i ==> data[k] <= 127
    {
      if data[i] > 127 {
        return i;
      }
    }
    return |data|;
  }

  /** ASCII bytes are their own UTF-8 form. */
  lemma AsciiFirst(data: seq<byte>)
    requires data != [] && data[0] <= 127
    ensures EncodeAll(Utf8, UnitsLatin1(data)) == [data[0]] + EncodeAll(Utf8, UnitsLatin1(data[1..]))
  {
    hide EncodeAll;
    EncodeAllCons(Utf8, Low(data[0]), UnitsLatin1(data[1..]));
  }

  lemma {:induction false} AsciiPrefix(data: seq<byte>, n: nat)
    requires n <= |data| && forall i :: 0 <= i < n ==> data[i] <= 127
    ensures EncodeAll(Utf8, UnitsLatin1(data)) == data[..n] + EncodeAll(Utf8, UnitsLatin1(data[n..]))
    decreases n
  {
    hide EncodeAll, UnitsLatin1;
    if n == 0 {
      assert data[0..] == data && data[..0] == [];
    } else {
      AsciiFirst(data);
      AsciiPrefix(data[1..], n - 1);
      assert data[1..][n - 1..] == data[n..];
      assert data[..n] == [data[0]] + data[1..][..n - 1];
    }
  }

  method ConvertBufferLatin1(contents: seq<byte>) returns (out: array<uint32>, length: nat)
    ensures fresh(out) && out.Length == (if length > 0 then length else 1)
    ensures out[..length] == EncodeAll(Utf8, UnitsLatin1(contents))
  {
    hide EncodeAll, UnitsLatin1, Encode;
    var prefix := GetLatin1PrefixLength(contents);
    var postfix := contents[prefix..];
    AsciiPrefix(contents, prefix);
    if postfix == [] {
      out, length := CopyBuffer(contents);
      assert contents[..prefix] == contents;
      EncodeNoLatin1();
    } else {
      var counter := new Result.Counter(Utf8);
      DecodeLatin1Block(postfix, counter);
      length := prefix + counter.pos;
      out := Allocate(length);
      forall i | 0 <= i < prefix {
        out[i] := contents[i];
      }
      assert out[..prefix] == contents[..prefix];
      var writer := new Result.Writer(Utf8, out, prefix);
      DecodeLatin1Block(postfix, writer);
      assert writer.pos == length;
    }
  }

  lemma EncodeNoLatin1()
    ensures EncodeAll(Utf8, UnitsLatin1([])) == []
  {
  }

  /** The buffer as it is, when nothing needs converting. */
  method CopyBuffer(contents: seq<byte>) returns (out: array<uint32>, length: nat)
    ensures fresh(out) && out.Length == (if length > 0 then length else 1)
    ensures out[..length] == contents
  {
    length := |contents|;
    out := Allocate(length);
    forall i | 0 <= i < length {
      out[i] := contents[i];
    }
  }
}
