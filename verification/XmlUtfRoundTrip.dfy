/** What transcoding keeps: UTF-8 gives back every character that fits it, and the way from
    UTF-16 through UTF-8 and back is the identity on exactly the well-formed texts. */
module XmlUtfRoundTrip {
  import opened Bytes
  import opened XmlUtf

  // --- through UTF-8 ---

  /** The characters that four bytes can carry, cut to 21 bits; the rest are lost. */
  function Kept(u: Unit): (us: seq<Unit>)
  {
    match u
    case Low(_) => [u]
    case High(ch) => if ch / 0x4_0000 % 0x10 < 8 then [High(ch % 0x20_0000)] else []
  }

  function KeptAll(us: seq<Unit>): (ks: seq<Unit>)
    ensures |ks| <= |us|
  {
    if us == [] then [] else Kept(us[0]) + KeptAll(us[1..])
  }

  function Utf8Bytes(u: Unit): (s: seq<byte>)
    ensures s == Encode(Utf8, u)
  {
    Encode(Utf8, u)
  }

  /** The bytes written for a text, each of them below 256. */
  function {:induction false} Utf8Text(us: seq<Unit>): (s: seq<byte>)
    ensures s == EncodeAll(Utf8, us)
  {
    if us == [] then [] else Utf8Bytes(us[0]) + Utf8Text(us[1..])
  }

  lemma DropTail(s: seq<byte>)
    requires s != [] && IsTail(s[0])
    ensures Units8(s) == Units8(s[1..])
  {
    assert [] + Units8(s[1..]) == Units8(s[1..]);
  }

  /** Cutting a number into groups of six bits and putting them together again. */
  lemma Groups(ch: nat)
    ensures ch / 0x40 / 0x40 == ch / 0x1000 && ch / 0x1000 / 0x40 == ch / 0x4_0000
    ensures ch == ch / 0x40 * 0x40 + ch % 0x40
    ensures ch == ch / 0x1000 * 0x1000 + ch / 0x40 % 0x40 * 0x40 + ch % 0x40
    ensures ch == ch / 0x4_0000 * 0x4_0000 + ch / 0x1000 % 0x40 * 0x1000 + ch / 0x40 % 0x40 * 0x40 + ch % 0x40
  {
    assert ch / 0x40 == ch / 0x40 / 0x40 * 0x40 + ch / 0x40 % 0x40;
    assert ch / 0x1000 == ch / 0x1000 / 0x40 * 0x40 + ch / 0x1000 % 0x40;
  }

  lemma Remainder21(x: nat, q: nat, r: nat)
    requires x == q * 0x20_0000 + r && r < 0x20_0000
    ensures x % 0x20_0000 == r
  {
  }

  lemma LeadGroup(ch: nat, low: nat)
    requires low < 0x4_0000 && ch == ch / 0x4_0000 * 0x4_0000 + low && ch / 0x4_0000 % 0x10 < 8
    ensures ch % 0x20_0000 == ch / 0x4_0000 % 0x10 * 0x4_0000 + low
  {
    var t := ch / 0x4_0000;
    var q, u := t / 0x10, t % 0x10;
    assert t == q * 0x10 + u;
    Remainder21(ch, 2 * q, u * 0x4_0000 + low);
  }

  lemma DecodeLow(ch: uint16, rest: seq<byte>)
    ensures Units8(Utf8Bytes(Low(ch)) + rest) == [Low(ch)] + Units8(rest)
  {
    hide Units8, Bits;
    var s := Utf8Bytes(Low(ch)) + rest;
    Units8At(s, 0);
    assert s[0..] == s;
    assert s[|Utf8Bytes(Low(ch))|..] == rest;
    if 0x80 <= ch {
      DecodeBits(ch, rest);
    }
  }

  lemma DecodeBits(ch: uint16, rest: seq<byte>)
    requires 0x80 <= ch
    ensures ch < 0x800 ==> Bits(Utf8Bytes(Low(ch)) + rest, 0, 2) == ch
    ensures ch >= 0x800 ==> Bits(Utf8Bytes(Low(ch)) + rest, 0, 3) == ch
  {
    var s := Utf8Bytes(Low(ch)) + rest;
    Groups(ch);
  }

  lemma DecodeHighBits(ch: uint32, rest: seq<byte>)
    requires ch / 0x4_0000 % 0x10 < 8
    ensures Bits(Utf8Bytes(High(ch)) + rest, 0, 4) == ch % 0x20_0000
  {
    var s := Utf8Bytes(High(ch)) + rest;
    Groups(ch);
    LeadGroup(ch, ch / 0x1000 % 0x40 * 0x1000 + ch / 0x40 % 0x40 * 0x40 + ch % 0x40);
  }

  lemma DecodeHigh(ch: uint32, rest: seq<byte>)
    ensures Units8(Utf8Bytes(High(ch)) + rest) == Kept(High(ch)) + Units8(rest)
  {
    hide Units8, Bits;
    var s := Utf8Bytes(High(ch)) + rest;
    Units8At(s, 0);
    assert s[0..] == s;
    if ch / 0x4_0000 % 0x10 < 8 {
      assert s[4..] == rest;
      DecodeHighBits(ch, rest);
    } else {
      DropThree(s);
      assert s[4..] == rest;
      assert [] + Units8(rest) == Units8(rest);
    }
  }

  lemma DropThree(s: seq<byte>)
    requires |s| >= 4 && IsTail(s[1]) && IsTail(s[2]) && IsTail(s[3])
    ensures Units8(s[1..]) == Units8(s[4..])
  {
    hide Units8;
    assert s[1..][1..] == s[2..] && s[2..][1..] == s[3..] && s[3..][1..] == s[4..];
    DropTail(s[1..]);
    DropTail(s[2..]);
    DropTail(s[3..]);
  }

  /** Decoding UTF-8 that the writer produced gives the characters back, but for what the
      writer's four bytes cannot carry. */
  lemma {:induction false} Utf8Decodes(us: seq<Unit>)
    ensures Units8(Utf8Text(us)) == KeptAll(us)
  {
    hide Units8, Kept, Utf8Bytes;
    if us == [] {
      NoUnits();
    } else {
      Utf8Decodes(us[1..]);
      match us[0] {
        case Low(ch) =>
          DecodeLow(ch, Utf8Text(us[1..]));
          KeptLow(ch);
        case High(ch) => DecodeHigh(ch, Utf8Text(us[1..]));
      }
    }
  }

  lemma NoUnits()
    ensures Units8([]) == []
  {
  }

  lemma KeptLow(ch: uint16)
    ensures Kept(Low(ch)) == [Low(ch)]
  {
  }

  lemma {:induction false} KeptAllIff(us: seq<Unit>)
    ensures KeptAll(us) == us <==> forall i :: 0 <= i < |us| && us[i].High? ==> us[i].ch < 0x20_0000
  {
    if us != [] {
      KeptAllIff(us[1..]);
      forall i | 0 <= i < |us[1..]| ensures us[1..][i] == us[i + 1] {
      }
      KeptFirst(us);
      KeptIff(us[0]);
    }
  }

  /** A character is kept as it is exactly when it fits 21 bits; it never becomes two. */
  lemma KeptIff(u: Unit)
    ensures Kept(u) == [u] <==> (u.High? ==> u.ch < 0x20_0000)
  {
  }

  /** A text is kept exactly when its first character and the others are. */
  lemma KeptFirst(us: seq<Unit>)
    requires us != []
    ensures KeptAll(us) == us <==> Kept(us[0]) == [us[0]] && KeptAll(us[1..]) == us[1..]
  {
    hide KeptAll;
    var first, rest := Kept(us[0]), KeptAll(us[1..]);
    KeptAllFirst(us);
    assert us == [us[0]] + us[1..];
    if KeptAll(us) == us && first != [] {
      assert first == [first[0]] && us[0] == (first + rest)[0] && us[1..] == (first + rest)[1..] == rest;
    }
  }

  lemma KeptAllFirst(us: seq<Unit>)
    requires us != []
    ensures KeptAll(us) == Kept(us[0]) + KeptAll(us[1..]) && |Kept(us[0])| <= 1
  {
  }

  /** A text survives the way through UTF-8 exactly when its characters fit 21 bits. */
  lemma Utf8RoundTripIff(us: seq<Unit>)
    ensures Units8(Utf8Text(us)) == us <==> forall i :: 0 <= i < |us| && us[i].High? ==> us[i].ch < 0x20_0000
  {
    Utf8Decodes(us);
    KeptAllIff(us);
  }

  // --- UTF-16 to UTF-8 and back ---

  predicate IsLead(w: uint16)
  {
    0xD800 <= w < 0xDC00
  }

  predicate IsTrail(w: uint16)
  {
    0xDC00 <= w < 0xE000
  }

  predicate PairedAt(data: seq<uint16>, i: nat)
    requires i < |data|
  {
    && (IsLead(data[i]) ==> i + 1 < |data| && IsTrail(data[i + 1]))
    && (IsTrail(data[i]) ==> i > 0 && IsLead(data[i - 1]))
  }

  /** Every leading surrogate has its trailing one behind it, and the other way round. */
  ghost predicate WellFormed(data: seq<uint16>)
  {
    forall i :: 0 <= i < |data| ==> PairedAt(data, i)
  }

  lemma WellFormedRest(data: seq<uint16>, n: nat)
    requires n <= |data| && 1 <= n <= 2
    requires if n == 1 then IsLowWord(data[0]) else IsPair(data[0], data[1])
    ensures WellFormed(data) <==> WellFormed(data[n..])
  {
    var rest := data[n..];
    assert PairedAt(data, 0);
    if n == 2 {
      assert PairedAt(data, 1);
    }
    if WellFormed(data) {
      forall i | 0 <= i < |rest| ensures PairedAt(rest, i) {
        assert PairedAt(data, i + n);
      }
    }
    if WellFormed(rest) {
      forall i | 0 <= i < |data| ensures PairedAt(data, i) {
        if i >= n {
          assert PairedAt(rest, i - n);
        }
      }
    }
  }

  /** Writing the decoded words again never gives more of them; it loses none exactly when all
      surrogates are paired, and then changes none. */
  lemma {:induction false} Utf16Rewritten(data: seq<uint16>)
    ensures |EncodeAll(Utf16, Units16(data, false))| <= |data|
    ensures |EncodeAll(Utf16, Units16(data, false))| == |data| <==> WellFormed(data)
    ensures WellFormed(data) ==> EncodeAll(Utf16, Units16(data, false)) == data
    decreases |data|
  {
    hide WellFormed, EncodeAll, Units16, Encode;
    if data == [] {
      EncodeAllNone();
      NothingWellFormed();
    } else {
      Units16At(data, 0, false);
      assert data[0..] == data;
      if IsLowWord(data[0]) {
        Utf16Rewritten(data[1..]);
        WellFormedRest(data, 1);
        EncodeAllCons(Utf16, Low(data[0]), Units16(data[1..], false));
        EncodeLow16(data[0]);
        assert data == [data[0]] + data[1..];
      } else if |data| > 1 && IsPair(data[0], data[1]) {
        Utf16Rewritten(data[2..]);
        WellFormedRest(data, 2);
        EncodeAllCons(Utf16, High(PairValue(data[0], data[1])), Units16(data[2..], false));
        EncodePair(data[0], data[1]);
        assert data == [data[0], data[1]] + data[2..];
      } else {
        Utf16Rewritten(data[1..]);
        LoneSurrogate(data);
      }
    }
  }

  lemma EncodeAllNone()
    ensures EncodeAll(Utf16, Units16([], false)) == []
  {
  }

  lemma NothingWellFormed()
    ensures WellFormed([])
  {
  }

  lemma LoneSurrogate(data: seq<uint16>)
    requires data != [] && !IsLowWord(data[0]) && !(|data| > 1 && IsPair(data[0], data[1]))
    ensures !WellFormed(data)
  {
    assert !PairedAt(data, 0);
  }

  lemma EncodeLow16(w: uint16)
    ensures Encode(Utf16, Low(w)) == [w]
  {
  }

  lemma EncodePair(w: uint16, next: uint16)
    requires IsPair(w, next)
    ensures Encode(Utf16, High(PairValue(w, next))) == [w, next]
    ensures PairValue(w, next) < 0x11_0000
  {
    var x := PairValue(w, next) - 0x1_0000;
    assert x == (w - 0xD800) * 0x400 + (next - 0xDC00);
    assert x / 0x400 == w - 0xD800 && x % 0x400 == next - 0xDC00;
  }

  lemma {:induction false} PairsFit(data: seq<uint16>)
    ensures forall i :: 0 <= i < |Units16(data, false)| && Units16(data, false)[i].High? ==>
              Units16(data, false)[i].ch < 0x20_0000
    decreases |data|
  {
    if data != [] {
      PairsFit(data[1..]);
      if |data| > 1 && IsPair(data[0], data[1]) {
        PairsFit(data[2..]);
        EncodePair(data[0], data[1]);
      }
    }
  }

  /** UTF-16 to UTF-8 and back is the identity on exactly the well-formed texts. */
  lemma Utf16RoundTripIff(data: seq<uint16>)
    ensures EncodeAll(Utf16, Units8(Utf8Text(Units16(data, false)))) == data <==> WellFormed(data)
  {
    hide EncodeAll, Units8, Units16, Utf8Text, WellFormed;
    PairsFit(data);
    Utf8RoundTripIff(Units16(data, false));
    Utf16Rewritten(data);
  }

  // --- byte order ---

  function Swapped16(data: seq<uint16>): (s: seq<uint16>)
    ensures |s| == |data|
  {
    seq(|data|, i requires 0 <= i < |data| => Swap16(data[i]))
  }

  function Swapped32(data: seq<uint32>): (s: seq<uint32>)
    ensures |s| == |data|
  {
    seq(|data|, i requires 0 <= i < |data| => Swap32(data[i]))
  }

  lemma FourBytes(v: nat, a: byte, b: byte, c: byte, d: byte)
    requires v == a + b * 0x100 + c * 0x1_0000 + d * 0x100_0000
    ensures v % 0x100 == a && v / 0x100 % 0x100 == b
    ensures v / 0x1_0000 % 0x100 == c && v / 0x100_0000 == d
  {
    assert v / 0x100 == b + c * 0x100 + d * 0x1_0000;
    assert v / 0x1_0000 == c + d * 0x100;
  }

  lemma DivideOnce(w: nat)
    ensures w == w / 0x100 * 0x100 + w % 0x100
    ensures w / 0x100 / 0x100 == w / 0x1_0000 && w / 0x1_0000 / 0x100 == w / 0x100_0000
  {
  }

  lemma WordBytes(w: nat)
    ensures w == w % 0x100 + w / 0x100 % 0x100 * 0x100 + w / 0x1_0000 % 0x100 * 0x1_0000 + w / 0x100_0000 * 0x100_0000
  {
    var x, y := w / 0x100, w / 0x1_0000;
    DivideOnce(w);
    assert x == x / 0x100 * 0x100 + x % 0x100;
    assert y == y / 0x100 * 0x100 + y % 0x100;
  }

  lemma SwapTwice(v: uint16, w: uint32)
    ensures Swap16(Swap16(v)) == v && Swap32(Swap32(w)) == w
  {
    hide Swap32;
    Swap32Twice(w);
  }

  lemma Swap32Twice(w: uint32)
    ensures Swap32(Swap32(w)) == w
  {
    var a, b, c, d := w % 0x100, w / 0x100 % 0x100, w / 0x1_0000 % 0x100, w / 0x100_0000;
    WordBytes(w);
    var swapped := Swap32(w);
    assert swapped == d + c * 0x100 + b * 0x1_0000 + a * 0x100_0000;
    FourBytes(swapped, d, c, b, a);
    assert Swap32(swapped) == d * 0x100_0000 + c * 0x1_0000 + b * 0x100 + a;
  }

  /** A text in the other byte order decodes to the same characters. */
  lemma {:induction false} SwappedDecodes16(data: seq<uint16>)
    ensures Units16(Swapped16(data), true) == Units16(data, false)
    decreases |data|
  {
    hide Units16;
    var swapped := Swapped16(data);
    if data == [] {
      assert swapped == [];
      Units16Empty();
    } else {
      Units16At(data, 0, false);
      Units16At(swapped, 0, true);
      SwapTwice(data[0], 0);
      assert data[0..] == data && swapped[0..] == swapped;
      assert swapped[1..] == Swapped16(data[1..]);
      SwappedDecodes16(data[1..]);
      if |data| > 1 {
        SwapTwice(data[1], 0);
        assert swapped[2..] == Swapped16(data[2..]);
        SwappedDecodes16(data[2..]);
      }
    }
  }

  lemma Units16Empty()
    ensures Units16([], true) == [] && Units16([], false) == []
  {
  }

  lemma Units32Step(data: seq<uint32>, swap: bool)
    requires data != []
    ensures var lead := if swap then Swap32(data[0]) else data[0];
      Units32(data, swap) == [if lead < 0x1_0000 then Low(lead) else High(lead)] + Units32(data[1..], swap)
  {
    hide Swap32;
  }

  lemma {:induction false} SwappedDecodes32(data: seq<uint32>)
    ensures Units32(Swapped32(data), true) == Units32(data, false)
  {
    hide Swap16, Swap32, Units32;
    var swapped := Swapped32(data);
    if data == [] {
      assert swapped == [];
      Units32Empty();
    } else {
      Units32Step(data, false);
      Units32Step(swapped, true);
      SwapTwice(0, data[0]);
      assert swapped[1..] == Swapped32(data[1..]);
      SwappedDecodes32(data[1..]);
    }
  }

  lemma Units32Empty()
    ensures Units32([], true) == [] && Units32([], false) == []
  {
  }
}
