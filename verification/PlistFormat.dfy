/** The binary property list format as other readers know it, stated apart from this writer and its
    reader, and what written files have of it. */
module PlistFormat {
  import opened Arithmetic
  import opened Bytes
  import opened PlistCodec
  import opened PlistWriter
  import opened PlistReader
  import opened PlistRoundTrip
  import opened PlistFile
  import opened PlistLayout

  // --- the format ---

  /** The number that bytes stand for, the high one first. */
  function BE(s: bytes): (n: nat)
  {
    if s == [] then 0 else 256 * BE(s[..|s| - 1]) + s[|s| - 1]
  }

  /** How many bytes the low half of a marker announces. */
  function Size(marker: byte): (n: nat)
  {
    match marker % 16 case 0 => 1 case 1 => 2 case 2 => 4 case _ => 8
  }

  /** An integer: the marker, and one, two or four bytes without sign, or eight with one. */
  predicate IntAt(t: bytes, p: nat, i: int)
  {
    && p < |t| && 0x10 <= t[p] <= 0x13 && p + 1 + Size(t[p]) <= |t|
    && var n := BE(t[p + 1..p + 1 + Size(t[p])]);
       i == if t[p] == 0x13 && n >= 0x8000_0000_0000_0000 then n - 0x1_0000_0000_0000_0000 else n
  }

  /** The marker of something that has `n` parts: the number itself, or an integer behind the marker. */
  predicate CountAt(t: bytes, p: nat, kind: byte, n: nat)
  {
    p < |t| && t[p] / 16 == kind && if n < 15 then t[p] % 16 == n else t[p] % 16 == 15 && IntAt(t, p + 1, n)
  }

  /** Where the parts start. */
  function PartsAt(t: bytes, p: nat): (start: nat)
  {
    if p + 1 < |t| && t[p] % 16 == 15 then p + 2 + Size(t[p + 1]) else p + 1
  }

  /** A double, byte for byte from its sign on; zero also in four bytes. */
  predicate RealAt(t: bytes, p: nat, pattern: bytes)
  {
    || (p + 9 <= |t| && t[p] == 0x23 && t[p + 1..p + 9] == Reversed(pattern))
    || (p + 5 <= |t| && t[p] == 0x22 && t[p + 1..p + 5] == [0, 0, 0, 0] && pattern == [0, 0, 0, 0, 0, 0, 0, 0])
  }

  predicate BytesAt(t: bytes, p: nat, kind: byte, s: bytes)
  {
    CountAt(t, p, kind, |s|) && PartsAt(t, p) + |s| <= |t| && t[PartsAt(t, p)..PartsAt(t, p) + |s|] == s
  }

  /** The `j`th number in a run of numbers of `size` bytes. */
  function RefAt(t: bytes, start: nat, size: nat, j: nat): (r: nat)
    requires start + j * size + size <= |t|
  {
    BE(t[start + j * size..start + j * size + size])
  }

  /** A key or another text with number `r`. */
  predicate TextHolds(t: bytes, os: seq<int>, r: int, s: bytes)
  {
    0 <= r < |os| && 0 <= os[r] && BytesAt(t, os[r], 0x5, s)
  }

  predicate RefsInside(t: bytes, p: nat, size: nat, n: nat)
  {
    forall j :: 0 <= j < n ==> PartsAt(t, p) + j * size + size <= |t|
  }

  /** The object with number `r` is the value. */
  ghost predicate Holds(t: bytes, os: seq<int>, size: nat, r: int, v: Value)
    decreases v
  {
    && 0 <= r < |os| && 0 <= os[r] < |t|
    && var p := os[r];
       match v
       case Bool(b) => t[p] == if b then 0x09 else 0x08
       case Int(i) => IntAt(t, p, i)
       case Real(pattern) => RealAt(t, p, pattern)
       case Date(stamp) => p + 9 <= |t| && t[p] == 0x33 && t[p + 1..p + 9] == stamp
       case Data(data) => BytesAt(t, p, 0x4, data)
       case Str(text) => BytesAt(t, p, 0x5, text)
       case Arr(elems) =>
         && CountAt(t, p, 0xA, |elems|) && RefsInside(t, p, size, |elems|)
         && forall j :: 0 <= j < |elems| ==> Holds(t, os, size, RefAt(t, PartsAt(t, p), size, j), elems[j])
       case Dict(keys, vals) =>
         && |keys| == |vals| && CountAt(t, p, 0xD, |keys|) && RefsInside(t, p, size, |keys| + |vals|)
         && (forall j :: 0 <= j < |keys| ==> TextHolds(t, os, RefAt(t, PartsAt(t, p), size, j), keys[j]))
         && forall j :: 0 <= j < |vals| ==>
              Holds(t, os, size, RefAt(t, PartsAt(t, p), size, |keys| + j), vals[j])
  }

  /** The offset table: `count` numbers of `width` bytes. */
  function Table(f: bytes, start: nat, width: nat, count: nat): (os: seq<int>)
    requires start + count * width <= |f|
    ensures |os| == count
    decreases count
  {
    if count == 0 then [] else
      Table(f, start, width, count - 1) + [BE(f[start + (count - 1) * width..start + count * width])]
  }

  /** A file of this format whose top object is the value. */
  ghost predicate IsFileOf(f: bytes, v: Value)
  {
    && |f| >= 40 && (forall i :: 0 <= i < 8 ==> f[i] == "bplist00"[i] as int)
    && var t := f[|f| - 32..];
       var width, size, count, root, start := t[6], t[7], BE(t[8..16]), BE(t[16..24]), BE(t[24..]);
       && (forall i :: 0 <= i < 6 ==> t[i] == 0) && width >= 1 && size >= 1
       && start + count * width + 32 == |f|
       && Holds(f[..start], Table(f, start, width, count), size, root, v)
  }

  /** No double with a high half of zeros other than zero itself: those below 2^-1042. */
  ghost predicate NoTinyReals(v: Value)
  {
    match v
    case Real(pattern) => |pattern| == 8 && pattern[4..] == [0, 0, 0, 0] ==> pattern[..4] == [0, 0, 0, 0]
    case Arr(elems) => forall j :: 0 <= j < |elems| ==> NoTinyReals(elems[j])
    case Dict(_, vals) => forall j :: 0 <= j < |vals| ==> NoTinyReals(vals[j])
    case _ => true
  }

  // --- the trailer ---

  lemma {:induction false} BEIsLE(s: bytes)
    ensures BE(Reversed(s)) == LE(s)
    decreases |s|
  {
    if s != [] {
      BEIsLE(s[1..]);
      assert Reversed(s)[..|s| - 1] == Reversed(s[1..]);
    }
  }

  /** The number a run of digits was made of. */
  lemma DigitsBE(n: nat, k: nat)
    requires n < Pow256(k)
    ensures BE(Reversed(Digits(n, k))) == n
  {
    BEIsLE(Digits(n, k));
    LEDigits(n, k);
  }

  /** Whatever is written, the last 32 bytes of the file say, high bytes first, how many objects there
      are, which of them is the top one, where the offset table starts, and how wide its numbers and
      the references are. */
  lemma TrailerTells(v: Value)
    requires Valid(v) && |ObjectTable(v)| < TWO31
    ensures var f := File(v);
            && |f| >= 40
            && var t := f[|f| - 32..];
               && (forall i :: 0 <= i < 6 ==> t[i] == 0)
               && t[6] == OffsetByteSize(v) && t[7] == RefSize(v)
               && BE(t[8..16]) == |Offsets(v)|
               && BE(t[16..24]) == 0
               && BE(t[24..]) == |ObjectTable(v)|
  {
    hide ObjectTable, Offsets, OffsetTableBytes, Digits, BE, Pow256;
    var f := File(v);
    var body := ObjectTable(v) + OffsetTableBytes(Offsets(v), OffsetByteSize(v));
    OffsetsGrow(v);
    CountBound(v);
    ByteSizeRange(|ObjectTable(v)| - 8);
    ByteSizeRange(Count(v) - 1);
    var t := f[|f| - 32..];
    TrailerParts(body, OffsetByteSize(v), RefSize(v), Count(v), |ObjectTable(v)|);
    Pow256Values();
    DigitsBE(Count(v), 8);
    DigitsBE(0, 8);
    DigitsBE(|ObjectTable(v)|, 8);
    ZeroDigits(8);
  }

  lemma {:induction false} ZeroDigits(k: nat)
    ensures Digits(0, k) == Zeros(k) == Reversed(Digits(0, k))
    decreases k
  {
    if k > 0 {
      ZeroDigits(k - 1);
    }
  }

  lemma TrailerParts(body: bytes, entrySize: byte, refSize: byte, count: nat, n: nat)
    ensures var f := WithTrailer(body, entrySize, refSize, count, n);
            var t := f[|f| - 32..];
            && (forall i :: 0 <= i < 6 ==> t[i] == 0) && t[6] == entrySize && t[7] == refSize
            && t[8..16] == Reversed(Digits(count, 8)) && t[16..24] == Digits(0, 8)
            && t[24..] == Reversed(Digits(n, 8))
  {
    hide Digits;
    var f := WithTrailer(body, entrySize, refSize, count, n);
    var t := f[|f| - 32..];
    assert t == Zeros(6) + [entrySize] + [refSize] + Reversed(Digits(count, 8)) + Digits(0, 8)
                + Reversed(Digits(n, 8));
  }

  /** Starting from the number of the top object that the trailer gives, the file parses to the value. */
  lemma RootParses(v: Value, depth: nat)
    requires Valid(v) && |ObjectTable(v)| < TWO31 && depth >= Count(v)
    ensures var f := File(v);
            && |f| >= 40
            && var root := BE(f[|f| - 16..|f| - 8]);
               Parsed(Tables(ObjectTable(v), Offsets(v), RefSize(v)), root, depth) == Ok(v)
  {
    hide ObjectTable, Offsets, Parsed, RefSize, Preorder, BE, File, OffsetByteSize;
    TrailerTells(v);
    var f := File(v);
    assert f[|f| - 32..][16..24] == f[|f| - 16..|f| - 8];
    EveryReferenceReads(v, 0, depth);
  }

  // --- numbers of any width ---

  lemma {:induction false} LESplit(s: bytes, k: nat)
    requires k <= |s|
    ensures LE(s) == LE(s[..k]) + Pow256(k) * LE(s[k..])
    decreases k
  {
    if k == 0 {
      assert s[0..] == s;
    } else {
      LESplit(s[1..], k - 1);
      assert s[..k][1..] == s[1..][..k - 1] && s[1..][k - 1..] == s[k..];
      Factor(Pow256(k - 1), LE(s[k..]));
    }
  }

  lemma Factor(p: nat, n: nat)
    ensures 256 * (p * n) == 256 * p * n
  {
  }

  lemma SignedLow(low: nat, high: nat, k: nat)
    ensures Signed(low + Pow256(k) * high, k) == Signed(low, k)
  {
    hide Pow256;
    ModShift(low, high, Pow256(k));
    assert high * Pow256(k) == Pow256(k) * high;
  }

  /** A number in a file is read as its lowest bytes in two's complement, whatever its width. */
  lemma NumberMeans(buffer: bytes, size: nat)
    requires buffer != [] && size >= 1
    ensures Number(buffer, size) == Signed(BE(buffer), size)
  {
    hide BE, LE, Signed, Regulated, Pow256, Digits, Width;
    var little := Reversed(buffer);
    ReversedTwice(buffer);
    BEIsLE(little);
    RegulatedMeaning(little, size);
    var n, b := LE(little), Regulated(little, size);
    WidthLeast(n, |b|);
    LEDigits(n, |b|);
    if |b| >= size {
      LESplit(b, size);
      SignedLow(LE(b[..size]), LE(b[size..]), size);
    }
  }

  /** A double of up to eight bytes is read as its pattern, with zeros in front of the bytes there are. */
  lemma RealMeans(t: bytes, pos: int)
    requires NumberBytes(t, pos).Ok? && |NumberBytes(t, pos).value| <= 8
    ensures ParseReal(t, pos) == Ok(Digits(BE(NumberBytes(t, pos).value), 8))
  {
    hide BE, LE, Regulated, Pow256, Digits, Width, NumberBytes;
    var buffer := NumberBytes(t, pos).value;
    var little := Reversed(buffer);
    ReversedTwice(buffer);
    BEIsLE(little);
    RegulatedMeaning(little, 8);
    LEBound(little);
    Pow256Monotonic(|little|, 8);
    WidthLeast(LE(little), 8);
    assert Digits(LE(little), 8)[..8] == Digits(LE(little), 8);
  }

  // --- records ---

  lemma IntRecordHolds(t: bytes, p: nat, i: int64)
    requires At(t, p, IntRecord(i))
    ensures IntAt(t, p, i) && |IntRecord(i)| == 1 + Size(t[p])
  {
    hide Digits, BE, Width, Pow256;
    var n := i % TWO64;
    var e := Log2Size(Width(n));
    var digits := Reversed(Digits(n, Pow2(e)));
    NumberRecordSize(n, 1);
    AtParts(t, p, [0x10 + e], digits);
    assert t[p] == t[p..p + 1][0];
    Pow2Values();
    DigitsBE(n, Pow2(e));
    Pow256Values();
    assert t[p + 1..p + 1 + Size(t[p])] == digits;
  }

  lemma HeaderHolds(t: bytes, p: nat, tag: byte, n: nat)
    requires tag <= 0xF0 && tag % 16 == 0 && n < TWO31
    requires At(t, p, Header(tag, n))
    ensures CountAt(t, p, tag / 16, n) && PartsAt(t, p) == p + |Header(tag, n)|
  {
    hide IntRecord, IntAt;
    if n < 15 {
      assert t[p] == t[p..p + 1][0] == tag + n;
    } else {
      AtParts(t, p, [tag + 15], IntRecord(n));
      assert t[p] == t[p..p + 1][0] == tag + 15;
      IntRecordHolds(t, p + 1, n);
    }
  }

  lemma CountedHolds(t: bytes, p: nat, tag: byte, s: bytes)
    requires tag <= 0xF0 && tag % 16 == 0 && |t| < TWO31
    requires At(t, p, Header(tag, |s|) + s)
    ensures BytesAt(t, p, tag / 16, s)
  {
    hide Header, CountAt, PartsAt;
    AtParts(t, p, Header(tag, |s|), s);
    HeaderHolds(t, p, tag, |s|);
  }

  /** A pattern fits four bytes exactly when its high half is zero. */
  lemma HighHalf(pattern: bytes)
    requires |pattern| == 8
    ensures Width(LE(pattern)) <= 4 <==> pattern[4..] == [0, 0, 0, 0]
    ensures Width(LE(pattern)) <= 4 ==> Digits(LE(pattern), 4) == pattern[..4]
  {
    hide Digits, LE, Width, Pow256;
    var n, low, high := LE(pattern), pattern[..4], pattern[4..];
    assert pattern == low + high;
    WidthLeast(n, 4);
    DigitsLE(pattern);
    if Width(n) <= 4 {
      DigitsPadded(n, 4, 8);
      assert low == Digits(n, 4) && high == Zeros(4);
    }
    if high == [0, 0, 0, 0] {
      assert high == Zeros(4);
      LEZeros(low, 4);
      LEBound(low);
    }
  }

  /** A double is written in four bytes exactly when its high half is zero. */
  lemma RealParts(t: bytes, p: nat, pattern: bytes)
    requires |pattern| == 8 && At(t, p, NumberRecord(0x20, LE(pattern), 4))
    ensures pattern[4..] == [0, 0, 0, 0] ==> p + 5 <= |t| && t[p] == 0x22 && t[p + 1..p + 5] == Reversed(pattern[..4])
    ensures pattern[4..] != [0, 0, 0, 0] ==> p + 9 <= |t| && t[p] == 0x23 && t[p + 1..p + 9] == Reversed(pattern)
  {
    hide Digits, LE, Width, Pow2, Reversed;
    var n := LE(pattern);
    var e := Log2Size(if Width(n) < 4 then 4 else Width(n));
    AtParts(t, p, [0x20 + e], Reversed(Digits(n, Pow2(e))));
    assert t[p] == t[p..p + 1][0] == 0x20 + e;
    Pow2Values();
    HighHalf(pattern);
    DigitsLE(pattern);
  }

  lemma Pow2Values()
    ensures Pow2(0) == 1 && Pow2(1) == 2 && Pow2(2) == 4 && Pow2(3) == 8
  {
    assert Pow2(1) == 2 * Pow2(0) && Pow2(2) == 2 * Pow2(1);
  }

  lemma RealHoldsIff(t: bytes, p: nat, pattern: bytes)
    requires |pattern| == 8 && At(t, p, NumberRecord(0x20, LE(pattern), 4))
    ensures RealAt(t, p, pattern) <==> NoTinyReals(Real(pattern))
  {
    hide NumberRecord, LE;
    RealParts(t, p, pattern);
    HalfZero(pattern[..4]);
    assert pattern == pattern[..4] + pattern[4..];
    assert Zeros(4) == [0, 0, 0, 0];
  }

  lemma HalfZero(low: bytes)
    requires |low| == 4
    ensures Reversed(low) == [0, 0, 0, 0] <==> low == [0, 0, 0, 0]
    ensures low == [0, 0, 0, 0] <==> low + Zeros(4) == [0, 0, 0, 0, 0, 0, 0, 0]
  {
    var r, s := Reversed(low), low + Zeros(4);
    if r == [0, 0, 0, 0] {
      assert low[0] == r[3] && low[1] == r[2] && low[2] == r[1] && low[3] == r[0];
    }
    if s == [0, 0, 0, 0, 0, 0, 0, 0] {
      assert low == s[..4];
    }
  }

  lemma LeafHoldsIff(t: bytes, os: seq<int>, size: nat, r: nat, v: Value)
    requires !v.Arr? && !v.Dict? && Valid(v) && |t| < TWO31
    requires r < |os| && 0 <= os[r] < |t| && At(t, os[r], LeafRecord(v))
    ensures Holds(t, os, size, r, v) <==> NoTinyReals(v)
  {
    hide IntAt, RealAt, BytesAt, NumberRecord, IntRecord, LE, Header;
    var p := os[r];
    match v
    case Bool(b) =>
      assert t[p] == t[p..p + 1][0];
    case Int(i) =>
      IntRecordHolds(t, p, i);
    case Real(pattern) =>
      RealHoldsIff(t, p, pattern);
    case Date(stamp) =>
      AtParts(t, p, [0x33], stamp);
      assert t[p] == t[p..p + 1][0];
    case Data(data) =>
      CountedHolds(t, p, 0x40, data);
    case Str(text) =>
      CountedHolds(t, p, 0x50, text);
  }

  // --- runs of numbers ---

  lemma RefBytesBE(ref: int, size: nat)
    requires 1 <= size && 0 <= ref < TWO31 && ref < Pow256(size)
    ensures |RefBytes(ref, size)| == size && BE(RefBytes(ref, size)) == ref
  {
    RefBytesFit(ref, size);
    DigitsBE(ref, size);
  }

  lemma {:induction false} RefsAt(t: bytes, start: nat, refs: seq<int>, size: nat, j: nat)
    requires size >= 1 && RefsFit(refs, size) && j < |refs|
    requires At(t, start, RefListBytes(refs, size))
    ensures start + j * size + size <= |t| && RefAt(t, start, size, j) == refs[j]
    decreases j
  {
    hide RefBytes, Pow256, BE;
    AtParts(t, start, RefBytes(refs[0], size), RefListBytes(refs[1..], size));
    RefBytesBE(refs[0], size);
    if j > 0 {
      RefsAt(t, start + size, refs[1..], size, j - 1);
      OneMore(j, size);
    }
  }

  lemma {:induction false} OffsetTableIsRefs(os: seq<int>, size: nat)
    ensures OffsetTableBytes(os, size) == RefListBytes(os, size)
  {
    if os != [] {
      OffsetTableIsRefs(os[1..], size);
    }
  }

  lemma {:induction false} RefListSize(refs: seq<int>, size: nat)
    requires size >= 1 && RefsFit(refs, size)
    ensures |RefListBytes(refs, size)| == |refs| * size
  {
    hide RefBytes, Pow256;
    if refs != [] {
      RefBytesBE(refs[0], size);
      RefListSize(refs[1..], size);
      OneMore(|refs|, size);
    }
  }

  lemma {:induction false} TableIs(f: bytes, start: nat, os: seq<int>, size: nat, n: nat)
    requires size >= 1 && RefsFit(os, size) && n <= |os|
    requires At(f, start, RefListBytes(os, size)) && start + n * size <= |f|
    ensures Table(f, start, size, n) == os[..n]
    decreases n
  {
    hide RefListBytes, BE, RefsFit;
    if n > 0 {
      OneMore(n, size);
      TableIs(f, start, os, size, n - 1);
      RefsAt(f, start, os, size, n - 1);
      assert os[..n] == os[..n - 1] + [os[n - 1]];
    }
  }

  // --- the numbers of a container's members ---

  /** The objects from number `r` on are the value and what is below it. */
  ghost predicate Occupies(v: Value, r: nat, x: Value)
  {
    r + Count(x) <= Count(v) && Preorder(v)[r..r + Count(x)] == Preorder(x)
  }

  lemma {:induction false} RefsOfAt(cs: seq<Value>, ref: int, j: nat)
    requires j < |cs|
    ensures RefsOf(cs, ref)[j] == ref - TotalCount(cs[j..]) + 1
    decreases j
  {
    if j > 0 {
      RefsOfAt(cs[1..], ref, j - 1);
      assert cs[1..][j - 1..] == cs[j..];
    } else {
      assert cs[0..] == cs;
    }
  }

  lemma {:induction false} MemberPlace(cs: seq<Value>, j: nat)
    requires j < |cs|
    ensures var from := TotalCount(cs) - TotalCount(cs[j..]);
      && 0 <= from && from + Count(cs[j]) <= TotalCount(cs)
      && PreorderAll(cs)[from..from + Count(cs[j])] == Preorder(cs[j])
    decreases j
  {
    hide Preorder, PreorderAll, Count;
    PreorderFirst(cs);
    if j == 0 {
      assert cs[0..] == cs;
    } else {
      MemberPlace(cs[1..], j - 1);
      assert cs[1..][j - 1..] == cs[j..];
      var from := TotalCount(cs[1..]) - TotalCount(cs[j..]);
      SliceBehind(Preorder(cs[0]), PreorderAll(cs[1..]), from, from + Count(cs[j]));
    }
  }

  lemma PreorderFirst(cs: seq<Value>)
    requires cs != []
    ensures PreorderAll(cs) == Preorder(cs[0]) + PreorderAll(cs[1..])
  {
    hide Preorder;
  }

  lemma SliceBehind<T>(front: seq<T>, back: seq<T>, i: nat, j: nat)
    requires i <= j <= |back|
    ensures (front + back)[|front| + i..|front| + j] == back[i..j]
  {
  }

  lemma MemberOccupies(v: Value, r: nat, x: Value, j: nat)
    requires Occupies(v, r, x) && (x.Arr? || x.Dict?) && j < |Children(x)|
    ensures var c := RefsOf(Children(x), r + Count(x) - 1)[j];
      c >= 0 && Occupies(v, c, Children(x)[j])
  {
    hide Children, TotalCount, PreorderAll, Count, Preorder, RefsOf;
    var cs := Children(x);
    RefsOfAt(cs, r + Count(x) - 1, j);
    MemberPlace(cs, j);
    var from, n := TotalCount(cs) - TotalCount(cs[j..]), Count(cs[j]);
    PreorderParts(x);
    BehindFirst(Preorder(v), r, r + Count(x), x, PreorderAll(cs), from, from + n);
  }

  lemma PreorderParts(x: Value)
    requires x.Arr? || x.Dict?
    ensures Preorder(x) == [x] + PreorderAll(Children(x))
  {
    hide PreorderAll, Children;
  }

  lemma BehindFirst<T>(s: seq<T>, a: nat, b: nat, first: T, rest: seq<T>, i: nat, j: nat)
    requires a <= b <= |s| && s[a..b] == [first] + rest && i <= j <= |rest|
    ensures j + 1 <= b - a && s[a + 1 + i..a + 1 + j] == rest[i..j]
  {
    forall k | 0 <= k < j - i ensures s[a + 1 + i..a + 1 + j][k] == rest[i..j][k] {
      assert s[a..b][1 + i + k] == s[a + 1 + i + k];
    }
  }

  // --- whole files ---

  /** Where an object stands, and its record. */
  lemma RecordOf(v: Value, r: nat, x: Value)
    requires Valid(v) && Occupies(v, r, x)
    ensures |Offsets(v)| == Count(v) && r < Count(v) && 0 <= Offsets(v)[r] < |ObjectTable(v)|
    ensures At(ObjectTable(v), Offsets(v)[r], Record(x, r, RefSize(v)))
  {
    hide Record, Offsets, ObjectTable, RefSize, Valid;
    assert Preorder(v)[r] == Preorder(v)[r..r + Count(x)][0] == x;
    RecordAtOffset(v, r);
    OffsetsGrow(v);
  }

  lemma ContainerRecordIs(x: Value, r: int, size: nat)
    requires x.Arr? || x.Dict?
    ensures Record(x, r, size)
         == Header(if x.Arr? then 0xA0 else 0xD0, if x.Arr? then |x.elems| else |x.keys|)
            + RefListBytes(RefsOf(Children(x), r + Count(x) - 1), size)
  {
    hide Header, RefListBytes, RefsOf, Children, Count;
  }

  /** A container starts with its marker and the number of its members, behind which are the references. */
  lemma ContainerParts(v: Value, r: nat, x: Value)
    requires Valid(v) && |ObjectTable(v)| < TWO31 && Occupies(v, r, x) && (x.Arr? || x.Dict?)
    ensures |Offsets(v)| == Count(v) && r < Count(v) && 0 <= Offsets(v)[r] < |ObjectTable(v)|
    ensures var t, p, n := ObjectTable(v), Offsets(v)[r], if x.Arr? then |x.elems| else |x.keys|;
      && CountAt(t, p, if x.Arr? then 0xA else 0xD, n)
      && At(t, PartsAt(t, p), RefListBytes(RefsOf(Children(x), r + Count(x) - 1), RefSize(v)))
  {
    hide ObjectTable, Offsets, Header, RefListBytes, CountAt, PartsAt, RefsOf, Valid, RefSize, Occupies, TotalCount,
         Children, Count, Record;
    RecordOf(v, r, x);
    ContainerRecordIs(x, r, RefSize(v));
    var t, p := ObjectTable(v), Offsets(v)[r];
    var tag, n := if x.Arr? then 0xA0 else 0xD0, if x.Arr? then |x.elems| else |x.keys|;
    var list := RefListBytes(RefsOf(Children(x), r + Count(x) - 1), RefSize(v));
    AtParts(t, p, Header(tag, n), list);
    MembersBound(v, r, x);
    HeaderHolds(t, p, tag, n);
  }

  /** The references of a container are the numbers of its members. */
  lemma ContainerHolds(v: Value, r: nat, x: Value)
    requires Valid(v) && |ObjectTable(v)| < TWO31 && Occupies(v, r, x) && (x.Arr? || x.Dict?)
    ensures |Offsets(v)| == Count(v) && r < Count(v) && 0 <= Offsets(v)[r] < |ObjectTable(v)|
    ensures var t, p, n := ObjectTable(v), Offsets(v)[r], if x.Arr? then |x.elems| else |x.keys|;
      && CountAt(t, p, if x.Arr? then 0xA else 0xD, n) && RefsInside(t, p, RefSize(v), |Children(x)|)
      && forall j :: 0 <= j < |Children(x)| ==>
           RefAt(t, PartsAt(t, p), RefSize(v), j) == RefsOf(Children(x), r + Count(x) - 1)[j]
  {
    hide ObjectTable, Offsets, RefListBytes, RefsFit, CountAt, PartsAt, RefsOf, Pow256, BE, Valid, RefSize, Occupies,
         TotalCount, Children, RefAt, Count;
    ContainerParts(v, r, x);
    MembersBound(v, r, x);
    var t, p, size := ObjectTable(v), Offsets(v)[r], RefSize(v);
    var refs := RefsOf(Children(x), r + Count(x) - 1);
    RefSizeFits(v, r + Count(x) - 1);
    RefsOfFit(Children(x), r + Count(x) - 1, size);
    forall j | 0 <= j < |Children(x)|
      ensures PartsAt(t, p) + j * size + size <= |t| && RefAt(t, PartsAt(t, p), size, j) == refs[j]
    {
      RefsAt(t, PartsAt(t, p), refs, size, j);
    }
  }

  lemma MembersBound(v: Value, r: nat, x: Value)
    requires Valid(v) && |ObjectTable(v)| < TWO31 && Occupies(v, r, x) && (x.Arr? || x.Dict?)
    ensures r + Count(x) <= Count(v) < TWO31 && TotalCount(Children(x)) == Count(x) - 1
    ensures (if x.Arr? then |x.elems| else |x.keys|) < TWO31
  {
    hide ObjectTable, Preorder;
    CountBound(v);
  }

  lemma RefSizeFits(v: Value, ref: int)
    requires 0 <= ref < Count(v) < TWO31
    ensures RefSize(v) >= 1 && ref < Pow256(RefSize(v))
  {
    hide Pow256, Width;
    ByteSizeRange(Count(v) - 1);
    Pow256Values();
    WidthLeast(Count(v) - 1, RefSize(v));
  }

  lemma TextIs(v: Value, r: nat, s: bytes)
    requires Valid(v) && |ObjectTable(v)| < TWO31 && Occupies(v, r, Str(s))
    ensures TextHolds(ObjectTable(v), Offsets(v), r, s)
  {
    hide ObjectTable, Offsets, Header, BytesAt, Valid, RefSize, Occupies;
    RecordOf(v, r, Str(s));
    CountedHolds(ObjectTable(v), Offsets(v)[r], 0x50, s);
  }

  /** Every object of a written file is one of this format if and only if no double below it is too
      small for that. */
  lemma {:induction false} HoldsIff(v: Value, r: nat, x: Value)
    requires Valid(v) && |ObjectTable(v)| < TWO31 && Occupies(v, r, x) && Valid(x)
    ensures Holds(ObjectTable(v), Offsets(v), RefSize(v), r, x) <==> NoTinyReals(x)
    decreases Count(x), 1
  {
    hide ObjectTable, Offsets, RefSize, Occupies, Holds, NoTinyReals, LeafRecord, ContainerRecord, RefsOf, PartsAt,
         Valid;
    if !x.Arr? && !x.Dict? {
      RecordOf(v, r, x);
      LeafHoldsIff(ObjectTable(v), Offsets(v), RefSize(v), r, x);
    } else {
      ContainerHolds(v, r, x);
      MembersIff(v, r, x);
      ChildrenValid(x);
      ContainerIff(ObjectTable(v), Offsets(v), RefSize(v), r, x);
    }
  }

  lemma {:induction false} MembersIff(v: Value, r: nat, x: Value)
    requires Valid(v) && |ObjectTable(v)| < TWO31 && Occupies(v, r, x) && (x.Arr? || x.Dict?) && Valid(x)
    requires |Offsets(v)| == Count(v) && r < Count(v) && 0 <= Offsets(v)[r] < |ObjectTable(v)|
    requires RefsInside(ObjectTable(v), Offsets(v)[r], RefSize(v), |Children(x)|)
    requires forall j :: 0 <= j < |Children(x)| ==>
      RefAt(ObjectTable(v), PartsAt(ObjectTable(v), Offsets(v)[r]), RefSize(v), j)
        == RefsOf(Children(x), r + Count(x) - 1)[j]
    ensures forall j :: 0 <= j < |Children(x)| ==>
      MemberIff(ObjectTable(v), Offsets(v), RefSize(v),
                RefAt(ObjectTable(v), PartsAt(ObjectTable(v), Offsets(v)[r]), RefSize(v), j), Children(x)[j])
    decreases Count(x), 0
  {
    hide ObjectTable, Offsets, RefSize, Occupies, Holds, NoTinyReals, RefAt, RefsOf, PartsAt, TextHolds, Children;
    ChildrenValid(x);
    forall j | 0 <= j < |Children(x)|
      ensures MemberIff(ObjectTable(v), Offsets(v), RefSize(v),
                        RefAt(ObjectTable(v), PartsAt(ObjectTable(v), Offsets(v)[r]), RefSize(v), j), Children(x)[j])
    {
      var y := Children(x)[j];
      MemberOccupies(v, r, x, j);
      CountMember(Children(x), j);
      assert y in Children(x);
      var c := RefsOf(Children(x), r + Count(x) - 1)[j];
      HoldsIff(v, c, y);
      if y.Str? {
        TextIs(v, c, y.text);
      }
    }
  }

  ghost predicate MemberIff(t: bytes, os: seq<int>, size: nat, c: int, y: Value)
  {
    (Holds(t, os, size, c, y) <==> NoTinyReals(y)) && (y.Str? ==> TextHolds(t, os, c, y.text))
  }

  lemma ContainerIff(t: bytes, os: seq<int>, size: nat, r: nat, x: Value)
    requires (x.Arr? || x.Dict?) && Valid(x) && r < |os| && 0 <= os[r] < |t|
    requires CountAt(t, os[r], if x.Arr? then 0xA else 0xD, if x.Arr? then |x.elems| else |x.keys|)
    requires RefsInside(t, os[r], size, |Children(x)|)
    requires forall j :: 0 <= j < |Children(x)| ==>
      MemberIff(t, os, size, RefAt(t, PartsAt(t, os[r]), size, j), Children(x)[j])
    ensures Holds(t, os, size, r, x) <==> NoTinyReals(x)
  {
    hide CountAt, PartsAt, RefAt, TextHolds;
    var cs := Children(x);
    if x.Dict? {
      var n := |x.keys|;
      assert forall j :: 0 <= j < n ==> cs[j] == Str(x.keys[j]);
      assert forall j :: 0 <= j < n ==> cs[n + j] == x.vals[j];
      forall j | 0 <= j < n
        ensures TextHolds(t, os, RefAt(t, PartsAt(t, os[r]), size, j), x.keys[j])
        ensures Holds(t, os, size, RefAt(t, PartsAt(t, os[r]), size, n + j), x.vals[j]) <==> NoTinyReals(x.vals[j])
      {
        assert MemberIff(t, os, size, RefAt(t, PartsAt(t, os[r]), size, j), cs[j]);
        assert MemberIff(t, os, size, RefAt(t, PartsAt(t, os[r]), size, n + j), cs[n + j]);
      }
    }
  }

  lemma OccupiesWhole(v: Value)
    ensures Occupies(v, 0, v)
  {
    assert Preorder(v)[0..0 + Count(v)] == Preorder(v);
  }

  /** A written file is a file of this format, with the value for its top object, if and only if the
      value holds no double too small for that; provided its offsets fit their width. */
  lemma IsFileIff(v: Value)
    requires Valid(v) && |ObjectTable(v)| < TWO31 && OffsetsFit(v)
    ensures IsFileOf(File(v), v) <==> NoTinyReals(v)
  {
    hide ObjectTable, Offsets, BE, Holds, NoTinyReals, RefSize, OffsetByteSize, Pow256, OffsetTableBytes, WithTrailer,
         RefListBytes, Table, Occupies;
    TrailerTells(v);
    OccupiesWhole(v);
    HoldsIff(v, 0, v);
    FileParts(v);
  }

  lemma FileParts(v: Value)
    requires Valid(v) && |ObjectTable(v)| < TWO31 && OffsetsFit(v)
    ensures var f, start, width, count := File(v), |ObjectTable(v)|, OffsetByteSize(v), |Offsets(v)|;
      && width >= 1 && RefSize(v) >= 1 && start + count * width + 32 == |f|
      && f[..start] == ObjectTable(v) && Table(f, start, width, count) == Offsets(v)
      && forall i :: 0 <= i < 8 ==> f[i] == "bplist00"[i] as int
  {
    hide Offsets, Pow256, OffsetTableBytes, RefListBytes, Table, Body, Digits, Count, Valid, ByteSize;
    var t, os, width := ObjectTable(v), Offsets(v), OffsetByteSize(v);
    OffsetsGrow(v);
    ByteSizeRange(|t| - 8);
    ByteSizeRange(Count(v) - 1);
    OffsetTableIsRefs(os, width);
    RefListSize(os, width);
    var f, list := File(v), RefListBytes(os, width);
    assert f[..|t|] == t && f[|t|..|t| + |list|] == list;
    assert |f| == |t| + |list| + 32;
    TableIs(f, |t|, os, width, |os|);
    assert os[..|os|] == os;
    assert forall i :: 0 <= i < 8 ==> f[i] == f[..|t|][i] == t[i] == MAGIC[i];
  }
}
