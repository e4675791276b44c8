/** Files whose offsets do not fit their width: with one-byte entries the reader then
    always fails, so for them the width condition is exact. */
module PlistWidth {
  import opened Bytes
  import opened PlistCodec
  import opened PlistWriter
  import opened PlistReader
  import opened PlistRoundTrip
  import opened PlistFile

  // --- what the reader makes of one-byte entries ---

  lemma OneByteNumber(x: byte)
    ensures Number([x], 4) == x
  {
    Pow256Values();
    assert Reversed([x]) == [x];
    assert LE([x]) == x + 256 * LE([]);
    RegulatedMeaning([x], 4);
    WidthLeast(x, 4);
    LEDigits(x, 4);
    assert Digits(x, 4)[..4] == Digits(x, 4);
    SignedSmall(x, 4);
  }

  lemma {:induction false} OneByteEntries(b: bytes, i: nat)
    requires i <= |b|
    ensures OffsetsFrom(b, i, 1) == Ok(b[i..])
    decreases |b| - i
  {
    if i < |b| {
      assert b[i..i + 1] == [b[i]];
      OneByteNumber(b[i]);
      OneByteEntries(b, i + 1);
      assert b[i..] == [b[i]] + b[i + 1..];
    } else {
      assert b[i..] == [];
    }
  }

  /** An offset between 256 and 511 is written as two bytes, the first of them 1. */
  lemma TwoByteEntry(o: int)
    requires 256 <= o < 512
    ensures RefBytes(o, 1) == [1, o % 256]
  {
    Pow256Values();
    LEDigits(o, 4);
    RegulatedMeaning(Digits(o, 4), 1);
    assert Width(o) == 2;
    assert Digits(o, 2) == [o % 256] + Digits(o / 256, 1);
    assert Digits(o / 256, 1) == [1] + Digits(0, 0);
  }

  lemma OneByteEntry(o: int)
    requires 0 <= o < 256
    ensures RefBytes(o, 1) == [o]
  {
    hide RefBytes;
    Pow256Values();
    RefBytesFit(o, 1);
    assert Digits(o, 1) == [o % 256] + Digits(o / 256, 0) == [o];
    assert Reversed([o]) == [o];
  }

  /** Up to the first misfit the entries are right; the misfit itself reads as 1. */
  lemma {:induction false} MisfitEntries(os: seq<int>, r: nat)
    requires r < |os| && 256 <= os[r] < 512
    requires forall q :: 0 <= q < r ==> 0 <= os[q] < 256
    ensures var b := OffsetTableBytes(os, 1);
            r < |b| && b[r] == 1 && forall q :: 0 <= q < r ==> b[q] == os[q]
    decreases r
  {
    var rest := OffsetTableBytes(os[1..], 1);
    if r == 0 {
      TwoByteEntry(os[0]);
    } else {
      OneByteEntry(os[0]);
      MisfitEntries(os[1..], r - 1);
      assert OffsetTableBytes(os, 1) == [os[0]] + rest;
    }
  }

  // --- failing to read ---

  /** The tables agree on every reference below `bad`, and `bad` points at the second
      byte of the magic number. */
  ghost predicate Misdirects(d: Tables, dists: seq<int>, last: int, bad: nat)
  {
    && |dists| <= last && bad < |d.offsetTable|
    && (forall k :: 0 <= k < |dists| && last - k < bad ==> d.offsetTable[last - k] == |d.objectTable| - dists[k])
    && bad <= last && d.offsetTable[bad] == 1
    && |d.objectTable| >= 8 && d.objectTable[..8] == MAGIC
  }

  lemma MisdirectsPrefix(d: Tables, before: seq<int>, after: seq<int>, last: int, bad: nat)
    requires Misdirects(d, after, last, bad) && before <= after
    ensures Misdirects(d, before, last, bad)
  {
  }

  lemma BadReference(d: Tables, dists: seq<int>, last: int, bad: nat, depth: nat)
    requires Misdirects(d, dists, last, bad)
    ensures Parsed(d, bad, depth).Err?
  {
    assert d.objectTable[1] == d.objectTable[..8][1] == 0x70;
  }

  lemma {:induction false} MisdirectedEntries(d: Tables, refs: seq<int>, i: nat, keys: seq<bytes>, vals: seq<Value>,
                                              depth: nat, j: nat)
    requires |keys| == |vals| && i <= j < |refs| / 2
    requires Parsed(d, refs[j], depth).Err? || Parsed(d, refs[j + |refs| / 2], depth).Err?
    ensures EntriesFrom(d, refs, i, keys, vals, depth).Err?
    decreases |refs| - i
  {
    hide Parsed, Put;
    var n := |refs| / 2;
    var key := Parsed(d, refs[i], depth);
    var value := Parsed(d, refs[i + n], depth);
    if key.Ok? && key.value.Str? && value.Ok? {
      var (ks, vs) := Put(keys, vals, key.value.text, value.value);
      MisdirectedEntries(d, refs, i + 1, ks, vs, depth, j);
    }
  }

  lemma {:induction false} FailingMember(d: Tables, refs: seq<int>, depth: nat) returns (j: nat)
    requires ParsedAll(d, refs, depth).Err?
    ensures j < |refs| && Parsed(d, refs[j], depth).Err?
    decreases |refs|
  {
    if Parsed(d, refs[0], depth).Err? {
      j := 0;
    } else {
      var i := FailingMember(d, refs[1..], depth);
      j := i + 1;
    }
  }

  lemma FailingArray(d: Tables, objRef: int, pos: int, refs: seq<int>, depth: nat)
    requires depth > 0 && ParsedAll(d, refs, depth - 1).Err?
    requires OffsetOf(d, objRef) == Ok(pos) && 0 <= pos < |d.objectTable|
    requires d.objectTable[pos] / 16 == 0xA && GetRefs(d, pos, d.objectTable[pos]) == Ok(refs)
    ensures Parsed(d, objRef, depth).Err?
  {
    hide ParsedAll, EntriesFrom, GetRefs, OffsetOf, ParsedLeaf;
  }

  lemma FailingDictionary(d: Tables, objRef: int, pos: int, refs: seq<int>, depth: nat)
    requires depth > 0 && EntriesFrom(d, refs, 0, [], [], depth - 1).Err?
    requires OffsetOf(d, objRef) == Ok(pos) && 0 <= pos < |d.objectTable|
    requires d.objectTable[pos] / 16 == 0xD && GetRefs(d, pos, d.objectTable[pos]) == Ok(refs)
    ensures Parsed(d, objRef, depth).Err?
  {
    hide ParsedAll, EntriesFrom, GetRefs, OffsetOf, ParsedLeaf;
  }

  /** A container with a member that cannot be parsed cannot be parsed. */
  lemma FailingContainer(d: Tables, objRef: int, pos: int, refs: seq<int>, depth: nat)
    requires depth > 0 && ParsedAll(d, refs, depth - 1).Err?
    requires OffsetOf(d, objRef) == Ok(pos) && 0 <= pos < |d.objectTable|
    requires GetRefs(d, pos, d.objectTable[pos]) == Ok(refs)
    requires d.objectTable[pos] / 16 == 0xA || (d.objectTable[pos] / 16 == 0xD && |refs| % 2 == 0)
    ensures Parsed(d, objRef, depth).Err?
  {
    hide Parsed, ParsedAll, EntriesFrom, GetRefs, OffsetOf, ParsedLeaf;
    if d.objectTable[pos] / 16 == 0xA {
      FailingArray(d, objRef, pos, refs, depth);
    } else {
      var n := |refs| / 2;
      var j := FailingMember(d, refs, depth - 1);
      MisdirectedEntries(d, refs, 0, [], [], depth - 1, if j < n then j else j - n);
      FailingDictionary(d, objRef, pos, refs, depth);
    }
  }

  lemma {:induction false} MisreadContainer(v: Value, w: Progress, d: Tables, last: int, bad: nat, objRef: int,
                                            depth: nat)
    requires (v.Arr? || v.Dict?) && Valid(v)
    requires |d.objectTable| < TWO31 && 0 <= last < TWO31 && 1 <= d.objRefSize && last < Pow256(d.objRefSize)
    requires |w.dists| + w.ref == last
    requires w.ref - (Count(v) - 1) < bad <= w.ref
    requires var w' := Written(v, w, d.objRefSize);
             && EndsWith(d.objectTable, w'.table) && Misdirects(d, w'.dists, last, bad)
             && OffsetOf(d, objRef) == Ok(|d.objectTable| - |w'.table|)
    ensures Parsed(d, objRef, depth).Err?
    decreases Count(v), 0
  {
    hide Valid, Written, EndsWith, At, GetRefs, RefsOf, Count, WrittenAll, Pow256, ContainerRecord, ParsedAll, Parsed;
    if depth == 0 {
      TooDeepFails(d, objRef);
    } else {
      WrittenRefs(v, w, d.objRefSize);
      ChildrenValid(v);
      FindContainer(v, w, d);
      MisreadAll(Children(v), w, d, last, bad, depth - 1);
      FailingContainer(d, objRef, |d.objectTable| - |Written(v, w, d.objRefSize).table|, RefsOf(Children(v), w.ref),
        depth);
    }
  }

  lemma TooDeepFails(d: Tables, objRef: int)
    ensures Parsed(d, objRef, 0).Err?
  {
  }

  /** Whatever else is read, the members of a subtree that holds the bad reference cannot
      all be parsed. */
  lemma {:induction false} MisreadAll(cs: seq<Value>, w: Progress, d: Tables, last: int, bad: nat, depth: nat)
    requires AllValid(cs)
    requires |d.objectTable| < TWO31 && 0 <= last < TWO31 && 1 <= d.objRefSize && last < Pow256(d.objRefSize)
    requires |w.dists| + w.ref == last
    requires w.ref - TotalCount(cs) < bad <= w.ref
    requires var w' := WrittenAll(cs, w, d.objRefSize);
             EndsWith(d.objectTable, w'.table) && Misdirects(d, w'.dists, last, bad)
    ensures ParsedAll(d, RefsOf(cs, w.ref), depth).Err?
    decreases TotalCount(cs), 1
  {
    hide Valid, EndsWith, Pow256, Parsed, Written;
    var size := d.objRefSize;
    var w1 := WrittenAll(cs[1..], w, size);
    var w2 := Written(cs[0], w1, size);
    WrittenExtends(cs[0], w1, size, d.objectTable);
    WrittenAllRefs(cs[1..], w, size);
    WrittenRefs(cs[0], w1, size);
    var ref := RefsOf(cs, w.ref)[0];
    var k := |w2.dists|;
    assert (w2.dists + [|w2.table|])[k] == |w2.table|;
    if bad == ref {
      BadReference(d, w2.dists + [|w2.table|], last, bad, depth);
    } else if bad <= w1.ref {
      MisdirectsPrefix(d, w2.dists, w2.dists + [|w2.table|], last, bad);
      MisreadContainer(cs[0], w1, d, last, bad, ref, depth);
    } else {
      MisdirectsPrefix(d, w1.dists, w2.dists + [|w2.table|], last, bad);
      MisreadAll(cs[1..], w, d, last, bad, depth);
    }
  }

  /** With one-byte entries the width condition is exact: the value comes back if and only
      if every offset fits, and otherwise reading fails. */
  lemma OneByteWidthIff(v: Value, depth: nat)
    requires Valid(v) && |ObjectTable(v)| - 8 < 256
    requires depth >= Count(v)
    ensures ReadFile(File(v), depth) == Ok(v) <==> OffsetsFit(v)
    ensures !OffsetsFit(v) ==> ReadFile(File(v), depth).Err?
  {
    hide ObjectTable, Valid, Count, File, ReadFile, OffsetsFit;
    if OffsetsFit(v) {
      RoundTrip(v, depth);
    } else {
      OneByteMisread(v, depth);
    }
  }

  /** With one-byte entries an offset that does not fit makes reading fail. */
  lemma OneByteMisread(v: Value, depth: nat)
    requires Valid(v) && |ObjectTable(v)| - 8 < 256 && !OffsetsFit(v)
    ensures ReadFile(File(v), depth).Err?
  {
    hide ObjectTable, Offsets, OffsetTableBytes, OffsetsFrom, Parsed, ReadFile, File, Valid, RefSize, Count,
         OffsetByteSize, OffsetsFit;
    ReadFileUnfolds(v, depth);
    var r := FirstMisfitOffset(v);
    var b := OffsetTableBytes(Offsets(v), 1);
    OneByteEntries(b, 0);
    assert b[0..] == b;
    MisfitEntries(Offsets(v), r);
    Misread(v, b, r, depth);
  }

  lemma FirstMisfitOffset(v: Value) returns (r: nat)
    requires Valid(v) && |ObjectTable(v)| - 8 < 256 && !OffsetsFit(v)
    ensures OffsetByteSize(v) == 1 && 0 < r < Count(v) == |Offsets(v)| && 256 <= Offsets(v)[r] < 512
    ensures forall q :: 0 <= q < r ==> 0 <= Offsets(v)[q] < 256
  {
    hide ObjectTable, Offsets, Valid, Count, Pow256, ByteSize;
    ByteSizeRange(|ObjectTable(v)| - 8);
    OffsetsGrow(v);
    Pow256Values();
    r := FirstMisfit(Offsets(v), 1);
    assert forall q :: 0 <= q < r ==> Offsets(v)[..r][q] == Offsets(v)[q];
  }

  lemma Misread(v: Value, entries: seq<int>, r: nat, depth: nat)
    requires Valid(v) && |ObjectTable(v)| < TWO31
    requires 0 < r < Count(v) && r < |entries| && entries[r] == 1
    requires |Offsets(v)| == Count(v) && forall q :: 0 <= q < r ==> entries[q] == Offsets(v)[q]
    ensures Parsed(Tables(ObjectTable(v), entries, RefSize(v)), 0, depth).Err?
  {
    hide Written, Valid, Pow256, Count, ByteSize, Parsed, EndsWith, Agrees, Misdirects, Offsets;
    var last := Count(v) - 1;
    var w := Progress([], [], last);
    var d := Tables(ObjectTable(v), entries, RefSize(v));
    WrittenFile(v);
    LeafIsAlone(v);
    WrongEntry(Tables(ObjectTable(v), Offsets(v), RefSize(v)), d, Written(v, w, RefSize(v)).dists, last, r);
    MisreadContainer(v, w, d, last, r, 0, depth);
  }

  lemma LeafIsAlone(v: Value)
    requires Count(v) > 1
    ensures v.Arr? || v.Dict?
  {
  }

  /** Entries that are right below `r`, where the entry is 1. */
  lemma WrongEntry(right: Tables, d: Tables, dists: seq<int>, last: int, r: nat)
    requires Agrees(right, dists, last) && d.objectTable == right.objectTable
    requires r <= last && r < |d.offsetTable| && d.offsetTable[r] == 1
    requires forall q :: 0 <= q < r ==> d.offsetTable[q] == right.offsetTable[q]
    requires MAGIC <= d.objectTable
    ensures Misdirects(d, dists, last, r)
  {
  }

  // --- values whose offsets do not fit ---

  /** A data element followed by `true`s. */
  function DataThenTrues(data: bytes, n: nat): (v: Value)
  {
    Arr([Data(data)] + seq(n, i => Bool(true)))
  }

  lemma SmallRefSize(n: nat)
    requires n < 256
    ensures ByteSize(n) == 1
  {
    Pow256Values();
    ByteSizeRange(n);
  }

  lemma {:induction false} TruesWritten(n: nat, w: Progress, refSize: nat)
    ensures var w' := WrittenAll(seq(n, i => Bool(true)), w, refSize);
            && w'.table == seq(n, i => 9) + w.table && w'.ref == w.ref - n
            && w'.dists == w.dists + seq(n, i requires 0 <= i < n => |w.table| + 1 + i)
  {
    var cs := seq(n, i => Bool(true));
    if n == 0 {
      assert cs == [];
    } else {
      assert cs[1..] == seq(n - 1, i => Bool(true));
      TruesWritten(n - 1, w, refSize);
      var w1 := WrittenAll(cs[1..], w, refSize);
      assert Written(cs[0], w1, refSize).table == [0x09] + w1.table;
      assert [9] + seq(n - 1, i => 9) == seq(n, i => 9);
    }
  }

  lemma {:induction false} TruesCount(n: nat)
    ensures TotalCount(seq(n, i => Bool(true))) == n
  {
    if n > 0 {
      assert seq(n, i => Bool(true))[1..] == seq(n - 1, i => Bool(true));
      TruesCount(n - 1);
    }
  }

  lemma {:induction false} RefListSize(refs: seq<int>)
    requires RefsFit(refs, 1)
    ensures |RefListBytes(refs, 1)| == |refs|
    decreases |refs|
  {
    if refs != [] {
      RefBytesFit(refs[0], 1);
      RefListSize(refs[1..]);
    }
  }

  lemma DataThenTruesValid(data: bytes, n: nat)
    ensures Valid(DataThenTrues(data, n))
  {
    var v := DataThenTrues(data, n);
    assert Valid(Data(data)) && Valid(Bool(true));
    assert forall e | e in v.elems :: e == Data(data) || e == Bool(true);
  }

  lemma DataThenTruesCount(data: bytes, n: nat)
    ensures Count(DataThenTrues(data, n)) == n + 2
  {
    var v := DataThenTrues(data, n);
    var trues := seq(n, i => Bool(true));
    assert v.elems[0] == Data(data) && v.elems[1..] == trues;
    TruesCount(n);
    assert TotalCount(v.elems) == Count(v.elems[0]) + TotalCount(trues);
  }

  lemma DataThenTruesRecord(data: bytes, n: nat)
    requires 1 <= n < 14
    ensures |ContainerRecord(DataThenTrues(data, n), n + 1, 1)| == n + 2
  {
    hide Pow256, Count, TotalCount, RefsOf, RefListBytes, RefsFit;
    var v := DataThenTrues(data, n);
    DataThenTruesCount(data, n);
    assert Children(v) == v.elems;
    Pow256Values();
    RefsOfFit(v.elems, n + 1, 1);
    RefListSize(RefsOf(v.elems, n + 1));
  }

  lemma DataThenTruesShape(data: bytes, n: nat)
    requires 1 <= n < 14
    ensures var v := DataThenTrues(data, n);
            && Valid(v) && Count(v) == n + 2 && RefSize(v) == 1
            && |ContainerRecord(v, n + 1, 1)| == n + 2
  {
    hide Valid, Count, ContainerRecord, ByteSize, DataThenTrues;
    DataThenTruesValid(data, n);
    DataThenTruesCount(data, n);
    DataThenTruesRecord(data, n);
    SmallRefSize(n + 1);
  }

  /** Where everything lies in the file of a data element and `n` trues. */
  lemma DataThenTruesLayout(data: bytes, n: nat)
    requires 1 <= n < 14
    ensures var v := DataThenTrues(data, n);
            var rec := Header(0x40, |data|) + data;
            && Body(v).table == ContainerRecord(v, n + 1, 1) + (rec + seq(n, i => 9))
            && Body(v).dists == seq(n, i requires 0 <= i < n => i + 1) + [|rec| + n]
  {
    hide Header, ContainerRecord, RefSize, Count, TotalCount;
    var v := DataThenTrues(data, n);
    DataThenTruesShape(data, n);
    var trues := seq(n, i => Bool(true));
    assert v.elems[1..] == trues;
    var w := Progress([], [], n + 1);
    TruesWritten(n, w, 1);
    var w1 := WrittenAll(trues, w, 1);
    assert seq(n, i => 9) + [] == seq(n, i => 9);
    assert w1.dists == seq(n, i requires 0 <= i < n => i + 1);
    assert WrittenAll(v.elems, w, 1) == Completed(Written(Data(data), w1, 1));
  }

  lemma ShortHeader(n: nat)
    requires 15 <= n < 256
    ensures |Header(0x40, n)| == 3
  {
    assert Width(n) == 1 && n % TWO64 == n;
    assert Pow2(0) == 1;
  }

  /** The failing family: with 242 to 248 bytes of data the last offset exceeds 255 while
      the table size less 8 does not, and reading what was written fails. */
  lemma MisfitFamily(data: bytes, depth: nat)
    requires 242 <= |data| <= 248 && depth >= 3
    ensures var v := DataThenTrues(data, 1);
            Valid(v) && !OffsetsFit(v) && ReadFile(File(v), depth).Err?
  {
    hide Header, ContainerRecord, RefSize, Valid, Count, Body, Pow256, ReadFile, File, Rebased;
    var v := DataThenTrues(data, 1);
    DataThenTruesShape(data, 1);
    DataThenTruesLayout(data, 1);
    ShortHeader(|data|);
    assert |ObjectTable(v)| == |data| + 15;
    SmallRefSize(|ObjectTable(v)| - 8);
    OffsetsGrow(v);
    assert Distances(v)[0] == 1;
    assert Offsets(v)[2] == |data| + 14;
    Pow256Values();
    OneByteWidthIff(v, depth);
  }

  // --- why the condition is only sufficient for wider entries ---

  lemma TwoByteNumber(hi: byte, lo: byte)
    ensures Number([hi, lo], 4) == 256 * hi + lo
  {
    var n := 256 * hi + lo;
    Pow256Values();
    assert Digits(n, 2) == [lo] + Digits(hi, 1);
    assert Digits(hi, 1) == [hi] + Digits(0, 0);
    assert Reversed(Digits(n, 2)) == [hi, lo];
    ReadDigits(n, 2, 4);
    SignedSmall(n, 4);
  }

  lemma LuckyBytes()
    ensures OffsetTableBytes([8, 12, 65537, 65538], 2) == [0, 8, 0, 12, 1, 0, 1, 1, 0, 2]
  {
    hide RefBytes;
    LuckyEntry(8);
    LuckyEntry(12);
    LuckyEntry(65537);
    LuckyEntry(65538);
    var one, two, three := [65538], [65537, 65538], [12, 65537, 65538];
    assert one[1..] == [] && two[1..] == one && three[1..] == two && [8, 12, 65537, 65538][1..] == three;
    assert OffsetTableBytes(one, 2) == RefBytes(65538, 2);
    assert OffsetTableBytes(two, 2) == RefBytes(65537, 2) + OffsetTableBytes(one, 2);
    assert OffsetTableBytes(three, 2) == RefBytes(12, 2) + OffsetTableBytes(two, 2);
    assert OffsetTableBytes([8, 12, 65537, 65538], 2) == RefBytes(8, 2) + OffsetTableBytes(three, 2);
  }

  lemma TwoBytes(b: bytes, i: nat, hi: byte, lo: byte)
    requires i + 2 <= |b| && b[i] == hi && b[i + 1] == lo
    ensures b[i..i + 2] == [hi, lo]
  {
  }

  lemma LuckyEntries()
    ensures OffsetsFrom(OffsetTableBytes([8, 12, 65537, 65538], 2), 0, 2) == Ok([8, 12, 256, 257, 2])
  {
    hide Number, RefBytes, OffsetsFrom, OffsetTableBytes;
    LuckyBytes();
    var b: bytes := [0, 8, 0, 12, 1, 0, 1, 1, 0, 2];
    TwoByteNumber(0, 8);
    TwoByteNumber(0, 12);
    TwoByteNumber(1, 0);
    TwoByteNumber(1, 1);
    TwoByteNumber(0, 2);
    TwoBytes(b, 0, 0, 8);
    TwoBytes(b, 2, 0, 12);
    TwoBytes(b, 4, 1, 0);
    TwoBytes(b, 6, 1, 1);
    TwoBytes(b, 8, 0, 2);
    LuckyEnd(b);
    var a0, a1, a2, a3, a4 := [8, 12, 256, 257, 2], [12, 256, 257, 2], [256, 257, 2], [257, 2], [2];
    assert a0[1..] == a1 && a1[1..] == a2 && a2[1..] == a3 && a3[1..] == a4 && a4[1..] == [];
    LuckyStep(b, 8, a4);
    LuckyStep(b, 6, a3);
    LuckyStep(b, 4, a2);
    LuckyStep(b, 2, a1);
    LuckyStep(b, 0, a0);
  }

  lemma LuckyEnd(b: bytes)
    ensures OffsetsFrom(b, |b|, 2) == Ok([])
  {
  }

  lemma LuckyStep(b: bytes, i: nat, s: seq<int>)
    requires s != [] && i + 2 <= |b| && Number(b[i..i + 2], 4) == s[0]
    requires OffsetsFrom(b, i + 2, 2) == Ok(s[1..])
    ensures OffsetsFrom(b, i, 2) == Ok(s)
  {
    hide Number;
    BeforeFirst(s, OffsetsFrom(b, i + 2, 2));
  }

  lemma LuckyEntry(o: int)
    requires o == 8 || o == 12 || o == 65537 || o == 65538
    ensures RefBytes(o, 2) == if o < 256 then [0, o] else [1, 0, o - 65536]
  {
    Pow256Values();
    LEDigits(o, 4);
    RegulatedMeaning(Digits(o, 4), 2);
    assert Digits(o, 3) == [o % 256] + Digits(o / 256, 2);
    assert Digits(o / 256, 2) == [o / 256 % 256] + Digits(o / 65536, 1);
    assert Digits(o / 65536, 1) == [o / 65536 % 256] + Digits(0, 0);
    assert Digits(o, 2) == [o % 256] + Digits(o / 256, 1);
    assert Digits(o / 256, 1) == [o / 256 % 256] + Digits(o / 65536, 0);
    assert Width(o / 65536) == 1;
    assert Width(o / 256) == 1 + if o < 256 then 0 else 1;
  }

  lemma LuckyHeader()
    ensures Header(0x40, 65521) == [0x4F, 0x11, 0xFF, 0xF1]
  {
    assert Width(65521) == 1 + Width(255) == 2;
    assert Pow2(1) == 2 * Pow2(0) == 2;
    assert Digits(65521, 2) == [0xF1] + Digits(255, 1);
    assert Digits(255, 1) == [0xFF] + Digits(0, 0);
    assert Reversed(Digits(65521, 2)) == [0xFF, 0xF1];
  }

  /** With two-byte entries a file can come back although offsets do not fit: here the
      misread references happen to hit data bytes that look like the objects lost. So a
      condition on offsets that is also necessary exists only at the level of the offset
      table. */
  lemma LuckyMisfit(data: bytes, depth: nat)
    requires |data| == 65521 && data[240] == 9 && data[241] == 9 && depth >= 2
    ensures var v := DataThenTrues(data, 2);
            Valid(v) && !OffsetsFit(v) && ReadFile(File(v), depth) == Ok(v)
  {
    hide Header, ContainerRecord, RefSize, Valid, Count, Body, Pow256, ReadFile, File, Rebased, OffsetsFrom,
         OffsetTableBytes, Parsed, RefsOf, ByteSize;
    var v := DataThenTrues(data, 2);
    var t := ObjectTable(v);
    DataThenTruesShape(data, 2);
    DataThenTruesLayout(data, 2);
    LuckyHeader();
    var trues: bytes := seq(2, i => 9);
    var rec := Header(0x40, |data|) + data;
    var container := ContainerRecord(v, 3, 1);
    assert t == MAGIC + container + rec + trues;
    assert |t| == 65539;
    LuckyWidth();
    OffsetsGrow(v);
    assert Distances(v) == [1, 2, 65527, 65531];
    assert Offsets(v) == [8, 12, 65537, 65538];
    assert OffsetByteSize(v) == 2 && Offsets(v)[2] == 65537;
    LuckyEntries();
    ReadFileUnfolds(v, depth);
    var d := Tables(t, [8, 12, 256, 257, 2], 1);
    assert At(t, 8, container);
    assert At(t, 12, rec);
    assert t[256] == data[240] && t[257] == data[241];
    LuckyParse(v, d, data, depth);
  }

  lemma LuckyWidth()
    ensures ByteSize(65531) == 2 && Pow256(2) == 65536
  {
    Pow256Values();
    ByteSizeRange(65531);
    assert Width(65531) == 1 + Width(255);
  }

  lemma LuckyParse(v: Value, d: Tables, data: bytes, depth: nat)
    requires v == DataThenTrues(data, 2) && Valid(v) && Count(v) == 4 && depth >= 2
    requires d.offsetTable == [8, 12, 256, 257, 2] && d.objRefSize == 1 && 257 < |d.objectTable| < TWO31
    requires At(d.objectTable, 8, ContainerRecord(v, 3, 1)) && At(d.objectTable, 12, Header(0x40, |data|) + data)
    requires d.objectTable[256] == 9 && d.objectTable[257] == 9
    ensures Parsed(d, 0, depth) == Ok(v)
  {
    hide ContainerRecord, At, Header, GetRefs, Valid, TotalCount;
    var cs := v.elems;
    Pow256Values();
    ReadContainerRefs(v, 3, d, 8);
    LuckyRefs(data);
    var refs := [1, 2, 3];
    ReadCounted(d.objectTable, 12, 0x40, data);
    assert Parsed(d, 1, depth - 1) == Ok(Data(data));
    assert Parsed(d, 2, depth - 1) == Ok(Bool(true)) && Parsed(d, 3, depth - 1) == Ok(Bool(true));
    assert refs[1..] == [2, 3] && refs[1..][1..] == [3] && refs[1..][1..][1..] == [];
    assert ParsedAll(d, [], depth - 1) == Ok([]);
    assert ParsedAll(d, [3], depth - 1) == Ok([Bool(true)] + []);
    assert ParsedAll(d, [2, 3], depth - 1) == Ok([Bool(true)] + ([Bool(true)] + []));
    assert cs == [Data(data)] + ([Bool(true)] + ([Bool(true)] + []));
  }

  lemma LuckyRefs(data: bytes)
    ensures RefsOf(DataThenTrues(data, 2).elems, 3) == [1, 2, 3]
  {
    var cs := DataThenTrues(data, 2).elems;
    assert cs == [Data(data), Bool(true), Bool(true)];
    assert cs[1..] == [Bool(true), Bool(true)] && cs[1..][1..] == [Bool(true)] && cs[1..][1..][1..] == [];
    assert TotalCount([]) == 0 && TotalCount(cs[1..][1..]) == 1 && TotalCount(cs[1..]) == 2 && TotalCount(cs) == 3;
    assert RefsOf(cs[1..][1..], 3) == [3] && RefsOf(cs[1..], 3) == [2, 3];
  }
}
