/** Whole files: the offset table's layout, the width condition, and the round trip. */
module PlistFile {
  import opened Bytes
  import opened PlistCodec
  import opened PlistWriter
  import opened PlistReader
  import opened PlistRoundTrip

  // --- distances and offsets ---

  /** Distances in order of completion: positive, strictly growing, at most `hi`. */
  ghost predicate Growing(dists: seq<int>, hi: int)
  {
    && (forall k :: 0 <= k < |dists| ==> 0 < dists[k] <= hi)
    && (forall j, k :: 0 <= j < k < |dists| ==> dists[j] < dists[k])
  }

  lemma WrittenGrows(v: Value, w: Progress, refSize: nat)
    requires Growing(w.dists, |w.table|) && Valid(v)
    ensures var w' := Written(v, w, refSize); Growing(w'.dists, |w'.table| - 1) && |w'.table| >= 1
    decreases Count(v), 0
  {
    if v.Arr? || v.Dict? {
      ChildrenValid(v);
      WrittenAllGrows(Children(v), w, refSize);
      assert |ContainerRecord(v, w.ref, refSize)| >= 1;
    } else {
      assert |LeafRecord(v)| >= 1;
    }
  }

  lemma GrowingPushed(w: Progress)
    requires Growing(w.dists, |w.table| - 1) && |w.table| >= 1
    ensures Growing(Completed(w).dists, |Completed(w).table|)
  {
  }

  /** A run of members leaves distances that grow strictly and reach no further than the
      table does: each one is pushed after the table has grown by a record. */
  lemma {:induction false} WrittenAllGrows(cs: seq<Value>, w: Progress, refSize: nat)
    requires Growing(w.dists, |w.table|) && AllValid(cs)
    ensures var w' := WrittenAll(cs, w, refSize); Growing(w'.dists, |w'.table|)
    decreases TotalCount(cs), 1
  {
    if cs != [] {
      hide Written, Valid, TotalCount, Growing;
      WrittenAllGrows(cs[1..], w, refSize);
      var w1 := WrittenAll(cs[1..], w, refSize);
      WrittenGrows(cs[0], w1, refSize);
      GrowingPushed(Written(cs[0], w1, refSize));
    }
  }

  /** Final offsets start at 8 with the root and grow strictly with the reference number. */
  lemma OffsetsGrow(v: Value)
    requires Valid(v)
    ensures |Offsets(v)| == Count(v) && Offsets(v)[0] == 8
    ensures forall r :: 0 <= r < Count(v) ==> 8 <= Offsets(v)[r] < |ObjectTable(v)|
    ensures forall q, r :: 0 <= q < r < Count(v) ==> Offsets(v)[q] < Offsets(v)[r]
  {
    hide Written, Valid, RefSize;
    var w := Progress([], [], Count(v) - 1);
    WrittenGrows(v, w, RefSize(v));
    WrittenRefs(v, w, RefSize(v));
  }

  ghost function LastOffset(v: Value): (o: int)
    requires Valid(v)
  {
    OffsetsGrow(v);
    Offsets(v)[Count(v) - 1]
  }

  // --- the width condition ---

  /** Every offset fits the width of an offset table entry. */
  ghost predicate OffsetsFit(v: Value)
  {
    forall r :: 0 <= r < |Offsets(v)| ==> Offsets(v)[r] < Pow256(OffsetByteSize(v))
  }

  /** The width is taken from the table size less 8, while offsets reach further: they all
      fit unless a power of 256 lies between the two. */
  lemma WidthCondition(v: Value)
    requires Valid(v) && |ObjectTable(v)| < TWO31
    ensures OffsetsFit(v) <==> LastOffset(v) < Pow256(OffsetByteSize(v))
    ensures OffsetsFit(v) <==> !exists k: nat :: |ObjectTable(v)| - 8 < Pow256(k) <= LastOffset(v)
  {
    hide ObjectTable, Offsets, Width, Pow256;
    OffsetsGrow(v);
    var n := |ObjectTable(v)| - 8;
    Pow256Values();
    ByteSizeRange(n);
    NoPowerBetween(n, LastOffset(v));
  }

  /** Every power of 256 above `n` is above `last` exactly when the first one is. */
  lemma NoPowerBetween(n: nat, last: int)
    requires 1 <= n < Pow256(4)
    ensures last < Pow256(Width(n)) <==> !exists k: nat :: n < Pow256(k) <= last
  {
    hide Width, Pow256;
    var size := Width(n);
    WidthLeast(n, size);
    if last < Pow256(size) {
      forall k: nat | n < Pow256(k) ensures last < Pow256(k) {
        if k >= 1 {
          WidthLeast(n, k);
          Pow256Monotonic(size, k);
        } else {
          Pow256Values();
        }
      }
    }
  }

  /** The offsets always fit when the record that is written first has eight bytes. */
  lemma LongRecordFits(v: Value)
    requires Valid(v) && |ObjectTable(v)| < TWO31
    requires |ObjectTable(v)| - LastOffset(v) >= 8
    ensures OffsetsFit(v)
  {
    WidthCondition(v);
  }

  // --- the offset table ---

  lemma NextEntry(b: bytes, i: nat, offsets: seq<int>, size: nat)
    requires size >= 1 && offsets != [] && 0 <= offsets[0] < TWO31 && offsets[0] < Pow256(size)
    requires i <= |b| && b[i..] == OffsetTableBytes(offsets, size)
    ensures i + size <= |b| && b[i + size..] == OffsetTableBytes(offsets[1..], size)
    ensures OffsetsFrom(b, i, size) == Before([offsets[0]], OffsetsFrom(b, i + size, size))
  {
    hide Number, RefBytes, Pow256;
    RefBytesFit(offsets[0], size);
    assert b[i..][..size] == b[i..i + size] == RefBytes(offsets[0], size);
    assert b[i..][size..] == b[i + size..];
  }

  lemma BeforeFirst<T>(s: seq<T>, rest: Result<seq<T>>)
    requires s != []
    ensures Before([s[0]], rest) == Ok(s) <==> rest == Ok(s[1..])
  {
    if rest.Ok? {
      assert ([s[0]] + rest.value)[1..] == rest.value;
      assert [s[0]] + s[1..] == s;
    }
  }

  lemma RefsFitFirst(refs: seq<int>, size: nat)
    requires RefsFit(refs, size) && refs != []
    ensures 0 <= refs[0] < TWO31 && refs[0] < Pow256(size) && RefsFit(refs[1..], size)
  {
    hide Pow256;
  }

  lemma {:induction false} OffsetTableReads(b: bytes, i: nat, offsets: seq<int>, size: nat)
    requires size >= 1 && RefsFit(offsets, size)
    requires i <= |b| && b[i..] == OffsetTableBytes(offsets, size)
    ensures OffsetsFrom(b, i, size) == Ok(offsets)
    decreases |offsets|
  {
    if offsets != [] {
      hide OffsetsFrom, OffsetTableBytes, Pow256, Before, RefsFit;
      RefsFitFirst(offsets, size);
      NextEntry(b, i, offsets, size);
      OffsetTableReads(b, i + size, offsets[1..], size);
      BeforeFirst(offsets, OffsetsFrom(b, i + size, size));
    }
  }

  /** An offset that does not fit is never read back: `size` bytes cannot hold it. */
  lemma {:induction false} OffsetTableMisreads(b: bytes, i: nat, offsets: seq<int>, size: nat, r: nat)
    requires 1 <= size <= 3 && r < |offsets| && RefsFit(offsets[..r], size)
    requires Pow256(size) <= offsets[r] < TWO31
    requires i <= |b| && b[i..] == OffsetTableBytes(offsets, size)
    ensures OffsetsFrom(b, i, size) != Ok(offsets)
    decreases r
  {
    hide OffsetsFrom, OffsetTableBytes, Pow256;
    if r == 0 {
      ShortEntry(b, i, size);
    } else {
      assert offsets[..r][0] == offsets[0];
      NextEntry(b, i, offsets, size);
      assert offsets[1..][..r - 1] == offsets[..r][1..];
      OffsetTableMisreads(b, i + size, offsets[1..], size, r - 1);
      BeforeFirst(offsets, OffsetsFrom(b, i + size, size));
    }
  }

  lemma ShortEntry(b: bytes, i: nat, size: nat)
    requires 1 <= size <= 3
    ensures var r := OffsetsFrom(b, i, size); r.Ok? && r.value != [] ==> r.value[0] < Pow256(size)
  {
    if i < |b| && i + size <= |b| {
      var temp := b[i..i + size];
      var little := Reversed(temp);
      LEBound(little);
      Pow256Values();
      Pow256Monotonic(size, 3);
      assert Pow256(4) == 256 * Pow256(3);
      RegulatedMeaning(little, 4);
      WidthLeast(LE(little), 4);
      LEDigits(LE(little), 4);
      assert Digits(LE(little), 4)[..4] == Digits(LE(little), 4);
      SignedSmall(LE(little), 4);
      assert GetRange(b, i, size) == Ok(temp) && Number(temp, 4) == LE(little);
    }
  }

  lemma TableIff(os: seq<int>, size: nat)
    requires 1 <= size <= 4 && forall i :: 0 <= i < |os| ==> 0 <= os[i] < TWO31
    ensures OffsetsFrom(OffsetTableBytes(os, size), 0, size) == Ok(os)
       <==> forall r :: 0 <= r < |os| ==> os[r] < Pow256(size)
  {
    hide OffsetsFrom, OffsetTableBytes, Pow256;
    var b := OffsetTableBytes(os, size);
    if forall r :: 0 <= r < |os| ==> os[r] < Pow256(size) {
      OffsetTableReads(b, 0, os, size);
    } else {
      Pow256Values();
      var r := FirstMisfit(os, size);
      OffsetTableMisreads(b, 0, os, size, r);
    }
  }

  /** The offset table survives the file exactly when every offset fits its width. */
  lemma OffsetTableIff(v: Value)
    requires Valid(v) && |ObjectTable(v)| < TWO31
    ensures OffsetsFrom(OffsetTableBytes(Offsets(v), OffsetByteSize(v)), 0, OffsetByteSize(v)) == Ok(Offsets(v))
       <==> OffsetsFit(v)
  {
    OffsetsGrow(v);
    ByteSizeRange(|ObjectTable(v)| - 8);
    TableIff(Offsets(v), OffsetByteSize(v));
  }

  lemma FirstMisfit(os: seq<int>, size: nat) returns (r: nat)
    requires forall i :: 0 <= i < |os| ==> 0 <= os[i] < TWO31
    requires exists i :: 0 <= i < |os| && os[i] >= Pow256(size)
    ensures r < |os| && os[r] >= Pow256(size) && RefsFit(os[..r], size)
  {
    r := 0;
    while os[r] < Pow256(size)
      decreases |os| - r
      invariant r < |os| && RefsFit(os[..r], size)
      invariant exists i :: r <= i < |os| && os[i] >= Pow256(size)
    {
      r := r + 1;
    }
  }

  // --- the file ---

  lemma SplitTrailer(body: bytes, entrySize: nat, refSize: nat, count: nat, n: nat)
    requires entrySize < 256 && refSize < 256 && count < TWO31 && n < TWO63
    ensures var f := WithTrailer(body, entrySize, refSize, count, n);
            f[..|body|] == body && TrailerFields(f[|f| - 32..]) == Trailer(entrySize, refSize, count, n)
  {
    hide Digits, Number;
    var f := WithTrailer(body, entrySize, refSize, count, n);
    var trailer := f[|f| - 32..];
    assert trailer[6] == f[|body| + 6] == entrySize;
    assert trailer[7] == f[|body| + 7] == refSize;
    assert trailer[8..16] == f[|body| + 8..|body| + 16] == Reversed(Digits(count, 8));
    assert trailer[24..] == f[|body| + 24..] == Reversed(Digits(n, 8));
    Pow256Values();
    DigitsPadded(count, 4, 8);
    assert trailer[12..16] == trailer[8..16][4..] == Reversed(Digits(count, 4));
    ReadDigits(count, 4, 4);
    SignedSmall(count, 4);
    ReadDigits(n, 8, 8);
    SignedSmall(n, 8);
  }

  lemma ReadParts(f: bytes, t: bytes, b: bytes, entrySize: nat, refSize: nat, depth: nat)
    requires |f| == |t| + |b| + 32 && f[..|t| + |b|] == t + b && MAGIC <= t
    requires var d := TrailerFields(f[|f| - 32..]);
      d.offsetByteSize == entrySize && d.objRefSize == refSize && d.offsetTableOffset == |t|
    ensures var offsets := OffsetsFrom(b, 0, entrySize);
            ReadFile(f, depth) ==
            if offsets.Err? then Err(offsets.error)
            else Parsed(Tables(t, offsets.value, refSize), 0, depth)
  {
    hide OffsetsFrom, Parsed, TrailerFields;
    assert f[..8] == f[..|t| + |b|][..8] == MAGIC;
    assert f[0..|t|] == f[..|t| + |b|][..|t|] == t;
    assert f[|t|..|t| + |b|] == f[..|t| + |b|][|t|..] == b;
    assert f[|f| - 32..|f|] == f[|f| - 32..];
  }

  /** Reading a written file is parsing its root against its own two tables. */
  lemma ReadFileUnfolds(v: Value, depth: nat)
    requires Valid(v) && |ObjectTable(v)| < TWO31
    ensures var offsets := OffsetsFrom(OffsetTableBytes(Offsets(v), OffsetByteSize(v)), 0, OffsetByteSize(v));
            ReadFile(File(v), depth) ==
            if offsets.Err? then Err(offsets.error)
            else Parsed(Tables(ObjectTable(v), offsets.value, RefSize(v)), 0, depth)
  {
    hide OffsetsFrom, Parsed, TrailerFields, Offsets, OffsetTableBytes, ReadFile, Body, WithTrailer;
    var t, b := ObjectTable(v), OffsetTableBytes(Offsets(v), OffsetByteSize(v));
    ByteSizeRange(|t| - 8);
    ByteSizeRange(Count(v) - 1);
    CountBound(v);
    SplitTrailer(t + b, OffsetByteSize(v), RefSize(v), Count(v), |t|);
    ReadParts(File(v), t, b, OffsetByteSize(v), RefSize(v), depth);
  }

  /** The written file's tables are as the reader of a subtree expects them. */
  lemma WrittenFile(v: Value)
    requires Valid(v) && |ObjectTable(v)| < TWO31
    ensures var w, last := Progress([], [], Count(v) - 1), Count(v) - 1;
            var d := Tables(ObjectTable(v), Offsets(v), RefSize(v));
            && 0 <= last < TWO31 && 1 <= d.objRefSize && last < Pow256(d.objRefSize)
            && EndsWith(d.objectTable, Written(v, w, d.objRefSize).table)
            && Agrees(d, Written(v, w, d.objRefSize).dists, last)
            && OffsetOf(d, 0) == Ok(|d.objectTable| - |Written(v, w, d.objRefSize).table|)
  {
    hide Written, Valid, Pow256, Count, ByteSize;
    var last := Count(v) - 1;
    WrittenRefs(v, Progress([], [], last), RefSize(v));
    OffsetsGrow(v);
    CountBound(v);
    ByteSizeRange(last);
    Pow256Values();
    WidthLeast(last, RefSize(v));
  }

  /** The round trip: reading what the writer produced gives back the written value. */
  lemma RoundTrip(v: Value, depth: nat)
    requires Valid(v) && |ObjectTable(v)| < TWO31
    requires OffsetsFit(v)
    requires depth >= Count(v)
    ensures ReadFile(File(v), depth) == Ok(v)
  {
    hide *;
    ReadFileUnfolds(v, depth);
    OffsetTableIff(v);
    HeightAtMostCount(v);
    WrittenFile(v);
    var d := Tables(ObjectTable(v), Offsets(v), RefSize(v));
    ReadWritten(v, Progress([], [], Count(v) - 1), d, Count(v) - 1, 0, depth);
  }

  /** Every object takes at least one byte of the table. */
  lemma CountBound(v: Value)
    requires Valid(v)
    ensures Count(v) <= |ObjectTable(v)|
  {
    OffsetsGrow(v);
    var os := Offsets(v);
    GrowingSpread(os, |os| - 1);
  }

  lemma {:induction false} GrowingSpread(os: seq<int>, r: nat)
    requires r < |os| && os[0] >= 8
    requires forall i, j :: 0 <= i < j < |os| ==> os[i] < os[j]
    ensures os[r] >= 8 + r
  {
    if r > 0 {
      GrowingSpread(os, r - 1);
    }
  }
}
