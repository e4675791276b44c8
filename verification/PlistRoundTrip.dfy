/** Reading what the writer produced gives back the written value. */
module PlistRoundTrip {
  import opened Arithmetic
  import opened Bytes
  import opened PlistCodec
  import opened PlistWriter
  import opened PlistReader

  const TWO31: int := 0x8000_0000

  ghost predicate At(t: bytes, pos: int, s: bytes)
  {
    0 <= pos && pos + |s| <= |t| && t[pos..pos + |s|] == s
  }

  lemma AtParts(t: bytes, pos: int, a: bytes, b: bytes)
    requires At(t, pos, a + b)
    ensures At(t, pos, a) && At(t, pos + |a|, b)
  {
    assert t[pos..pos + |a + b|][..|a|] == t[pos..pos + |a|];
    assert t[pos..pos + |a + b|][|a|..] == t[pos + |a|..pos + |a + b|];
    assert (a + b)[..|a|] == a && (a + b)[|a|..] == b;
  }

  // --- numbers and headers ---

  lemma SignedSmall(n: nat, k: nat)
    requires 2 * n < Pow256(k)
    ensures Signed(n, k) == n
  {
    DivUnique(n, 0, n, Pow256(k));
  }

  lemma SignedInt64(v: int64)
    ensures Signed(v % TWO64, 8) == v
  {
    Pow256Values();
  }

  /** Big-endian digits read back as a number, whatever size they were written in. */
  lemma ReadDigits(n: nat, p: nat, size: nat)
    requires p >= 1 && size >= 1 && n < Pow256(p) && n < Pow256(size)
    ensures Regulated(Reversed(Reversed(Digits(n, p))), size) == Digits(n, size)
    ensures Number(Reversed(Digits(n, p)), size) == Signed(n, size)
  {
    ReversedTwice(Digits(n, p));
    LEDigits(n, p);
    RegulatedMeaning(Digits(n, p), size);
    WidthLeast(n, size);
    LEDigits(n, size);
    assert Digits(n, size)[..size] == Digits(n, size);
  }

  lemma NumberRecordSize(n: nat, minBytes: nat)
    requires n < TWO64 && 1 <= minBytes <= 8
    ensures var e := Log2Size(if Width(n) < minBytes then minBytes else Width(n)); n < Pow256(Pow2(e))
  {
    Pow256Values();
    WidthLeast(n, 8);
    var w := if Width(n) < minBytes then minBytes else Width(n);
    WidthLeast(n, Pow2(Log2Size(w)));
  }

  lemma ReadNumberRecord(t: bytes, pos: int, tag: byte, n: nat, minBytes: nat)
    requires tag <= 0xF0 && tag % 16 == 0 && n < TWO64 && 1 <= minBytes <= 8
    requires At(t, pos, NumberRecord(tag, n, minBytes))
    ensures t[pos] / 16 == tag / 16
    ensures var buffer := NumberBytes(t, pos);
            && buffer.Ok? && |buffer.value| == |NumberRecord(tag, n, minBytes)| - 1
            && Regulated(Reversed(buffer.value), 8) == Digits(n, 8)
            && Number(buffer.value, 8) == Signed(n, 8)
  {
    hide Digits, LE, Width, Regulated, Signed, Pow256, Pow2, Number;
    var e := Log2Size(if Width(n) < minBytes then minBytes else Width(n));
    var digits := Reversed(Digits(n, Pow2(e)));
    AtParts(t, pos, [tag + e], digits);
    assert t[pos] == t[pos..pos + 1][0] == tag + e;
    NumberRecordSize(n, minBytes);
    Pow256Values();
    ReadDigits(n, Pow2(e), 8);
    assert t[pos + 1..pos + 1 + Pow2(e)] == digits;
    assert NumberBytes(t, pos) == Ok(digits);
  }

  lemma ReadHeader(t: bytes, pos: int, tag: byte, n: nat)
    requires tag <= 0xF0 && tag % 16 == 0 && n < TWO31
    requires At(t, pos, Header(tag, n))
    ensures t[pos] / 16 == tag / 16
    ensures GetCount(t, pos, t[pos]) == Ok((n, |Header(tag, n)|))
  {
    if n < 15 {
      assert t[pos] == t[pos..pos + 1][0] == tag + n;
    } else {
      AtParts(t, pos, [tag + 15], IntRecord(n));
      assert t[pos] == t[pos..pos + 1][0] == tag + 15;
      assert n % TWO64 == n;
      ReadNumberRecord(t, pos + 1, 0x10, n, 1);
      Pow256Values();
      SignedSmall(n, 8);
      SignedSmall(n, 4);
    }
  }

  lemma ReadInt(t: bytes, pos: int, i: int64)
    requires At(t, pos, IntRecord(i))
    ensures pos < |t| && t[pos] / 16 == 0x1
    ensures ParsedLeaf(t, pos, t[pos]) == Ok(Int(i))
  {
    hide Regulated, Number, NumberBytes, NumberRecord, Digits;
    ReadNumberRecord(t, pos, 0x10, i % TWO64, 1);
    SignedInt64(i);
  }

  lemma ReadReal(t: bytes, pos: int, p: bytes)
    requires |p| == 8 && At(t, pos, NumberRecord(0x20, LE(p), 4))
    ensures pos < |t| && t[pos] / 16 == 0x2
    ensures ParsedLeaf(t, pos, t[pos]) == Ok(Real(p))
  {
    hide Regulated, Number, NumberBytes, NumberRecord, Digits, LE, Width;
    LEBound(p);
    Pow256Values();
    ReadNumberRecord(t, pos, 0x20, LE(p), 4);
    DigitsLE(p);
    assert p[..8] == p;
  }

  lemma ReadCounted(t: bytes, pos: int, tag: byte, s: bytes)
    requires tag <= 0xF0 && tag % 16 == 0 && |t| < TWO31
    requires At(t, pos, Header(tag, |s|) + s)
    ensures pos < |t| && t[pos] / 16 == tag / 16
    ensures ParseString(t, pos, t[pos]) == Ok(s) && ParseData(t, pos, t[pos]) == Ok(s)
  {
    hide Header, GetCount;
    AtParts(t, pos, Header(tag, |s|), s);
    ReadHeader(t, pos, tag, |s|);
  }

  lemma ReadLeaf(t: bytes, pos: int, v: Value)
    requires !v.Arr? && !v.Dict? && Valid(v) && |t| < TWO31
    requires At(t, pos, LeafRecord(v))
    ensures pos < |t| && t[pos] / 16 != 0xA && t[pos] / 16 != 0xD
    ensures ParsedLeaf(t, pos, t[pos]) == Ok(v)
  {
    match v
    case Bool(b) =>
      assert t[pos] == t[pos..pos + 1][0];
    case Int(i) =>
      ReadInt(t, pos, i);
    case Real(p) =>
      ReadReal(t, pos, p);
    case Date(p) =>
      AtParts(t, pos, [0x33], p);
      assert t[pos] == t[pos..pos + 1][0];
    case Data(b) =>
      ReadCounted(t, pos, 0x40, b);
    case Str(s) =>
      ReadCounted(t, pos, 0x50, s);
  }

  // --- reference lists ---

  ghost predicate RefsFit(refs: seq<int>, refSize: nat)
  {
    forall i :: 0 <= i < |refs| ==> 0 <= refs[i] < TWO31 && refs[i] < Pow256(refSize)
  }

  lemma RefBytesFit(ref: int, refSize: nat)
    requires 1 <= refSize && 0 <= ref < TWO31 && ref < Pow256(refSize)
    ensures RefBytes(ref, refSize) == Reversed(Digits(ref, refSize))
    ensures Number(RefBytes(ref, refSize), 4) == ref
  {
    Pow256Values();
    LEDigits(ref, 4);
    RegulatedMeaning(Digits(ref, 4), refSize);
    WidthLeast(ref, refSize);
    ReadDigits(ref, refSize, 4);
    SignedSmall(ref, 4);
  }

  lemma OneMore(n: nat, size: nat)
    requires n >= 1
    ensures n * size == size + (n - 1) * size && (n - 1) * size >= 0
  {
  }

  lemma {:induction false} ReadRefList(d: Tables, pos: int, refs: seq<int>)
    requires d.objRefSize >= 1 && RefsFit(refs, d.objRefSize)
    requires At(d.objectTable, pos, RefListBytes(refs, d.objRefSize))
    ensures |RefListBytes(refs, d.objRefSize)| == |refs| * d.objRefSize
    ensures RefsBetween(d, pos, pos + |refs| * d.objRefSize) == Ok(refs)
    decreases |refs|
  {
    hide RefBytes, Number, Pow256;
    if refs != [] {
      var size := d.objRefSize;
      AtParts(d.objectTable, pos, RefBytes(refs[0], size), RefListBytes(refs[1..], size));
      RefBytesFit(refs[0], size);
      ReadRefList(d, pos + size, refs[1..]);
      OneMore(|refs|, size);
      assert refs == [refs[0]] + refs[1..];
    }
  }

  // --- the written tree ---

  ghost function Height(v: Value): (h: nat)
    ensures h >= 1
    decreases Count(v), 0
  {
    if v.Arr? || v.Dict? then 1 + HeightAll(Children(v)) else 1
  }

  ghost function HeightAll(vs: seq<Value>): (h: nat)
    decreases TotalCount(vs), 1
  {
    if vs == [] then 0 else
      var rest := HeightAll(vs[1..]);
      if Height(vs[0]) > rest then Height(vs[0]) else rest
  }

  /** Nesting never exceeds the number of objects, so the reader's recursion is bounded
      by the reference count. */
  lemma HeightAtMostCount(v: Value)
    ensures 1 <= Height(v) <= Count(v)
    decreases Count(v), 0
  {
    if v.Arr? || v.Dict? {
      HeightAllAtMostCount(Children(v));
    }
  }

  lemma HeightAllAtMostCount(vs: seq<Value>)
    ensures HeightAll(vs) <= TotalCount(vs)
    decreases TotalCount(vs), 1
  {
    if vs != [] {
      HeightAtMostCount(vs[0]);
      HeightAllAtMostCount(vs[1..]);
    }
  }

  ghost predicate EndsWith(t: bytes, s: bytes)
  {
    |s| <= |t| && t[|t| - |s|..] == s
  }

  lemma EndsWithPart(t: bytes, a: bytes, b: bytes)
    requires EndsWith(t, a + b)
    ensures At(t, |t| - |a + b|, a) && EndsWith(t, b)
  {
    var pos := |t| - |a + b|;
    assert t[pos..] == t[pos..pos + |a + b|];
    AtParts(t, pos, a, b);
    assert t[|t| - |b|..] == t[pos + |a|..pos + |a| + |b|];
  }

  /** The offset table gives every distance pushed so far its place: the `k`-th distance
      belongs to reference `last - k`. */
  ghost predicate Agrees(d: Tables, dists: seq<int>, last: int)
  {
    && |dists| <= last
    && |d.offsetTable| == last + 1
    && forall k :: 0 <= k < |dists| ==> d.offsetTable[last - k] == |d.objectTable| - dists[k]
  }

  lemma AgreesPrefix(d: Tables, before: seq<int>, after: seq<int>, last: int)
    requires Agrees(d, after, last) && before <= after
    ensures Agrees(d, before, last)
  {
  }

  /** Writing only prepends to the table and only appends distances. */
  lemma WrittenExtends(v: Value, w: Progress, refSize: nat, t: bytes)
    requires EndsWith(t, Written(v, w, refSize).table)
    ensures EndsWith(t, w.table)
    ensures w.dists <= Written(v, w, refSize).dists
    decreases Count(v), 0
  {
    var w' := Written(v, w, refSize);
    if v.Arr? || v.Dict? {
      EndsWithPart(t, ContainerRecord(v, w.ref, refSize), WrittenAll(Children(v), w, refSize).table);
      WrittenAllExtends(Children(v), w, refSize, t);
    } else {
      EndsWithPart(t, LeafRecord(v), w.table);
    }
  }

  lemma {:induction false} WrittenAllExtends(cs: seq<Value>, w: Progress, refSize: nat, t: bytes)
    requires EndsWith(t, WrittenAll(cs, w, refSize).table)
    ensures EndsWith(t, w.table)
    ensures w.dists <= WrittenAll(cs, w, refSize).dists
    decreases TotalCount(cs), 1
  {
    if cs != [] {
      var w1 := WrittenAll(cs[1..], w, refSize);
      WrittenExtends(cs[0], w1, refSize, t);
      WrittenAllExtends(cs[1..], w, refSize, t);
    }
  }

  /** Containers refer only to larger reference numbers than their own, in increasing
      order: a container written when `ref` was free itself gets `ref - TotalCount(cs)`. */
  lemma {:induction false} RefsIncrease(cs: seq<Value>, ref: int)
    ensures var refs := RefsOf(cs, ref);
            && (forall i :: 0 <= i < |refs| ==> ref - TotalCount(cs) < refs[i] <= ref)
            && (forall i, j :: 0 <= i < j < |refs| ==> refs[i] < refs[j])
  {
    if cs != [] {
      RefsIncrease(cs[1..], ref);
      assert forall i :: 1 <= i < |cs| ==> RefsOf(cs, ref)[i] == RefsOf(cs[1..], ref)[i - 1];
    }
  }

  lemma {:induction false} ReadWritten(v: Value, w: Progress, d: Tables, last: int, objRef: int, depth: nat)
    requires Valid(v) && depth >= Height(v)
    requires |d.objectTable| < TWO31 && 0 <= last < TWO31 && 1 <= d.objRefSize && last < Pow256(d.objRefSize)
    requires |w.dists| + w.ref == last
    requires var w' := Written(v, w, d.objRefSize);
             && EndsWith(d.objectTable, w'.table) && Agrees(d, w'.dists, last)
             && OffsetOf(d, objRef) == Ok(|d.objectTable| - |w'.table|)
    ensures Parsed(d, objRef, depth) == Ok(v)
    decreases Count(v), 2
  {
    hide Agrees, At, Count, Height, Pow256, LeafRecord, ParsedLeaf, ParsedAll, WrittenAll, EntriesFrom, GetRefs;
    var t := d.objectTable;
    var w' := Written(v, w, d.objRefSize);
    var pos := |t| - |w'.table|;
    if v.Arr? || v.Dict? {
      ReadContainer(v, w, d, last, pos, depth);
    } else {
      EndsWithPart(t, LeafRecord(v), w.table);
      ReadLeaf(t, pos, v);
    }
  }

  lemma ChildrenValid(v: Value)
    requires (v.Arr? || v.Dict?) && Valid(v)
    ensures AllValid(Children(v))
    ensures |Children(v)| == if v.Arr? then |v.elems| else 2 * |v.keys|
    ensures v.Dict? ==> |v.keys| == |v.vals| && KeysAscend(v.keys)
  {
  }

  lemma RefsOfFit(cs: seq<Value>, ref: int, refSize: nat)
    requires TotalCount(cs) <= ref < TWO31 && ref < Pow256(refSize)
    ensures RefsFit(RefsOf(cs, ref), refSize)
  {
    RefsIncrease(cs, ref);
  }

  lemma ReadContainerRefs(v: Value, ref: int, d: Tables, pos: int)
    requires (v.Arr? || v.Dict?) && Valid(v)
    requires |d.objectTable| < TWO31 && 1 <= d.objRefSize
    requires TotalCount(Children(v)) <= ref < TWO31 && ref < Pow256(d.objRefSize)
    requires At(d.objectTable, pos, ContainerRecord(v, ref, d.objRefSize))
    ensures pos < |d.objectTable|
    ensures d.objectTable[pos] / 16 == if v.Arr? then 0xA else 0xD
    ensures GetRefs(d, pos, d.objectTable[pos]) == Ok(RefsOf(Children(v), ref))
  {
    hide RefsFit, Header, GetCount, RefsBetween, RefListBytes, RefsOf, Children, Pow256, Valid, TotalCount;
    var n := if v.Arr? then |v.elems| else |v.keys|;
    var tag := if v.Arr? then 0xA0 else 0xD0;
    var refs := RefsOf(Children(v), ref);
    AtParts(d.objectTable, pos, Header(tag, n), RefListBytes(refs, d.objRefSize));
    ChildrenValid(v);
    ReadHeader(d.objectTable, pos, tag, n);
    RefsOfFit(Children(v), ref, d.objRefSize);
    ReadRefList(d, pos + |Header(tag, n)|, refs);
    assert |refs| == n * RefsPerElement(d.objectTable[pos]);
  }

  /** Where the record of a container starts, the reader finds its references. */
  lemma FindContainer(v: Value, w: Progress, d: Tables)
    requires (v.Arr? || v.Dict?) && Valid(v)
    requires |d.objectTable| < TWO31 && 1 <= d.objRefSize
    requires TotalCount(Children(v)) <= w.ref < TWO31 && w.ref < Pow256(d.objRefSize)
    requires EndsWith(d.objectTable, Written(v, w, d.objRefSize).table)
    ensures var w1 := WrittenAll(Children(v), w, d.objRefSize);
            var pos := |d.objectTable| - |Written(v, w, d.objRefSize).table|;
            && Written(v, w, d.objRefSize).dists == w1.dists && EndsWith(d.objectTable, w1.table)
            && 0 <= pos < |d.objectTable|
            && d.objectTable[pos] / 16 == (if v.Arr? then 0xA else 0xD)
            && GetRefs(d, pos, d.objectTable[pos]) == Ok(RefsOf(Children(v), w.ref))
  {
    hide EndsWith, At, Valid, Pow256, Children, WrittenAll, GetRefs, RefsOf, TotalCount, ContainerRecord;
    EndsWithPart(d.objectTable, ContainerRecord(v, w.ref, d.objRefSize),
                 WrittenAll(Children(v), w, d.objRefSize).table);
    ReadContainerRefs(v, w.ref, d, |d.objectTable| - |Written(v, w, d.objRefSize).table|);
  }

  lemma {:induction false} ReadContainer(v: Value, w: Progress, d: Tables, last: int, pos: int, depth: nat)
    requires (v.Arr? || v.Dict?) && Valid(v) && depth >= Height(v)
    requires |d.objectTable| < TWO31 && 0 <= last < TWO31 && 1 <= d.objRefSize && last < Pow256(d.objRefSize)
    requires |w.dists| + w.ref == last
    requires var w' := Written(v, w, d.objRefSize);
             && EndsWith(d.objectTable, w'.table) && Agrees(d, w'.dists, last)
             && pos == |d.objectTable| - |w'.table|
    ensures forall objRef :: OffsetOf(d, objRef) == Ok(pos) ==> Parsed(d, objRef, depth) == Ok(v)
    decreases Count(v), 1
  {
    hide Valid, AllValid, EndsWith, At, GetRefs, RefsOf, Count, TotalCount, Written, WrittenAll, HeightAll, Pow256,
         ContainerRecord, ParsedLeaf, KeysAscend, ParsedAll, EntriesFrom;
    var cs := Children(v);
    WrittenRefs(v, w, d.objRefSize);
    ChildrenValid(v);
    FindContainer(v, w, d);
    ReadWrittenAll(cs, w, d, last, depth - 1);
    if v.Dict? {
      ReadEntries(d, RefsOf(cs, w.ref), v.keys, v.vals, 0, depth - 1);
    }
  }

  lemma {:induction false} ReadWrittenAll(cs: seq<Value>, w: Progress, d: Tables, last: int, depth: nat)
    requires AllValid(cs) && depth >= HeightAll(cs)
    requires |d.objectTable| < TWO31 && 0 <= last < TWO31 && 1 <= d.objRefSize && last < Pow256(d.objRefSize)
    requires |w.dists| + w.ref == last
    requires var w' := WrittenAll(cs, w, d.objRefSize);
             EndsWith(d.objectTable, w'.table) && Agrees(d, w'.dists, last)
    ensures ParsedAll(d, RefsOf(cs, w.ref), depth) == Ok(cs)
    decreases TotalCount(cs), 3
  {
    hide Valid, EndsWith, Count, Height, Pow256, Parsed, Written;
    if cs != [] {
      var size := d.objRefSize;
      var w1 := WrittenAll(cs[1..], w, size);
      var w2 := Written(cs[0], w1, size);
      WrittenExtends(cs[0], w1, size, d.objectTable);
      WrittenAllRefs(cs[1..], w, size);
      WrittenRefs(cs[0], w1, size);
      AgreesPrefix(d, w2.dists, w2.dists + [|w2.table|], last);
      AgreesPrefix(d, w1.dists, w2.dists, last);
      ReadWrittenAll(cs[1..], w, d, last, depth);
      var ref := RefsOf(cs, w.ref)[0];
      var k := |w2.dists|;
      assert ref == last - k;
      assert (w2.dists + [|w2.table|])[k] == |w2.table|;
      ReadWritten(cs[0], w1, d, last, ref, depth);
      assert cs == [cs[0]] + cs[1..];
    }
  }

  // --- dictionaries ---

  lemma {:induction false} KeyLessAsymmetric(a: bytes, b: bytes)
    requires KeyLess(a, b)
    ensures !KeyLess(b, a) && a != b
    decreases |a|
  {
    if a != [] && a[0] == b[0] {
      KeyLessAsymmetric(a[1..], b[1..]);
    }
  }

  /** A key above all others goes to the end of the map. */
  lemma {:induction false} PutLast(keys: seq<bytes>, vals: seq<Value>, key: bytes, value: Value)
    requires |keys| == |vals|
    requires forall k | k in keys :: KeyLess(k, key)
    ensures Put(keys, vals, key, value) == (keys + [key], vals + [value])
    decreases |keys|
  {
    if keys != [] {
      assert keys[0] in keys;
      KeyLessAsymmetric(keys[0], key);
      PutLast(keys[1..], vals[1..], key, value);
      assert keys + [key] == [keys[0]] + (keys[1..] + [key]);
      assert vals + [value] == [vals[0]] + (vals[1..] + [value]);
    } else {
      assert [key] + keys == keys + [key] && [value] + vals == vals + [value];
    }
  }

  lemma {:induction false} ParsedAllAt(d: Tables, refs: seq<int>, depth: nat, i: nat)
    requires ParsedAll(d, refs, depth).Ok?
    requires i < |refs|
    ensures |ParsedAll(d, refs, depth).value| == |refs|
    ensures Parsed(d, refs[i], depth) == Ok(ParsedAll(d, refs, depth).value[i])
    decreases |refs|
  {
    var rest := ParsedAll(d, refs[1..], depth);
    if |refs| > 1 {
      ParsedAllAt(d, refs[1..], depth, if i == 0 then 0 else i - 1);
    }
  }

  lemma {:induction false} ReadEntries(d: Tables, refs: seq<int>, keys: seq<bytes>, vals: seq<Value>, i: nat,
                                       depth: nat)
    requires i <= |keys| == |vals| && |refs| == 2 * |keys| && KeysAscend(keys)
    requires ParsedAll(d, refs, depth) == Ok(Strs(keys) + vals)
    ensures EntriesFrom(d, refs, i, keys[..i], vals[..i], depth) == Ok((keys, vals))
    decreases |keys| - i
  {
    hide Parsed, ParsedAll, Put, KeyLess;
    if i < |keys| {
      ParsedAllAt(d, refs, depth, i);
      ParsedAllAt(d, refs, depth, i + |keys|);
      PutLast(keys[..i], vals[..i], keys[i], vals[i]);
      assert keys[..i] + [keys[i]] == keys[..i + 1];
      assert vals[..i] + [vals[i]] == vals[..i + 1];
      ReadEntries(d, refs, keys, vals, i + 1, depth);
    } else {
      assert keys[..i] == keys && vals[..i] == vals;
    }
  }
}
