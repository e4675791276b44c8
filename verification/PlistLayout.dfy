/** The exact layout of a written file: which object every reference number stands for,
    and where its record lies. */
module PlistLayout {
  import opened Bytes
  import opened PlistCodec
  import opened PlistWriter
  import opened PlistReader
  import opened PlistRoundTrip
  import opened PlistFile

  // --- the objects of a value in the order of their reference numbers ---

  /** A value, then all objects below it: every container before its members. */
  ghost function Preorder(v: Value): (os: seq<Value>)
    ensures |os| == Count(v) && os[0] == v
    decreases Count(v), 0
  {
    if v.Arr? || v.Dict? then [v] + PreorderAll(Children(v)) else [v]
  }

  ghost function PreorderAll(vs: seq<Value>): (os: seq<Value>)
    ensures |os| == TotalCount(vs)
    decreases TotalCount(vs), 1
  {
    if vs == [] then [] else Preorder(vs[0]) + PreorderAll(vs[1..])
  }

  /** The record of the object with number `ref`. The members of a container have the
      numbers that follow its own. */
  ghost function Record(v: Value, ref: int, refSize: nat): (r: bytes)
  {
    if v.Arr? || v.Dict? then ContainerRecord(v, ref + Count(v) - 1, refSize) else LeafRecord(v)
  }

  /** The records of objects with consecutive numbers, one after the other. */
  ghost function Records(os: seq<Value>, ref: int, refSize: nat): (r: bytes)
  {
    if os == [] then [] else Record(os[0], ref, refSize) + Records(os[1..], ref + 1, refSize)
  }

  lemma {:induction false} RecordsAppend(a: seq<Value>, b: seq<Value>, ref: int, refSize: nat)
    ensures Records(a + b, ref, refSize) == Records(a, ref, refSize) + Records(b, ref + |a|, refSize)
  {
    hide Record;
    if a == [] {
      assert a + b == b;
    } else {
      assert (a + b)[1..] == a[1..] + b;
      RecordsAppend(a[1..], b, ref + 1, refSize);
    }
  }

  /** How far the records of `os`, laid in front of `base` bytes, start from the table's
      end: the record completed first comes first. */
  ghost function Ends(os: seq<Value>, ref: int, refSize: nat, base: nat): (ds: seq<int>)
    ensures |ds| == |os|
  {
    if os == [] then [] else Ends(os[1..], ref + 1, refSize, base) + [|Records(os, ref, refSize)| + base]
  }

  lemma {:induction false} EndsAppend(a: seq<Value>, b: seq<Value>, ref: int, refSize: nat, base: nat)
    ensures Ends(a + b, ref, refSize, base)
         == Ends(b, ref + |a|, refSize, base) + Ends(a, ref, refSize, |Records(b, ref + |a|, refSize)| + base)
  {
    hide Records;
    if a == [] {
      assert a + b == b;
    } else {
      assert (a + b)[1..] == a[1..] + b;
      EndsAppend(a[1..], b, ref + 1, refSize, base);
      RecordsAppend(a, b, ref, refSize);
    }
  }

  lemma {:induction false} EndsAt(os: seq<Value>, ref: int, refSize: nat, base: nat, r: nat)
    requires r < |os|
    ensures Ends(os, ref, refSize, base)[|os| - 1 - r] == |Records(os[r..], ref + r, refSize)| + base
  {
    hide Records;
    if r == 0 {
      assert os[0..] == os;
    } else {
      EndsAt(os[1..], ref + 1, refSize, base, r - 1);
      assert os[1..][r - 1..] == os[r..];
    }
  }

  lemma LaidNone(os: seq<Value>, ref: int, refSize: nat, base: nat)
    requires os == []
    ensures Records(os, ref, refSize) == [] && Ends(os, ref, refSize, base) == []
  {
  }

  lemma LaidFirst(os: seq<Value>, ref: int, refSize: nat, base: nat)
    requires os != []
    ensures Records(os, ref, refSize) == Record(os[0], ref, refSize) + Records(os[1..], ref + 1, refSize)
    ensures Ends(os, ref, refSize, base)
         == Ends(os[1..], ref + 1, refSize, base) + [|Records(os, ref, refSize)| + base]
  {
  }

  // --- while writing ---

  /** Writing a value lays its records out in the order of their numbers. Each distance
      pushed is that of a finished record; the value's own is left to push. */
  lemma {:induction false} WrittenLays(v: Value, w: Progress, refSize: nat)
    ensures var os, ref, w' := Preorder(v), w.ref - Count(v) + 1, Written(v, w, refSize);
            && w'.table == Records(os, ref, refSize) + w.table
            && w'.dists == w.dists + Ends(os[1..], ref + 1, refSize, |w.table|)
    decreases Count(v), 0
  {
    hide ContainerRecord, LeafRecord, Ends, Records, Children;
    var os, ref := Preorder(v), w.ref - Count(v) + 1;
    if v.Arr? || v.Dict? {
      WrittenAllLays(Children(v), w, refSize);
      assert os[1..] == PreorderAll(Children(v));
    } else {
      assert os[1..] == [];
      LaidNone(os[1..], ref + 1, refSize, |w.table|);
    }
    LaidFirst(os, ref, refSize, |w.table|);
  }

  lemma {:induction false} WrittenAllLays(cs: seq<Value>, w: Progress, refSize: nat)
    ensures var os, ref, w' := PreorderAll(cs), w.ref - TotalCount(cs) + 1, WrittenAll(cs, w, refSize);
            && w'.table == Records(os, ref, refSize) + w.table
            && w'.dists == w.dists + Ends(os, ref, refSize, |w.table|)
    decreases TotalCount(cs), 1
  {
    hide Written, Records, Ends, Preorder;
    if cs == [] {
      LaidNone([], w.ref + 1, refSize, |w.table|);
    } else {
      var w1 := WrittenAll(cs[1..], w, refSize);
      WrittenAllLays(cs[1..], w, refSize);
      WrittenAllRefs(cs[1..], w, refSize);
      WrittenLays(cs[0], w1, refSize);
      var a, b := Preorder(cs[0]), PreorderAll(cs[1..]);
      LaidInFront(a, b, w, w1, Written(cs[0], w1, refSize), w.ref - TotalCount(cs) + 1, refSize);
    }
  }

  /** Objects laid in front of others, and then completed, are laid together with them. */
  lemma LaidInFront(a: seq<Value>, b: seq<Value>, w: Progress, w1: Progress, w2: Progress, ref: int, refSize: nat)
    requires a != []
    requires w1.table == Records(b, ref + |a|, refSize) + w.table
    requires w1.dists == w.dists + Ends(b, ref + |a|, refSize, |w.table|)
    requires w2.table == Records(a, ref, refSize) + w1.table
    requires w2.dists == w1.dists + Ends(a[1..], ref + 1, refSize, |w1.table|)
    ensures Completed(w2).table == Records(a + b, ref, refSize) + w.table
    ensures Completed(w2).dists == w.dists + Ends(a + b, ref, refSize, |w.table|)
  {
    hide Records, Ends;
    RecordsAppend(a, b, ref, refSize);
    Stacked(Records(a, ref, refSize), Records(b, ref + |a|, refSize), w.table, w1.table, w2.table);
    EndsInFront(a, b, ref, refSize, |w.table|, |w1.table|);
    Pushed(w.dists, w1.dists, w2.dists, Ends(b, ref + |a|, refSize, |w.table|),
           Ends(a[1..], ref + 1, refSize, |w1.table|), |w2.table|);
  }

  lemma EndsInFront(a: seq<Value>, b: seq<Value>, ref: int, refSize: nat, base: nat, base1: nat)
    requires a != [] && base1 == |Records(b, ref + |a|, refSize)| + base
    ensures Ends(a + b, ref, refSize, base)
         == Ends(b, ref + |a|, refSize, base)
            + (Ends(a[1..], ref + 1, refSize, base1) + [|Records(a, ref, refSize)| + base1])
  {
    hide Records, Ends;
    EndsAppend(a, b, ref, refSize, base);
    LaidFirst(a, ref, refSize, base1);
  }

  lemma Stacked(front: bytes, back: bytes, t0: bytes, t1: bytes, t2: bytes)
    requires t1 == back + t0 && t2 == front + t1
    ensures t2 == (front + back) + t0 && |t1| == |back| + |t0| && |t2| == |front| + |t1|
  {
  }

  lemma Pushed(d0: seq<int>, d1: seq<int>, d2: seq<int>, earlier: seq<int>, later: seq<int>, last: int)
    requires d1 == d0 + earlier && d2 == d1 + later
    ensures d2 + [last] == d0 + (earlier + (later + [last]))
  {
  }

  // --- the finished file ---

  /** The exact layout: from the offset of reference `r` on, the table holds the records of
      the objects with the numbers from `r`, one after the other and nothing else. */
  lemma TableFromOffset(v: Value, r: nat)
    requires Valid(v) && r < Count(v)
    ensures |Offsets(v)| == Count(v) && 0 <= Offsets(v)[r] <= |ObjectTable(v)|
    ensures ObjectTable(v)[Offsets(v)[r]..] == Records(Preorder(v)[r..], r, RefSize(v))
  {
    hide Records, Written, RefSize, Valid, Count, Preorder;
    var os, t, size := Preorder(v), ObjectTable(v), RefSize(v);
    OffsetsGrow(v);
    WrittenLays(v, Progress([], [], Count(v) - 1), size);
    assert t == MAGIC + Records(os, 0, size);
    assert Distances(v) == Ends(os, 0, size, 0);
    EndsAt(os, 0, size, 0, r);
    RecordsAppend(os[..r], os[r..], 0, size);
    assert os[..r] + os[r..] == os;
    var record := Records(os[r..], r, size);
    assert Offsets(v)[r] == |t| - |record|;
  }

  /** Each offset is where the record of its object starts, and the record reaches to the
      next offset, the last one to the end of the table. */
  lemma RecordAtOffset(v: Value, r: nat)
    requires Valid(v) && r < Count(v)
    ensures var record := Record(Preorder(v)[r], r, RefSize(v));
            && |Offsets(v)| == Count(v)
            && At(ObjectTable(v), Offsets(v)[r], record)
            && Offsets(v)[r] + |record| == if r + 1 < Count(v) then Offsets(v)[r + 1] else |ObjectTable(v)|
  {
    hide Record, Offsets, ObjectTable, Preorder, RefSize, Count, Valid;
    var os, t, size := Preorder(v), ObjectTable(v), RefSize(v);
    TableFromOffset(v, r);
    var o, record := Offsets(v)[r], Record(os[r], r, size);
    assert os[r..][1..] == os[r + 1..];
    assert t[o..] == record + Records(os[r + 1..], r + 1, size);
    assert t[o..][..|record|] == t[o..o + |record|];
    if r + 1 < Count(v) {
      TableFromOffset(v, r + 1);
    }
  }

  // --- reading any reference ---

  /** Below a written value, every reference reads as the object it stands for. */
  lemma {:induction false} ReadBelow(v: Value, w: Progress, d: Tables, last: int, r: nat, depth: nat)
    requires Valid(v) && depth >= Height(v) && 0 < r < Count(v)
    requires |d.objectTable| < TWO31 && 0 <= last < TWO31 && 1 <= d.objRefSize && last < Pow256(d.objRefSize)
    requires |w.dists| + w.ref == last
    requires var w' := Written(v, w, d.objRefSize);
             EndsWith(d.objectTable, w'.table) && Agrees(d, w'.dists, last)
    ensures Parsed(d, w.ref - Count(v) + 1 + r, depth) == Ok(Preorder(v)[r])
    decreases Count(v), 0
  {
    hide Valid, Agrees, EndsWith, Pow256, Parsed, ContainerRecord, LeafRecord, WrittenAll, HeightAll;
    EndsWithPart(d.objectTable, ContainerRecord(v, w.ref, d.objRefSize),
                 WrittenAll(Children(v), w, d.objRefSize).table);
    ChildrenValid(v);
    ReadAmong(Children(v), w, d, last, r - 1, depth);
  }

  lemma {:induction false} ReadAmong(cs: seq<Value>, w: Progress, d: Tables, last: int, r: nat, depth: nat)
    requires AllValid(cs) && depth >= HeightAll(cs) && r < TotalCount(cs)
    requires |d.objectTable| < TWO31 && 0 <= last < TWO31 && 1 <= d.objRefSize && last < Pow256(d.objRefSize)
    requires |w.dists| + w.ref == last
    requires var w' := WrittenAll(cs, w, d.objRefSize);
             EndsWith(d.objectTable, w'.table) && Agrees(d, w'.dists, last)
    ensures Parsed(d, w.ref - TotalCount(cs) + 1 + r, depth) == Ok(PreorderAll(cs)[r])
    decreases TotalCount(cs), 1
  {
    hide Valid, EndsWith, Height, Pow256, Parsed, Written, Preorder;
    var size := d.objRefSize;
    var w1 := WrittenAll(cs[1..], w, size);
    var w2 := Written(cs[0], w1, size);
    WrittenExtends(cs[0], w1, size, d.objectTable);
    WrittenAllRefs(cs[1..], w, size);
    WrittenRefs(cs[0], w1, size);
    AgreesPrefix(d, w2.dists, w2.dists + [|w2.table|], last);
    AgreesPrefix(d, w1.dists, w2.dists, last);
    if r == 0 {
      assert (w2.dists + [|w2.table|])[|w2.dists|] == |w2.table|;
      ReadWritten(cs[0], w1, d, last, last - |w2.dists|, depth);
    } else if r < Count(cs[0]) {
      ReadBelow(cs[0], w1, d, last, r, depth);
    } else {
      ReadAmong(cs[1..], w, d, last, r - Count(cs[0]), depth);
    }
  }

  /** Every reference of a written file reads as the object with that number. */
  lemma EveryReferenceReads(v: Value, r: nat, depth: nat)
    requires Valid(v) && |ObjectTable(v)| < TWO31
    requires r < Count(v) && depth >= Count(v)
    ensures Parsed(Tables(ObjectTable(v), Offsets(v), RefSize(v)), r, depth) == Ok(Preorder(v)[r])
  {
    hide Valid, Parsed, Written, Pow256, Preorder, Count, Height, RefSize;
    var last := Count(v) - 1;
    var w := Progress([], [], last);
    WrittenFile(v);
    HeightAtMostCount(v);
    var d := Tables(ObjectTable(v), Offsets(v), RefSize(v));
    if r == 0 {
      ReadWritten(v, w, d, last, 0, depth);
    } else {
      ReadBelow(v, w, d, last, r, depth);
    }
  }
}
