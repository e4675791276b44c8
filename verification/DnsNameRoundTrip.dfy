/** Names written into one packet read back: every pointer the writer emits leads to a
    complete earlier name. */
module DnsNameRoundTrip {
  import opened Bytes
  import opened DnsNames
  import opened Common
  import opened DnsNameWriter

  /** Pointers reach 14 bits. */
  const MAX_PACKET: nat := 0x4000

  ghost predicate Distinct(ls: Name)
  {
    forall i, j :: 0 <= i < j < |ls| ==> ls[i] != ls[j]
  }

  /** A label stands at `pos` itself, not behind a pointer. */
  ghost predicate LabelAt(b: bytes, pos: nat, l: bytes)
  {
    && 1 <= |l| <= 63 && pos + 1 + |l| <= |b|
    && b[pos] == |l| && b[pos + 1..pos + 1 + |l|] == l
  }

  lemma LabelAtNext(b: bytes, pos: nat, l: bytes)
    requires LabelAt(b, pos, l)
    ensures NextSubstring(b, pos) == Some(Substring(pos + 1, |l|, false))
  {
  }

  /** A complete name starts with a label at `pos`. */
  ghost predicate NamedAt(b: bytes, pos: nat, m: Name)
  {
    m != [] && LabelAt(b, pos, m[0]) && Reads(b, pos, m)
  }

  ghost predicate Entry(b: bytes, pos: nat)
  {
    exists m :: NamedAt(b, pos, m)
  }

  ghost function NameAt(b: bytes, pos: nat): (m: Name)
    requires Entry(b, pos)
    ensures NamedAt(b, pos, m)
  {
    var m :| NamedAt(b, pos, m);
    m
  }

  /** The table entries below `pos`: each leads to a complete name, except those in
      `partial`, which stand for labels of the name still being written; none of those
      labels comes again in `ls`, the labels left to write. */
  ghost predicate Known(b: bytes, pos: nat, t: Ring, partial: set<nat>, ls: Name)
  {
    && RingOk(t) && pos <= |b|
    && (forall p | p in partial :: p < pos)
    && forall k :: 0 <= k < t.count ==> KnownEntry(b, pos, t.offset[k], partial, ls)
  }

  ghost predicate KnownEntry(b: bytes, pos: nat, e: nat, partial: set<nat>, ls: Name)
    requires pos <= |b|
  {
    && e < pos
    && if e in partial then exists l :: LabelAt(b[..pos], e, l) && l !in ls
       else Entry(b[..pos], e)
  }

  // --- searching finds complete names only ---

  /** A name that goes on with `ls` has `ls` as a prefix, and conversely. */
  lemma {:induction false} GoesOnIffPrefix(b: bytes, pos: nat, m: Name, ls: Name)
    requires Reads(b, pos, m) && WellFormed(ls)
    ensures GoesOnWith(b, pos, ls) <==> ls <= m
    decreases |ls|
  {
    hide NextSubstring;
    if ls != [] {
      assert ls[0] in ls;
      if m != [] && m[0] == ls[0] {
        var s := NextSubstring(b, pos).value;
        GoesOnIffPrefix(b, s.offset + s.length, m[1..], ls[1..]);
        assert ls <= m <==> ls[1..] <= m[1..] by {
          assert ls == [ls[0]] + ls[1..] && m == [m[0]] + m[1..];
        }
      }
    }
  }

  lemma PrefixSplit(b: bytes, pos: nat)
    requires pos <= |b|
    ensures b == b[..pos] + b[pos..]
  {
  }

  lemma PartialNotFound(b: bytes, pos: nat, e: nat, l: bytes, ls: Name)
    requires pos <= |b| && LabelAt(b[..pos], e, l) && ls != [] && l !in ls
    ensures !GoesOnWith(b, e, ls)
  {
    PrefixSplit(b, pos);
    LabelAtNext(b[..pos], e, l);
    NextSubstringExtends(b[..pos], b[pos..], e);
    assert b[..pos][e + 1..e + 1 + |l|] == b[e + 1..e + 1 + |l|];
    assert ls[0] in ls;
  }

  /** The search returns an entry of a complete name that starts with the labels sought. */
  lemma FoundIsComplete(b: bytes, pos: nat, t: Ring, partial: set<nat>, ls: Name)
    requires Known(b, pos, t, partial, ls) && ls != [] && WellFormed(ls)
    ensures var found := FoundFrom(b, t, ls, 0);
            found.Some? ==>
              && found.value < pos && Entry(b[..pos], found.value) && ls <= NameAt(b[..pos], found.value)
              && found.value !in partial && exists k :: 0 <= k < t.count && t.offset[k] == found.value
  {
    hide NextSubstring, GoesOnWith, Reads, FoundFrom;
    var found := FoundFrom(b, t, ls, 0);
    FoundFromMeaning(b, t, ls, 0);
    if found.Some? {
      var k :| 0 <= k < t.count && t.offset[k] == found.value < |b| && GoesOnWith(b, found.value, ls);
      assert KnownEntry(b, pos, t.offset[k], partial, ls);
      PrefixSplit(b, pos);
      if found.value in partial {
        var l :| LabelAt(b[..pos], found.value, l) && l !in ls;
        PartialNotFound(b, pos, found.value, l, ls);
      } else {
        var m := NameAt(b[..pos], found.value);
        ReadsExtends(b[..pos], b[pos..], found.value, m);
        GoesOnIffPrefix(b, found.value, m, ls);
      }
    }
  }

  // --- what a written name reads as ---

  /** The name that stands in the packet after writing `ls`: the labels written out, then
      the whole name of the entry pointed at. */
  ghost function Resolved(b: bytes, pos: nat, ls: Name, t: Ring): (m: Name)
    requires pos <= |b| && RingOk(t)
    decreases |ls|
  {
    if ls == [] then [] else
      var found := FoundFrom(b, t, ls, 0);
      if found.Some? then
        if Entry(b[..pos], found.value) then NameAt(b[..pos], found.value) else []
      else if |b| - pos <= |ls[0]| + 1 then []
      else [ls[0]] + Resolved(Spliced(b, pos, [|ls[0]| % 256] + ls[0]), pos + |ls[0]| + 1, ls[1..], Added(t, pos))
  }

  /** Nothing below the writing position and nothing behind the end is touched. */
  lemma {:induction false} WrittenFrame(b: bytes, pos: nat, ls: Name, t: Ring)
    requires pos <= |b| && RingOk(t) && Written(b, pos, ls, t).Some?
    ensures var w := Written(b, pos, ls, t).value; w.b[..pos] == b[..pos] && w.b[w.pos..] == b[w.pos..]
    decreases |ls|
  {
    hide FoundFrom, Added, RingOk, PointerBytes;
    if ls != [] && FoundFrom(b, t, ls, 0).None? {
      var b1 := Spliced(b, pos, [|ls[0]| % 256] + ls[0]);
      var pos1 := pos + |ls[0]| + 1;
      WrittenFrame(b1, pos1, ls[1..], Added(t, pos));
      var w := Written(b, pos, ls, t).value;
      assert w.b[..pos] == w.b[..pos1][..pos] == b1[..pos];
      assert b1[w.pos..] == b1[pos1..][w.pos - pos1..] == b[pos1..][w.pos - pos1..];
    }
  }

  lemma EntryExtends(b: bytes, pos: nat, b': bytes, pos': nat, e: nat)
    requires pos <= |b| && pos <= pos' <= |b'| && b'[..pos] == b[..pos]
    requires Entry(b[..pos], e)
    ensures Entry(b'[..pos'], e) && NameAt(b'[..pos'], e) == NameAt(b[..pos], e)
  {
    var m := NameAt(b[..pos], e);
    NamedExtends(b, pos, b', pos', e, m);
    ReadsUnique(b'[..pos'], e, m, NameAt(b'[..pos'], e));
  }

  lemma NamedExtends(b: bytes, pos: nat, b': bytes, pos': nat, e: nat, m: Name)
    requires pos <= |b| && pos <= pos' <= |b'| && b'[..pos] == b[..pos]
    requires NamedAt(b[..pos], e, m)
    ensures NamedAt(b'[..pos'], e, m)
  {
    hide Reads;
    assert b'[..pos'] == b[..pos] + b'[pos..pos'];
    ReadsExtends(b[..pos], b'[pos..pos'], e, m);
    LabelExtends(b, pos, b', pos', e, m[0]);
  }

  lemma LabelExtends(b: bytes, pos: nat, b': bytes, pos': nat, e: nat, l: bytes)
    requires pos <= |b| && pos <= pos' <= |b'| && b'[..pos] == b[..pos]
    requires LabelAt(b[..pos], e, l)
    ensures LabelAt(b'[..pos'], e, l)
  {
    assert b'[..pos'][e + 1..e + 1 + |l|] == b[..pos][e + 1..e + 1 + |l|];
    assert b'[..pos'][e] == b[..pos][e];
  }

  /** Writing on keeps the table's knowledge, with fewer labels left. */
  lemma KnownExtends(b: bytes, pos: nat, t: Ring, partial: set<nat>, ls: Name, b': bytes, pos': nat, ls': Name)
    requires Known(b, pos, t, partial, ls)
    requires pos <= pos' <= |b'| && b'[..pos] == b[..pos] && forall l | l in ls' :: l in ls
    ensures Known(b', pos', t, partial, ls')
  {
    hide Entry, LabelAt;
    forall k | 0 <= k < t.count ensures KnownEntry(b', pos', t.offset[k], partial, ls') {
      var e := t.offset[k];
      assert KnownEntry(b, pos, e, partial, ls);
      if e in partial {
        var l :| LabelAt(b[..pos], e, l) && l !in ls;
        LabelExtends(b, pos, b', pos', e, l);
      } else {
        EntryExtends(b, pos, b', pos', e);
      }
    }
  }

  /** After a label is written out, its table entry is partial until the name is complete. */
  lemma KnownAdded(b: bytes, pos: nat, t: Ring, partial: set<nat>, l: bytes, ls: Name)
    requires Known(b, pos, t, partial, [l] + ls) && l !in ls && 1 <= |l| <= 63
    requires pos + 1 + |l| <= |b|
    ensures var b1 := Spliced(b, pos, [|l| % 256] + l);
            LabelAt(b1[..pos + 1 + |l|], pos, l) && Known(b1, pos + 1 + |l|, Added(t, pos), partial + {pos}, ls)
  {
    hide Entry;
    var b1 := Spliced(b, pos, [|l| % 256] + l);
    var pos1 := pos + 1 + |l|;
    assert b1[..pos] == b[..pos];
    assert b1[..pos1][pos + 1..pos1] == l;
    KnownExtends(b, pos, t, partial, [l] + ls, b1, pos1, ls);
    var t1 := Added(t, pos);
    forall k | 0 <= k < t1.count ensures KnownEntry(b1, pos1, t1.offset[k], partial + {pos}, ls) {
      if t1.offset[k] != pos {
        assert t1.offset[k] == t.offset[k] && k < t.count;
        assert KnownEntry(b1, pos1, t.offset[k], partial, ls);
      }
    }
  }

  /** Once the name is complete, its first label's entry is complete too. */
  lemma KnownCompleted(b: bytes, pos: nat, t: Ring, partial: set<nat>, e: nat)
    requires Known(b, pos, t, partial + {e}, []) && Entry(b[..pos], e)
    ensures Known(b, pos, t, partial, [])
  {
    hide Entry, LabelAt;
    forall k | 0 <= k < t.count ensures KnownEntry(b, pos, t.offset[k], partial, []) {
      assert KnownEntry(b, pos, t.offset[k], partial + {e}, []);
    }
  }

  /** The two bytes of a pointer lead to the label at its target. */
  lemma PointerSubstring(p: bytes, pos: nat, target: nat, l: bytes)
    requires target < pos && target < MAX_PACKET && |p| == pos + 2 && p[pos..] == PointerBytes(target)
    requires LabelAt(p, target, l)
    ensures NextSubstring(p, pos) == Some(Substring(target + 1, |l|, true))
  {
    PointerTarget(p, pos, target);
    hide RefTarget, PointerBytes;
    assert Deref(p, target, 1) == Some(target);
    assert Deref(p, pos, 0) == Some(target);
  }

  lemma PointerTarget(p: bytes, pos: nat, target: nat)
    requires target < MAX_PACKET && |p| == pos + 2 && p[pos..] == PointerBytes(target)
    ensures RefTarget(p, pos) == target && IsStringRef(p[pos])
  {
    var v := 0xC000 + target;
    assert p[pos] == p[pos..][0] == v / 256 && p[pos + 1] == p[pos..][1] == v % 256;
    assert v == v / 256 * 256 + v % 256;
  }

  /** The name `ls` reads at `pos` and ends at `end`. */
  ghost predicate ReadsTo(b: bytes, pos: nat, ls: Name, end: nat)
  {
    Reads(b, pos, ls) && EndOf(b, pos, ls) == end
  }

  lemma ReadsThrough(p: bytes, pos: nat, target: nat, m: Name)
    requires m != [] && Reads(p, target, m) && LabelAt(p, target, m[0])
    requires NextSubstring(p, pos) == Some(Substring(target + 1, |m[0]|, true))
    ensures ReadsTo(p, pos, m, pos + 2)
  {
    LabelAtNext(p, target, m[0]);
    hide NextSubstring;
  }

  /** A pointer to a complete name reads as that name and ends behind its two bytes. */
  lemma PointerReads(b: bytes, pos: nat, target: nat, m: Name)
    requires target < pos < MAX_PACKET && pos + 2 <= |b| && NamedAt(b[..pos], target, m)
    ensures var b' := Spliced(b, pos, PointerBytes(target)); ReadsTo(b'[..pos + 2], pos, m, pos + 2)
  {
    hide Reads, ReadsTo, LabelAt, PointerBytes, NextSubstring;
    var b' := Spliced(b, pos, PointerBytes(target));
    var p := b'[..pos + 2];
    assert b'[..pos] == b[..pos] && p[pos..] == PointerBytes(target);
    NamedExtends(b, pos, b', pos + 2, target, m);
    PointerSubstring(p, pos, target, m[0]);
    ReadsThrough(p, pos, target, m);
  }

  /** A label written out in front of a name. */
  lemma LabelReads(p: bytes, pos: nat, l: bytes, m: Name, end: nat)
    requires LabelAt(p, pos, l) && ReadsTo(p, pos + 1 + |l|, m, end)
    ensures NamedAt(p, pos, [l] + m) && ReadsTo(p, pos, [l] + m, end)
  {
    LabelAtNext(p, pos, l);
    assert ([l] + m)[1..] == m;
  }

  /** What the writer leaves reads as the resolved name and ends at the writing position;
      all table entries, old and new, lead to complete names. */
  lemma {:induction false} WrittenReads(b: bytes, pos: nat, ls: Name, t: Ring, partial: set<nat>)
    requires |b| <= MAX_PACKET && WellFormed(ls) && Distinct(ls) && Known(b, pos, t, partial, ls)
    requires Written(b, pos, ls, t).Some?
    ensures var w := Written(b, pos, ls, t).value;
            var p := w.b[..w.pos];
            && Reads(p, pos, Resolved(b, pos, ls, t)) && EndOf(p, pos, Resolved(b, pos, ls, t)) == w.pos
            && ls <= Resolved(b, pos, ls, t)
            && (ls != [] && FoundFrom(b, t, ls, 0).None? ==> NamedAt(p, pos, Resolved(b, pos, ls, t)))
            && Known(w.b, w.pos, w.table, partial, [])
    decreases |ls|
  {
    hide Reads, EndOf, Entry, NextSubstring, FoundFrom, LabelAt, NamedAt, Known, Spliced, Added, RingOk, Written,
         Resolved;
    KnownBasics(b, pos, t, partial, ls);
    WrittenUnfolds(b, pos, ls, t);
    ResolvedUnfolds(b, pos, ls, t);
    WrittenFrame(b, pos, ls, t);
    var w := Written(b, pos, ls, t).value;
    var p := w.b[..w.pos];
    if ls == [] {
      ZeroReads(b, pos);
      KnownExtends(b, pos, t, partial, [], w.b, w.pos, []);
    } else {
      var found := FoundFrom(b, t, ls, 0);
      if found.Some? {
        FoundIsComplete(b, pos, t, partial, ls);
        PointerReads(b, pos, found.value, NameAt(b[..pos], found.value));
        KnownExtends(b, pos, t, partial, ls, w.b, w.pos, []);
      } else {
        var l, tail := ls[0], ls[1..];
        assert ls == [l] + tail && l in ls;
        var b1 := Spliced(b, pos, [|l| % 256] + l);
        KnownAdded(b, pos, t, partial, l, tail);
        WrittenReads(b1, pos + 1 + |l|, tail, Added(t, pos), partial + {pos});
        WrittenFrame(b1, pos + 1 + |l|, tail, Added(t, pos));
        LabelCompletes(b1, pos, l, Resolved(b1, pos + 1 + |l|, tail, Added(t, pos)), w, partial);
      }
    }
  }

  /** The label at `pos` in front of a completed rest completes the name. */
  lemma LabelCompletes(b1: bytes, pos: nat, l: bytes, rest: Name, w: Progress, partial: set<nat>)
    requires pos + 1 + |l| <= |b1| && LabelAt(b1[..pos + 1 + |l|], pos, l)
    requires pos + 1 + |l| <= w.pos <= |w.b| && w.b[..pos + 1 + |l|] == b1[..pos + 1 + |l|]
    requires ReadsTo(w.b[..w.pos], pos + 1 + |l|, rest, w.pos)
    requires Known(w.b, w.pos, w.table, partial + {pos}, [])
    ensures ReadsTo(w.b[..w.pos], pos, [l] + rest, w.pos)
    ensures NamedAt(w.b[..w.pos], pos, [l] + rest)
    ensures Known(w.b, w.pos, w.table, partial, [])
  {
    hide ReadsTo, Entry, LabelAt, NamedAt, Known;
    LabelExtends(b1, pos + 1 + |l|, w.b, w.pos, pos, l);
    LabelReads(w.b[..w.pos], pos, l, rest, w.pos);
    EntryOf(w.b[..w.pos], pos, [l] + rest);
    KnownCompleted(w.b, w.pos, w.table, partial, pos);
  }

  lemma KnownBasics(b: bytes, pos: nat, t: Ring, partial: set<nat>, ls: Name)
    requires Known(b, pos, t, partial, ls)
    ensures RingOk(t) && pos <= |b|
  {
  }

  lemma ResolvedUnfolds(b: bytes, pos: nat, ls: Name, t: Ring)
    requires pos <= |b| && RingOk(t)
    ensures ls == [] ==> Resolved(b, pos, ls, t) == []
    ensures ls != [] && FoundFrom(b, t, ls, 0).Some? && Entry(b[..pos], FoundFrom(b, t, ls, 0).value) ==>
              Resolved(b, pos, ls, t) == NameAt(b[..pos], FoundFrom(b, t, ls, 0).value)
    ensures ls != [] && FoundFrom(b, t, ls, 0).None? && |b| - pos > |ls[0]| + 1 ==> (
              Resolved(b, pos, ls, t)
           == [ls[0]] + Resolved(Spliced(b, pos, [|ls[0]| % 256] + ls[0]), pos + |ls[0]| + 1, ls[1..], Added(t, pos)))
  {
  }

  lemma EntryOf(p: bytes, pos: nat, m: Name)
    requires NamedAt(p, pos, m)
    ensures Entry(p, pos) && Reads(p, pos, m) && NameAt(p, pos) == m
  {
    ReadsUnique(p, pos, m, NameAt(p, pos));
  }

  lemma ZeroReads(b: bytes, pos: nat)
    requires pos < |b|
    ensures var p := Spliced(b, pos, [0])[..pos + 1]; Reads(p, pos, []) && EndOf(p, pos, []) == pos + 1
  {
  }

  // --- when exactly the name comes back ---

  /** The first suffix of `ls` that the table offers belongs to an entry whose whole name
      is that suffix, not a longer one. */
  ghost predicate NoLongerMatch(b: bytes, pos: nat, ls: Name, t: Ring)
    requires pos <= |b| && RingOk(t)
    decreases |ls|
  {
    if ls == [] then true else
      var found := FoundFrom(b, t, ls, 0);
      if found.Some? then Entry(b[..pos], found.value) && NameAt(b[..pos], found.value) == ls
      else
        && |b| - pos > |ls[0]| + 1
        && NoLongerMatch(Spliced(b, pos, [|ls[0]| % 256] + ls[0]), pos + |ls[0]| + 1, ls[1..], Added(t, pos))
  }

  lemma {:induction false} ResolvedIff(b: bytes, pos: nat, ls: Name, t: Ring)
    requires pos <= |b| && RingOk(t)
    ensures NoLongerMatch(b, pos, ls, t) ==> Resolved(b, pos, ls, t) == ls
    ensures Written(b, pos, ls, t).Some? && ls != [] && Resolved(b, pos, ls, t) == ls ==> NoLongerMatch(b, pos, ls, t)
    decreases |ls|
  {
    hide FoundFrom, Spliced, Added, RingOk, Entry;
    if ls != [] && FoundFrom(b, t, ls, 0).None? && |b| - pos > |ls[0]| + 1 {
      var b1 := Spliced(b, pos, [|ls[0]| % 256] + ls[0]);
      ResolvedIff(b1, pos + |ls[0]| + 1, ls[1..], Added(t, pos));
      var rest := Resolved(b1, pos + |ls[0]| + 1, ls[1..], Added(t, pos));
      assert ls == [ls[0]] + ls[1..];
      assert ([ls[0]] + rest)[1..] == rest;
    }
  }

  // --- families of names that never capture one another ---

  ghost predicate SuffixOf(names: set<Name>, m: Name)
  {
    exists n, j: nat :: n in names && j < |n| && n[j..] == m
  }

  /** No suffix of a name continues to a longer suffix of a name. */
  ghost predicate SuffixFree(names: set<Name>)
  {
    forall a, c :: SuffixOf(names, a) && SuffixOf(names, c) && a <= c ==> a == c
  }

  /** One final label that ends every name and occurs nowhere else is enough. */
  lemma CommonFinalLabel(names: set<Name>, final: bytes)
    requires forall n | n in names :: n != [] && n[|n| - 1] == final
    requires forall n, i | n in names && 0 <= i < |n| - 1 :: n[i] != final
    ensures SuffixFree(names)
  {
    forall a, c | SuffixOf(names, a) && SuffixOf(names, c) && a <= c ensures a == c {
      var n, i: nat :| n in names && i < |n| && n[i..] == a;
      var m, j: nat :| m in names && j < |m| && m[j..] == c;
      var k := |a| - 1;
      assert a[k] == n[|n| - 1] == final;
      assert c[k] == m[j + k];
    }
  }

  /** Complete table entries are suffixes of the names of the family. */
  ghost predicate Family(b: bytes, pos: nat, t: Ring, partial: set<nat>, names: set<Name>)
    requires pos <= |b| && RingOk(t)
  {
    forall k :: 0 <= k < t.count && t.offset[k] !in partial ==> FamilyEntry(b, pos, t.offset[k], names)
  }

  ghost predicate FamilyEntry(b: bytes, pos: nat, e: nat, names: set<Name>)
    requires pos <= |b|
  {
    Entry(b[..pos], e) && SuffixOf(names, NameAt(b[..pos], e))
  }

  lemma FamilyExtends(b: bytes, pos: nat, t: Ring, partial: set<nat>, names: set<Name>, b': bytes, pos': nat)
    requires pos <= |b| && RingOk(t) && Family(b, pos, t, partial, names)
    requires pos <= pos' <= |b'| && b'[..pos] == b[..pos]
    ensures Family(b', pos', t, partial, names)
  {
    hide Entry, SuffixOf;
    forall k | 0 <= k < t.count && t.offset[k] !in partial ensures FamilyEntry(b', pos', t.offset[k], names) {
      assert FamilyEntry(b, pos, t.offset[k], names);
      EntryExtends(b, pos, b', pos', t.offset[k]);
    }
  }

  lemma FamilyAdded(b: bytes, pos: nat, t: Ring, partial: set<nat>, names: set<Name>, e: nat)
    requires pos <= |b| && RingOk(t) && Family(b, pos, t, partial, names)
    ensures Family(b, pos, Added(t, e), partial + {e}, names)
  {
    hide Entry, SuffixOf;
    var t1 := Added(t, e);
    forall k | 0 <= k < t1.count && t1.offset[k] !in partial + {e} ensures FamilyEntry(b, pos, t1.offset[k], names) {
      assert t1.offset[k] == t.offset[k] && k < t.count;
      assert FamilyEntry(b, pos, t.offset[k], names);
    }
  }

  lemma FamilyCompleted(b: bytes, pos: nat, t: Ring, partial: set<nat>, names: set<Name>, e: nat)
    requires pos <= |b| && RingOk(t) && Family(b, pos, t, partial + {e}, names) && FamilyEntry(b, pos, e, names)
    ensures Family(b, pos, t, partial, names)
  {
    hide Entry, SuffixOf;
    forall k | 0 <= k < t.count && t.offset[k] !in partial ensures FamilyEntry(b, pos, t.offset[k], names) {
      if t.offset[k] != e {
        assert t.offset[k] !in partial + {e};
      }
    }
  }

  lemma SuffixTail(names: set<Name>, m: Name)
    requires SuffixOf(names, m) && |m| > 1
    ensures SuffixOf(names, m[1..])
  {
    var n, j: nat :| n in names && j < |n| && n[j..] == m;
    assert n[j + 1..] == m[1..];
  }

  lemma FoundInFamily(b: bytes, pos: nat, t: Ring, partial: set<nat>, names: set<Name>, ls: Name)
    requires Known(b, pos, t, partial, ls) && ls != [] && WellFormed(ls) && FoundFrom(b, t, ls, 0).Some?
    requires Family(b, pos, t, partial, names) && SuffixFree(names) && SuffixOf(names, ls)
    ensures var e := FoundFrom(b, t, ls, 0).value; Entry(b[..pos], e) && NameAt(b[..pos], e) == ls
  {
    hide Entry, SuffixOf, Known, FoundFrom, KnownEntry;
    KnownBasics(b, pos, t, partial, ls);
    FoundIsComplete(b, pos, t, partial, ls);
    var e := FoundFrom(b, t, ls, 0).value;
    var k :| 0 <= k < t.count && t.offset[k] == e;
    assert FamilyEntry(b, pos, t.offset[k], names);
  }

  lemma FamilyLabel(b: bytes, pos: nat, l: bytes, tail: Name, t: Ring, partial: set<nat>, names: set<Name>)
    requires Known(b, pos, t, partial, [l] + tail) && l !in tail && 1 <= |l| <= 63 && pos + 1 + |l| <= |b|
    requires Family(b, pos, t, partial, names)
    ensures var b1 := Spliced(b, pos, [|l| % 256] + l);
            && Known(b1, pos + 1 + |l|, Added(t, pos), partial + {pos}, tail)
            && Family(b1, pos + 1 + |l|, Added(t, pos), partial + {pos}, names)
  {
    hide Known, Family, LabelAt, Added;
    KnownBasics(b, pos, t, partial, [l] + tail);
    KnownAdded(b, pos, t, partial, l, tail);
    FamilyAdded(b, pos, t, partial, names, pos);
    var b1 := Spliced(b, pos, [|l| % 256] + l);
    assert b1[..pos] == b[..pos];
    FamilyExtends(b, pos, Added(t, pos), partial + {pos}, names, b1, pos + 1 + |l|);
  }

  /** In a suffix-free family every name resolves to itself. */
  lemma {:induction false} FamilyWritten(b: bytes, pos: nat, ls: Name, t: Ring, partial: set<nat>, names: set<Name>)
    requires |b| <= MAX_PACKET && WellFormed(ls) && Distinct(ls) && Known(b, pos, t, partial, ls)
    requires Written(b, pos, ls, t).Some?
    requires SuffixFree(names) && (ls == [] || SuffixOf(names, ls)) && Family(b, pos, t, partial, names)
    ensures Resolved(b, pos, ls, t) == ls
    ensures var w := Written(b, pos, ls, t).value; Family(w.b, w.pos, w.table, partial, names)
    decreases |ls|
  {
    hide Reads, EndOf, Entry, FoundFrom, LabelAt, NamedAt, Known, Spliced, Added, RingOk, Written, Resolved, Family,
         SuffixOf;
    KnownBasics(b, pos, t, partial, ls);
    WrittenUnfolds(b, pos, ls, t);
    ResolvedUnfolds(b, pos, ls, t);
    WrittenFrame(b, pos, ls, t);
    var w := Written(b, pos, ls, t).value;
    if ls == [] {
      FamilyExtends(b, pos, t, partial, names, w.b, w.pos);
    } else {
      var found := FoundFrom(b, t, ls, 0);
      if found.Some? {
        FoundIsComplete(b, pos, t, partial, ls);
        FoundInFamily(b, pos, t, partial, names, ls);
        FamilyExtends(b, pos, t, partial, names, w.b, w.pos);
      } else {
        var l, tail := ls[0], ls[1..];
        assert ls == [l] + tail && l in ls;
        if tail != [] {
          SuffixTail(names, ls);
        }
        FamilyLabel(b, pos, l, tail, t, partial, names);
        var b1 := Spliced(b, pos, [|l| % 256] + l);
        FamilyWritten(b1, pos + 1 + |l|, tail, Added(t, pos), partial + {pos}, names);
        WrittenReads(b, pos, ls, t, partial);
        EntryOf(w.b[..w.pos], pos, ls);
        FamilyCompleted(w.b, w.pos, w.table, partial, names, pos);
      }
    }
  }
}
