/** Names in general, also with a label that comes twice: the writer may then point back into the name
    it is writing, and what it leaves is no name at all. */
module DnsNameRepeats {
  import opened Bytes
  import opened DnsNames
  import opened Common
  import opened DnsNameWriter
  import opened DnsNameRoundTrip

  // --- labels of the name that is being written ---

  /** Labels stand one after the other from `e` up to `end`. */
  ghost predicate Leads(b: bytes, e: nat, end: nat)
    decreases end - e
  {
    && e < end <= |b| && 1 <= b[e] <= 63 && e + 1 + b[e] <= end
    && (e + 1 + b[e] < end ==> Leads(b, e + 1 + b[e], end))
  }

  /** Every table entry leads to a complete name, but for those of the name being written, which lead
      to the writing position. */
  ghost predicate Threaded(b: bytes, pos: nat, t: Ring, partial: set<nat>)
  {
    && RingOk(t) && pos <= |b|
    && forall k :: 0 <= k < t.count ==> ThreadedEntry(b, pos, t.offset[k], partial)
  }

  ghost predicate ThreadedEntry(b: bytes, pos: nat, e: nat, partial: set<nat>)
    requires pos <= |b|
  {
    e < pos && if e in partial then Leads(b[..pos], e, pos) else Entry(b[..pos], e)
  }

  lemma KnownThreaded(b: bytes, pos: nat, t: Ring, ls: Name)
    requires Known(b, pos, t, {}, ls)
    ensures Threaded(b, pos, t, {})
  {
    hide Entry;
    forall k | 0 <= k < t.count ensures ThreadedEntry(b, pos, t.offset[k], {}) {
      assert KnownEntry(b, pos, t.offset[k], {}, ls);
    }
  }

  lemma {:induction false} LeadsFurther(b: bytes, e: nat, pos: nat, b': bytes, pos': nat)
    requires Leads(b, e, pos) && pos < pos' <= |b'| && |b| == pos && b'[..pos] == b
    requires 1 <= b'[pos] <= 63 && pos + 1 + b'[pos] == pos'
    ensures Leads(b', e, pos')
    decreases pos - e
  {
    assert b'[..pos][e] == b'[e];
    var next := e + 1 + b[e];
    if next < pos {
      LeadsFurther(b, next, pos, b', pos');
    } else {
      assert Leads(b', pos, pos');
    }
  }

  /** One more label of the name is written. */
  lemma ThreadedAdded(b: bytes, pos: nat, t: Ring, partial: set<nat>, l: bytes)
    requires Threaded(b, pos, t, partial) && 1 <= |l| <= 63 && pos + 1 + |l| <= |b|
    ensures var b1 := Spliced(b, pos, [|l| % 256] + l);
      LabelAt(b1[..pos + 1 + |l|], pos, l) && Threaded(b1, pos + 1 + |l|, Added(t, pos), partial + {pos})
  {
    hide Entry;
    var b1, pos1, t1 := Spliced(b, pos, [|l| % 256] + l), pos + 1 + |l|, Added(t, pos);
    var p, p1 := b[..pos], b1[..pos1];
    assert b1[..pos] == p && p1[..pos] == p && p1[pos] == |l| && p1[pos + 1..pos1] == l;
    forall k | 0 <= k < t1.count ensures ThreadedEntry(b1, pos1, t1.offset[k], partial + {pos}) {
      var e := t1.offset[k];
      if e != pos {
        assert e == t.offset[k] && k < t.count && ThreadedEntry(b, pos, e, partial);
        if e in partial {
          LeadsFurther(p, e, pos, p1, pos1);
        } else {
          EntryExtends(b, pos, b1, pos1, e);
        }
      }
    }
  }

  /** Labels that lead to the end of the packet are no name. */
  lemma {:induction false} LeadsNowhere(p: bytes, e: nat, m: Name)
    requires Leads(p, e, |p|)
    ensures !Reads(p, e, m)
    decreases |m|
  {
    var next := e + 1 + p[e];
    assert NextSubstring(p, e) == Some(Substring(e + 1, p[e], false));
    if Reads(p, e, m) && m != [] {
      if next < |p| {
        LeadsNowhere(p, next, m[1..]);
      } else {
        assert NextSubstring(p, next) == None;
      }
    }
  }

  lemma LeadsNoEntry(p: bytes, e: nat)
    requires Leads(p, e, |p|)
    ensures !Entry(p, e)
  {
    forall m ensures !NamedAt(p, e, m) {
      LeadsNowhere(p, e, m);
    }
  }

  // --- a pointer into the own name ---

  /** A pointer at `pos` back to labels that lead to it: reading never comes to an end. */
  ghost predicate Loops(q: bytes, e: nat, pos: nat)
  {
    pos < |q| && Leads(q, e, pos) && NextSubstring(q, pos) == Some(Substring(e + 1, q[e], true))
  }

  lemma {:induction false} LoopReadsNothing(q: bytes, e: nat, pos: nat, at: nat, m: Name)
    requires Loops(q, e, pos) && (at == pos || Leads(q, at, pos))
    ensures !Reads(q, at, m)
    decreases |m|
  {
    hide NextSubstring, Leads;
    var from := if at == pos then e else at;
    LeadsStep(q, from, pos);
    if Reads(q, at, m) && m != [] {
      LoopReadsNothing(q, e, pos, from + 1 + q[from], m[1..]);
    }
  }

  /** One label on the way. */
  lemma LeadsStep(q: bytes, e: nat, end: nat)
    requires Leads(q, e, end)
    ensures e < |q| && q[e] > 0 && NextSubstring(q, e) == Some(Substring(e + 1, q[e], false))
    ensures e + 1 + q[e] == end || Leads(q, e + 1 + q[e], end)
  {
  }

  lemma {:induction false} LeadsInside(p: bytes, e: nat, end: nat, q: bytes)
    requires Leads(p, e, end) && end <= |q| && q[..end] == p[..end]
    ensures Leads(q, e, end)
    decreases end - e
  {
    assert q[e] == q[..end][e] && p[e] == p[..end][e];
    if e + 1 + p[e] < end {
      LeadsInside(p, e + 1 + p[e], end, q);
    }
  }

  /** What a pointer to an own label makes of the packet, whatever follows it. */
  lemma PointerLoops(b: bytes, pos: nat, e: nat, q: bytes)
    requires pos <= |b| && e < pos < MAX_PACKET && Leads(b[..pos], e, pos)
    requires pos + 2 <= |q| && q[..pos] == b[..pos] && q[pos..pos + 2] == PointerBytes(e)
    ensures Loops(q, e, pos)
  {
    hide PointerBytes, NextSubstring;
    LeadsInside(b[..pos], e, pos, q);
    var cut := q[..pos + 2];
    assert cut[pos..] == PointerBytes(e);
    var l := q[e + 1..e + 1 + q[e]];
    assert cut[e + 1..e + 1 + |l|] == l;
    PointerSubstring(cut, pos, e, l);
    NextSubstringExtends(cut, q[pos + 2..], pos);
    assert cut + q[pos + 2..] == q;
  }

  // --- when what is written is a name, and when it is the one ---

  /** If the search finds anything, it is the entry of a complete name. */
  ghost predicate FindsEntries(b: bytes, pos: nat, ls: Name, t: Ring)
    requires pos <= |b| && RingOk(t)
    decreases |ls|
  {
    if ls == [] then true else
      var found := FoundFrom(b, t, ls, 0);
      if found.Some? then Entry(b[..pos], found.value)
      else
        && |b| - pos > |ls[0]| + 1
        && FindsEntries(Spliced(b, pos, [|ls[0]| % 256] + ls[0]), pos + |ls[0]| + 1, ls[1..], Added(t, pos))
  }

  /** A name without labels finds nothing wrong, any other one unfolds. */
  lemma FindsUnfolds(b: bytes, pos: nat, ls: Name, t: Ring)
    requires pos <= |b| && RingOk(t)
    ensures ls == [] ==> FindsEntries(b, pos, ls, t)
    ensures ls != [] ==>
              (FindsEntries(b, pos, ls, t) <==>
                var found := FoundFrom(b, t, ls, 0);
                if found.Some? then Entry(b[..pos], found.value)
                else
                  && |b| - pos > |ls[0]| + 1
                  && FindsEntries(Spliced(b, pos, [|ls[0]| % 256] + ls[0]), pos + |ls[0]| + 1, ls[1..], Added(t, pos)))
  {
    hide Entry, FoundFrom, Spliced, Added;
  }

  /** With complete entries only, what is written reads as the resolved name. */
  lemma {:induction false} FindsEntriesReads(b: bytes, pos: nat, ls: Name, t: Ring)
    requires |b| <= MAX_PACKET && pos <= |b| && RingOk(t) && WellFormed(ls) && FindsEntries(b, pos, ls, t)
    requires Written(b, pos, ls, t).Some?
    ensures var w := Written(b, pos, ls, t).value;
      ReadsTo(w.b[..w.pos], pos, Resolved(b, pos, ls, t), w.pos) && ls <= Resolved(b, pos, ls, t)
    decreases |ls|
  {
    hide Reads, EndOf, Entry, NextSubstring, FoundFrom, LabelAt, NamedAt, Spliced, Added, RingOk, Written, Resolved,
         ReadsTo, FindsEntries;
    WrittenUnfolds(b, pos, ls, t);
    ResolvedUnfolds(b, pos, ls, t);
    FindsUnfolds(b, pos, ls, t);
    WrittenFrame(b, pos, ls, t);
    var w := Written(b, pos, ls, t).value;
    if ls == [] {
      ZeroReadsTo(b, pos);
    } else {
      var found := FoundFrom(b, t, ls, 0);
      if found.Some? {
        FoundPrefix(b, pos, t, ls);
        EntryBelow(b[..pos], found.value);
        PointerReads(b, pos, found.value, NameAt(b[..pos], found.value));
      } else {
        var l, tail := ls[0], ls[1..];
        assert l in ls && ls == [l] + tail;
        var b1, pos1 := Spliced(b, pos, [|l| % 256] + l), pos + 1 + |l|;
        FindsEntriesReads(b1, pos1, tail, Added(t, pos));
        WrittenFrame(b1, pos1, tail, Added(t, pos));
        LabelWritten(b, pos, l);
        LabelExtends(b1, pos1, w.b, w.pos, pos, l);
        LabelReads(w.b[..w.pos], pos, l, Resolved(b1, pos1, tail, Added(t, pos)), w.pos);
      }
    }
  }

  lemma ZeroReadsTo(b: bytes, pos: nat)
    requires pos < |b|
    ensures ReadsTo(Spliced(b, pos, [0])[..pos + 1], pos, [], pos + 1)
  {
    ZeroReads(b, pos);
  }

  lemma LabelWritten(b: bytes, pos: nat, l: bytes)
    requires pos + 1 + |l| <= |b| && 1 <= |l| <= 63
    ensures LabelAt(Spliced(b, pos, [|l| % 256] + l)[..pos + 1 + |l|], pos, l)
  {
    var b1 := Spliced(b, pos, [|l| % 256] + l);
    assert b1[..pos + 1 + |l|][pos + 1..pos + 1 + |l|] == l;
  }

  lemma EntryBelow(p: bytes, e: nat)
    requires Entry(p, e)
    ensures e < |p|
  {
    var m :| NamedAt(p, e, m);
  }

  /** The name of a complete entry that is found starts with the labels sought. */
  lemma FoundPrefix(b: bytes, pos: nat, t: Ring, ls: Name)
    requires pos <= |b| && RingOk(t) && ls != [] && WellFormed(ls) && FoundFrom(b, t, ls, 0).Some?
    requires Entry(b[..pos], FoundFrom(b, t, ls, 0).value)
    ensures ls <= NameAt(b[..pos], FoundFrom(b, t, ls, 0).value)
  {
    hide NextSubstring, GoesOnWith, Reads, FoundFrom, Entry;
    FoundFromMeaning(b, t, ls, 0);
    var e := FoundFrom(b, t, ls, 0).value;
    var m := NameAt(b[..pos], e);
    PrefixSplit(b, pos);
    EntryReads(b[..pos], e);
    ReadsExtends(b[..pos], b[pos..], e, m);
    GoesOnIffPrefix(b, e, m, ls);
  }

  lemma EntryReads(p: bytes, e: nat)
    requires Entry(p, e)
    ensures Reads(p, e, NameAt(p, e))
  {
  }

  /** With an own label found, what is written reads as no name, whatever follows in the packet. */
  lemma {:induction false} OwnLabelReadsNothing(b: bytes, pos: nat, ls: Name, t: Ring, partial: set<nat>, more: bytes,
                                                m: Name)
    requires |b| <= MAX_PACKET && WellFormed(ls) && Threaded(b, pos, t, partial) && !FindsEntries(b, pos, ls, t)
    requires Written(b, pos, ls, t).Some?
    ensures var w := Written(b, pos, ls, t).value; !Reads(w.b[..w.pos] + more, pos, m)
    decreases |ls|
  {
    hide Reads, Entry, NextSubstring, FoundFrom, LabelAt, Spliced, Added, RingOk, Written, PointerBytes, Threaded,
         Leads, FindsEntries, Loops;
    ThreadedBasics(b, pos, t, partial);
    FindsUnfolds(b, pos, ls, t);
    WrittenUnfolds(b, pos, ls, t);
    WrittenFrame(b, pos, ls, t);
    var w := Written(b, pos, ls, t).value;
    var q := w.b[..w.pos] + more;
    var found := FoundFrom(b, t, ls, 0);
    if found.Some? {
      FoundOwn(b, pos, ls, t, partial);
      SplicedIs(b, pos, PointerBytes(found.value));
      assert q[..pos] == w.b[..pos] && q[pos..pos + 2] == w.b[pos..pos + 2];
      PointerLoops(b, pos, found.value, q);
      LoopReadsNothing(q, found.value, pos, pos, m);
    } else {
      var l, tail := ls[0], ls[1..];
      assert l in ls;
      var b1, pos1 := Spliced(b, pos, [|l| % 256] + l), pos + 1 + |l|;
      ThreadedAdded(b, pos, t, partial, l);
      WrittenFrame(b1, pos1, tail, Added(t, pos));
      LabelExtends(b1, pos1, w.b, w.pos, pos, l);
      if m != [] {
        OwnLabelReadsNothing(b1, pos1, tail, Added(t, pos), partial + {pos}, more, m[1..]);
      }
      LabelInFront(w.b[..w.pos], more, pos, l, m);
    }
  }

  lemma ThreadedBasics(b: bytes, pos: nat, t: Ring, partial: set<nat>)
    requires Threaded(b, pos, t, partial)
    ensures RingOk(t) && pos <= |b|
  {
  }

  lemma SplicedIs(b: bytes, pos: nat, s: bytes)
    requires pos + |s| <= |b|
    ensures Spliced(b, pos, s)[..pos] == b[..pos] && Spliced(b, pos, s)[pos..pos + |s|] == s
  {
  }

  /** What is found and is no complete entry belongs to the name itself. */
  lemma FoundOwn(b: bytes, pos: nat, ls: Name, t: Ring, partial: set<nat>)
    requires Threaded(b, pos, t, partial) && ls != [] && FoundFrom(b, t, ls, 0).Some?
    requires !Entry(b[..pos], FoundFrom(b, t, ls, 0).value)
    ensures FoundFrom(b, t, ls, 0).value < pos && Leads(b[..pos], FoundFrom(b, t, ls, 0).value, pos)
  {
    hide Entry, Leads, FoundFrom, GoesOnWith;
    FoundFromMeaning(b, t, ls, 0);
    var k :| 0 <= k < t.count && t.offset[k] == FoundFrom(b, t, ls, 0).value;
    assert ThreadedEntry(b, pos, t.offset[k], partial);
  }

  /** A label in front of what reads as no name reads as no name. */
  lemma LabelInFront(p: bytes, more: bytes, pos: nat, l: bytes, m: Name)
    requires LabelAt(p, pos, l)
    ensures Reads(p + more, pos, m) ==> m != [] && Reads(p + more, pos + 1 + |l|, m[1..])
  {
    var q := p + more;
    assert q[pos + 1..pos + 1 + |l|] == p[pos + 1..pos + 1 + |l|] && q[pos] == p[pos];
    LabelAtNext(q, pos, l);
  }

  /** What is written reads as a name if and only if the search finds no own label; the name then
      starts with the labels written, and ends where the writer stopped. */
  lemma ReadsSomethingIff(b: bytes, pos: nat, ls: Name, t: Ring)
    requires |b| <= MAX_PACKET && WellFormed(ls) && Known(b, pos, t, {}, ls)
    requires Written(b, pos, ls, t).Some?
    ensures var w := Written(b, pos, ls, t).value;
      var p, name := w.b[..w.pos], Resolved(b, pos, ls, t);
      && ((exists m :: Reads(p, pos, m)) <==> FindsEntries(b, pos, ls, t))
      && (FindsEntries(b, pos, ls, t) ==> ReadsTo(p, pos, name, w.pos) && ls <= name)
  {
    hide Reads, FindsEntries, Written, Resolved, Known;
    KnownBasics(b, pos, t, {}, ls);
    KnownThreaded(b, pos, t, ls);
    var w := Written(b, pos, ls, t).value;
    var p := w.b[..w.pos];
    if FindsEntries(b, pos, ls, t) {
      FindsEntriesReads(b, pos, ls, t);
      assert Reads(p, pos, Resolved(b, pos, ls, t));
    } else {
      forall m ensures !Reads(p, pos, m) {
        OwnLabelReadsNothing(b, pos, ls, t, {}, [], m);
        assert p + [] == p;
      }
    }
  }

  lemma {:induction false} NoLongerFinds(b: bytes, pos: nat, ls: Name, t: Ring)
    requires pos <= |b| && RingOk(t) && NoLongerMatch(b, pos, ls, t)
    ensures FindsEntries(b, pos, ls, t)
    decreases |ls|
  {
    hide Entry, FoundFrom, Spliced, Added, RingOk;
    if ls != [] && FoundFrom(b, t, ls, 0).None? {
      NoLongerFinds(Spliced(b, pos, [|ls[0]| % 256] + ls[0]), pos + |ls[0]| + 1, ls[1..], Added(t, pos));
    }
  }

  /** A name comes back as it was written if and only if the first suffix that the table offers belongs
      to the entry of a complete name that is no longer than the suffix. */
  lemma ReadsBackIff(b: bytes, pos: nat, ls: Name, t: Ring)
    requires |b| <= MAX_PACKET && WellFormed(ls) && Known(b, pos, t, {}, ls) && ls != []
    requires Written(b, pos, ls, t).Some?
    ensures var w := Written(b, pos, ls, t).value;
      Reads(w.b[..w.pos], pos, ls) <==> NoLongerMatch(b, pos, ls, t)
  {
    hide Reads, FindsEntries, Written, Resolved, NoLongerMatch, Known;
    KnownBasics(b, pos, t, {}, ls);
    ReadsSomethingIff(b, pos, ls, t);
    ResolvedIff(b, pos, ls, t);
    var w := Written(b, pos, ls, t).value;
    if NoLongerMatch(b, pos, ls, t) {
      NoLongerFinds(b, pos, ls, t);
    } else if Reads(w.b[..w.pos], pos, ls) {
      var p := w.b[..w.pos];
      assert exists m :: Reads(p, pos, m);
      assert ReadsTo(p, pos, Resolved(b, pos, ls, t), w.pos);
      ReadsUnique(w.b[..w.pos], pos, ls, Resolved(b, pos, ls, t));
    }
  }

  // --- a failing family ---

  /** In a new table every name of at most sixteen labels whose last label comes earlier too is written
      as something that reads as no name. */
  lemma LastLabelRepeated(b: bytes, pos: nat, ls: Name, t: Ring, i: nat, more: bytes, m: Name)
    requires |b| <= MAX_PACKET && pos <= |b| && RingOk(t) && t.count == 0
    requires WellFormed(ls) && i < |ls| - 1 && |ls| <= CAPACITY && ls[i] == ls[|ls| - 1]
    requires Written(b, pos, ls, t).Some?
    ensures var w := Written(b, pos, ls, t).value; !Reads(w.b[..w.pos] + more, pos, m)
  {
    assert Threaded(b, pos, t, {});
    assert ls[..|ls| - 1][i] == ls[|ls| - 1];
    RepeatedFindsOwn(b, pos, ls, t, {});
    OwnLabelReadsNothing(b, pos, ls, t, {}, more, m);
  }

  /** The last label has been written already, or will be before it comes to be the last. */
  ghost predicate Comes(b: bytes, pos: nat, ls: Name, t: Ring)
    requires pos <= |b| && RingOk(t) && ls != []
  {
    var l := ls[|ls| - 1];
    l in ls[..|ls| - 1] || exists k :: 0 <= k < t.count && LabelAt(b[..pos], t.offset[k], l)
  }

  lemma {:induction false} RepeatedFindsOwn(b: bytes, pos: nat, ls: Name, t: Ring, partial: set<nat>)
    requires Threaded(b, pos, t, partial) && forall k :: 0 <= k < t.count ==> t.offset[k] in partial
    requires WellFormed(ls) && ls != [] && t.count + |ls| <= CAPACITY && Comes(b, pos, ls, t)
    ensures !FindsEntries(b, pos, ls, t)
    decreases |ls|
  {
    hide Entry, FoundFrom, Threaded, FindsEntries, Comes, Spliced, LabelAt;
    ThreadedBasics(b, pos, t, partial);
    FindsUnfolds(b, pos, ls, t);
    var found := FoundFrom(b, t, ls, 0);
    if found.Some? {
      FoundIsOwn(b, pos, ls, t, partial);
    } else if |b| - pos > |ls[0]| + 1 {
      var l, tail := ls[0], ls[1..];
      assert l in ls;
      if tail == [] {
        assert ls == [l];
        LastComes(b, pos, l, t);
        LastFound(b, pos, l, t);
      } else {
        ThreadedAdded(b, pos, t, partial, l);
        ComesNext(b, pos, ls, t);
        RepeatedFindsOwn(Spliced(b, pos, [|l| % 256] + l), pos + |l| + 1, tail, Added(t, pos), partial + {pos});
      }
    }
  }

  lemma FoundIsOwn(b: bytes, pos: nat, ls: Name, t: Ring, partial: set<nat>)
    requires Threaded(b, pos, t, partial) && forall k :: 0 <= k < t.count ==> t.offset[k] in partial
    requires ls != [] && FoundFrom(b, t, ls, 0).Some?
    ensures !Entry(b[..pos], FoundFrom(b, t, ls, 0).value)
  {
    hide Entry, Leads, FoundFrom, GoesOnWith;
    FoundFromMeaning(b, t, ls, 0);
    var k :| 0 <= k < t.count && t.offset[k] == FoundFrom(b, t, ls, 0).value;
    assert ThreadedEntry(b, pos, t.offset[k], partial);
    LeadsNoEntry(b[..pos], t.offset[k]);
  }

  lemma LastComes(b: bytes, pos: nat, l: bytes, t: Ring)
    requires pos <= |b| && RingOk(t) && Comes(b, pos, [l], t)
    ensures exists k :: 0 <= k < t.count && LabelAt(b[..pos], t.offset[k], l)
  {
    hide LabelAt;
    assert [l][..0] == [];
  }

  /** A label in the table is found when it is sought alone. */
  lemma LastFound(b: bytes, pos: nat, l: bytes, t: Ring)
    requires pos <= |b| && RingOk(t) && exists k :: 0 <= k < t.count && LabelAt(b[..pos], t.offset[k], l)
    ensures FoundFrom(b, t, [l], 0).Some?
  {
    hide FoundFrom, GoesOnWith;
    var k :| 0 <= k < t.count && LabelAt(b[..pos], t.offset[k], l);
    FoundFromMeaning(b, t, [l], 0);
    GoesOnWithLabel(b, pos, t.offset[k], l);
  }

  lemma GoesOnWithLabel(b: bytes, pos: nat, e: nat, l: bytes)
    requires pos <= |b| && LabelAt(b[..pos], e, l)
    ensures e < |b| && GoesOnWith(b, e, [l])
  {
    assert b[..pos][e + 1..e + 1 + |l|] == b[e + 1..e + 1 + |l|];
    LabelAtNext(b, e, l);
    assert [l][1..] == [];
  }

  lemma ComesNext(b: bytes, pos: nat, ls: Name, t: Ring)
    requires pos <= |b| && RingOk(t) && |ls| > 1 && Comes(b, pos, ls, t) && t.count < CAPACITY
    requires 1 <= |ls[0]| <= 63 && pos + 1 + |ls[0]| <= |b|
    ensures Comes(Spliced(b, pos, [|ls[0]| % 256] + ls[0]), pos + 1 + |ls[0]|, ls[1..], Added(t, pos))
  {
    hide LabelAt;
    var last, l, tail := ls[|ls| - 1], ls[0], ls[1..];
    var b1, pos1, t1 := Spliced(b, pos, [|l| % 256] + l), pos + 1 + |l|, Added(t, pos);
    assert b1[..pos] == b[..pos];
    LabelWritten(b, pos, l);
    assert ls[..|ls| - 1] == [l] + tail[..|tail| - 1];
    if last !in tail[..|tail| - 1] {
      if last == l {
        assert t1.offset[t.count] == pos;
      } else {
        var k :| 0 <= k < t.count && LabelAt(b[..pos], t.offset[k], last);
        LabelExtends(b, pos, b1, pos1, t.offset[k], last);
        assert t1.offset[k] == t.offset[k];
      }
    }
  }
}
