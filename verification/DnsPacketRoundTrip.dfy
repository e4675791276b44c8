/** A multicast answer that was built parses back: as many records as the header promises,
    in order, with the written names, types, classes, times to live and data. */
module DnsPacketRoundTrip {
  import opened Bytes
  import opened DnsNames
  import opened Common
  import opened DnsNameWriter
  import opened DnsNameRoundTrip
  import opened DnsPieces
  import opened DnsPackets
  import opened DnsPacketReader

  // --- filling in a length field later is the same as knowing it beforehand ---

  /** The packets differ at most in the two bytes at `q`. */
  ghost predicate DifferAt(b: bytes, b': bytes, q: nat)
  {
    |b| == |b'| && q + 2 <= |b| && b[..q] == b'[..q] && b[q + 2..] == b'[q + 2..]
  }

  /** Table entries while the data behind the length field at `q` is written: complete
      names lie below `q`, partial ones behind it. */
  ghost predicate SplitEntry(b: bytes, b': bytes, q: nat, pos: nat, e: nat, partial: set<nat>, ls: Name)
    requires q <= |b| && pos <= |b| == |b'|
  {
    if e in partial then exists l :: LabelAt(b[..pos], e, l) && LabelAt(b'[..pos], e, l) && l !in ls
    else e < q && Entry(b[..q], e)
  }

  ghost predicate SplitKnown(b: bytes, b': bytes, q: nat, pos: nat, t: Ring, partial: set<nat>, ls: Name)
  {
    && RingOk(t) && DifferAt(b, b', q) && q + 2 <= pos <= |b|
    && forall k :: 0 <= k < t.count ==> SplitEntry(b, b', q, pos, t.offset[k], partial, ls)
  }

  lemma SameSearch(b: bytes, b': bytes, q: nat, pos: nat, e: nat, partial: set<nat>, ls: Name)
    requires DifferAt(b, b', q) && q + 2 <= pos <= |b| && ls != [] && WellFormed(ls)
    requires SplitEntry(b, b', q, pos, e, partial, ls)
    ensures e < |b| && (GoesOnWith(b, e, ls) <==> GoesOnWith(b', e, ls))
  {
    hide GoesOnWith, Reads;
    if e in partial {
      var l :| LabelAt(b[..pos], e, l) && LabelAt(b'[..pos], e, l) && l !in ls;
      PartialNotFound(b, pos, e, l, ls);
      PartialNotFound(b', pos, e, l, ls);
    } else {
      var m := NameAt(b[..q], e);
      PrefixSplit(b, q);
      PrefixSplit(b', q);
      ReadsExtends(b[..q], b[q..], e, m);
      ReadsExtends(b'[..q], b'[q..], e, m);
      GoesOnIffPrefix(b, e, m, ls);
      GoesOnIffPrefix(b', e, m, ls);
    }
  }

  lemma {:induction false} SameFound(b: bytes, b': bytes, q: nat, pos: nat, t: Ring, partial: set<nat>, ls: Name,
                                     i: nat)
    requires SplitKnown(b, b', q, pos, t, partial, ls) && ls != [] && WellFormed(ls)
    ensures FoundFrom(b, t, ls, i) == FoundFrom(b', t, ls, i)
    decreases t.count - i
  {
    hide SplitEntry, GoesOnWith;
    if i < t.count {
      SameSearch(b, b', q, pos, t.offset[i], partial, ls);
      SameFound(b, b', q, pos, t, partial, ls, i + 1);
    }
  }

  /** Two writers that went the same way, except for the two bytes at `q`. */
  ghost predicate SameOutcome(r: Option<Progress>, r': Option<Progress>, q: nat)
  {
    && (r.None? <==> r'.None?)
    && (r.Some? ==> && r.value.pos == r'.value.pos && r.value.table == r'.value.table
                    && DifferAt(r.value.b, r'.value.b, q))
  }

  lemma SplicedDiffer(b: bytes, b': bytes, q: nat, pos: nat, s: bytes)
    requires DifferAt(b, b', q) && q + 2 <= pos && pos + |s| <= |b|
    ensures DifferAt(Spliced(b, pos, s), Spliced(b', pos, s), q)
  {
    var c, c' := Spliced(b, pos, s), Spliced(b', pos, s);
    assert c[..q] == b[..q] && c'[..q] == b'[..q];
    assert forall i :: q + 2 <= i < |c| ==> b[i] == b[q + 2..][i - q - 2] == b'[q + 2..][i - q - 2] == b'[i];
    assert forall i :: q + 2 <= i < |c| ==> c[i] == c'[i];
  }

  lemma SplitLabel(b: bytes, b': bytes, q: nat, pos: nat, t: Ring, partial: set<nat>, l: bytes, tail: Name)
    requires SplitKnown(b, b', q, pos, t, partial, [l] + tail) && l !in tail && 1 <= |l| <= 63 && pos + 1 + |l| <= |b|
    ensures var s := [|l| % 256] + l;
            SplitKnown(Spliced(b, pos, s), Spliced(b', pos, s), q, pos + 1 + |l|, Added(t, pos), partial + {pos}, tail)
  {
    hide Entry;
    var s := [|l| % 256] + l;
    var c, c' := Spliced(b, pos, s), Spliced(b', pos, s);
    var pos1 := pos + 1 + |l|;
    SplicedDiffer(b, b', q, pos, s);
    assert c[..pos] == b[..pos] && c'[..pos] == b'[..pos] && c[..q] == b[..q];
    assert c[..pos1][pos + 1..pos1] == l && c'[..pos1][pos + 1..pos1] == l;
    var t1 := Added(t, pos);
    forall k | 0 <= k < t1.count ensures SplitEntry(c, c', q, pos1, t1.offset[k], partial + {pos}, tail) {
      var e := t1.offset[k];
      if e == pos {
        assert LabelAt(c[..pos1], e, l) && LabelAt(c'[..pos1], e, l);
      } else {
        assert e == t.offset[k] && k < t.count;
        assert SplitEntry(b, b', q, pos, e, partial, [l] + tail);
        if e in partial {
          var x :| LabelAt(b[..pos], e, x) && LabelAt(b'[..pos], e, x) && x !in [l] + tail;
          LabelExtends(b, pos, c, pos1, e, x);
          LabelExtends(b', pos, c', pos1, e, x);
        }
      }
    }
  }

  lemma {:induction false} SameWritten(b: bytes, b': bytes, q: nat, pos: nat, ls: Name, t: Ring, partial: set<nat>)
    requires SplitKnown(b, b', q, pos, t, partial, ls) && WellFormed(ls) && Distinct(ls)
    ensures SameOutcome(Written(b, pos, ls, t), Written(b', pos, ls, t), q)
    decreases |ls|
  {
    hide SplitEntry, FoundFrom, Written, Added, Spliced;
    WrittenUnfolds(b, pos, ls, t);
    WrittenUnfolds(b', pos, ls, t);
    if ls == [] {
      if pos < |b| {
        SplicedDiffer(b, b', q, pos, [0]);
      }
    } else {
      SameFound(b, b', q, pos, t, partial, ls, 0);
      var found := FoundFrom(b, t, ls, 0);
      if found.Some? {
        if |b| - pos >= 2 {
          SplicedDiffer(b, b', q, pos, PointerBytes(found.value));
        }
      } else if |b| - pos > |ls[0]| + 1 {
        var l, tail := ls[0], ls[1..];
        assert ls == [l] + tail && l in ls;
        SplitLabel(b, b', q, pos, t, partial, l, tail);
        var s := [|l| % 256] + l;
        SameWritten(Spliced(b, pos, s), Spliced(b', pos, s), q, pos + 1 + |l|, tail, Added(t, pos), partial + {pos});
      }
    }
  }

  /** Record data is raw bytes with at most one name, which comes last. */
  ghost predicate NameLast(ps: seq<Piece>)
  {
    forall i :: 0 <= i < |ps| - 1 ==> ps[i].Raw?
  }

  lemma SplitRaw(b: bytes, b': bytes, q: nat, pos: nat, t: Ring, s: bytes)
    requires SplitKnown(b, b', q, pos, t, {}, []) && pos + |s| <= |b|
    ensures SplitKnown(Spliced(b, pos, s), Spliced(b', pos, s), q, pos + |s|, t, {}, [])
  {
    hide Entry, LabelAt;
    var c, c' := Spliced(b, pos, s), Spliced(b', pos, s);
    SplicedDiffer(b, b', q, pos, s);
    assert c[..q] == b[..q];
    forall k | 0 <= k < t.count ensures SplitEntry(c, c', q, pos + |s|, t.offset[k], {}, []) {
      assert SplitEntry(b, b', q, pos, t.offset[k], {}, []);
    }
  }

  lemma SplitForAny(b: bytes, b': bytes, q: nat, pos: nat, t: Ring, ls: Name)
    requires SplitKnown(b, b', q, pos, t, {}, [])
    ensures SplitKnown(b, b', q, pos, t, {}, ls)
  {
    hide Entry, LabelAt;
    forall k | 0 <= k < t.count ensures SplitEntry(b, b', q, pos, t.offset[k], {}, ls) {
      assert SplitEntry(b, b', q, pos, t.offset[k], {}, []);
    }
  }

  lemma {:induction false} SameData(b: bytes, b': bytes, q: nat, pos: nat, ps: seq<Piece>, t: Ring, names: set<Name>)
    requires SplitKnown(b, b', q, pos, t, {}, []) && NameLast(ps) && AllUsable(ps, names)
    ensures SameOutcome(PiecesWritten(b, pos, ps, t), PiecesWritten(b', pos, ps, t), q)
    decreases |ps|
  {
    hide SplitEntry, Written, Spliced, RingOk;
    if ps != [] {
      assert ps[0] in ps;
      match ps[0]
      case Raw(s) =>
        if |b| - pos >= |s| {
          SplitRaw(b, b', q, pos, t, s);
          SameData(Spliced(b, pos, s), Spliced(b', pos, s), q, pos + |s|, ps[1..], t, names);
        }
      case Named(name) =>
        assert ps[1..] == [];
        SplitForAny(b, b', q, pos, t, name);
        SameWritten(b, b', q, pos, name, t, {});
    }
  }

  // --- one record ---

  /** What the packet writer needs to know of a record's names. */
  ghost predicate UsableItem(r: Record, data: seq<Piece>, names: set<Name>)
  {
    Usable(NameOf(r.name), names) && NameLast(data) && AllUsable(data, names)
  }

  lemma HeadsDiffer(b: bytes, pos: nat, r: Record, length: nat, t: Ring, names: set<Name>)
    requires Consistent(b, pos, t, names) && Usable(NameOf(r.name), names)
    requires PiecesWritten(b, pos, HeadPieces(r, 0), t).Some?
    ensures var h := PiecesWritten(b, pos, HeadPieces(r, 0), t).value;
            var h' := PiecesWritten(b, pos, HeadPieces(r, length), t);
            && h'.Some? && h'.value.pos == h.pos && h'.value.table == h.table && h.pos >= 2
            && SplitKnown(h.b, h'.value.b, h.pos - 2, h.pos, h.table, {}, [])
            && h'.value.b[h.pos - 2..h.pos] == U16(length)
  {
    hide Known, Family, SuffixFree, Written, RingOk, U16, Fixed, PiecesWritten, SplitKnown, PiecesRead;
    ConsistentFits(b, pos, t, names);
    TwoPieces(b, pos, Named(NameOf(r.name)), Raw(Fixed(r, 0)), t);
    TwoPieces(b, pos, Named(NameOf(r.name)), Raw(Fixed(r, length)), t);
    assert AllUsable([Named(NameOf(r.name))], names);
    PieceReads(b, pos, Named(NameOf(r.name)), t, names);
    var w := PieceWritten(b, pos, Named(NameOf(r.name)), t).value;
    FixedDiffers(w, r, length, names);
  }

  lemma FixedDiffers(w: Progress, r: Record, length: nat, names: set<Name>)
    requires w.pos <= |w.b| && Known(w.b, w.pos, w.table, {}, []) && w.pos + 10 <= |w.b|
    ensures var c, c' := Spliced(w.b, w.pos, Fixed(r, 0)), Spliced(w.b, w.pos, Fixed(r, length));
            && SplitKnown(c, c', w.pos + 8, w.pos + 10, w.table, {}, [])
            && c'[w.pos + 8..w.pos + 10] == U16(length)
  {
    hide Entry, LabelAt, U16, U32, TypeOf;
    var s, s' := Fixed(r, 0), Fixed(r, length);
    var c, c' := Spliced(w.b, w.pos, s), Spliced(w.b, w.pos, s');
    var q := w.pos + 8;
    assert s[..8] == s'[..8] && s'[8..] == U16(length);
    assert c[..q] == w.b[..w.pos] + s[..8] && c'[..q] == w.b[..w.pos] + s'[..8];
    assert c[q + 2..] == w.b[q + 2..] && c'[q + 2..] == w.b[q + 2..];
    assert c'[q..q + 2] == s'[8..];
    assert c[..q][..w.pos] == w.b[..w.pos];
    forall k | 0 <= k < w.table.count ensures SplitEntry(c, c', q, q + 2, w.table.offset[k], {}, []) {
      assert KnownEntry(w.b, w.pos, w.table.offset[k], {}, []);
      EntryExtends(w.b, w.pos, c, q, w.table.offset[k]);
    }
  }

  /** Patching the length field gives the packet that writing the right length at once
      would have given. */
  lemma RecordIsPieces(b: bytes, pos: nat, r: Record, data: seq<Piece>, t: Ring, names: set<Name>) returns (length: nat)
    requires Consistent(b, pos, t, names) && UsableItem(r, data, names)
    requires RecordWritten(b, pos, r, data, t).Some?
    ensures var w := RecordWritten(b, pos, r, data, t).value;
            var head := PiecesWritten(b, pos, HeadPieces(r, length), t);
            && head.Some? && pos + 11 <= head.value.pos <= w.pos && length == w.pos - head.value.pos
            && PiecesWritten(b, pos, HeadPieces(r, length) + data, t) == Some(w)
  {
    hide Consistent, PiecesWritten, HeadPieces, U16, Spliced, Usable, NameLast, AllUsable;
    ConsistentFits(b, pos, t, names);
    HeadGrows(b, pos, r, 0, t);
    var h := PiecesWritten(b, pos, HeadPieces(r, 0), t).value;
    var w0 := PiecesWritten(h.b, h.pos, data, h.table).value;
    length := w0.pos - h.pos;
    HeadsDiffer(b, pos, r, length, t, names);
    var h' := PiecesWritten(b, pos, HeadPieces(r, length), t).value;
    SameData(h.b, h'.b, h.pos - 2, h.pos, data, h.table, names);
    var w' := PiecesWritten(h'.b, h'.pos, data, h'.table).value;
    PiecesFrame(h'.b, h'.pos, data, h'.table);
    PatchedIs(w0, w', h.pos, h'.b, length);
    PiecesAppend(b, pos, HeadPieces(r, length), data, t);
  }

  lemma PatchedIs(w: Progress, w': Progress, start: nat, h': bytes, length: nat)
    requires 2 <= start <= w.pos <= |w.b| && w.pos == w'.pos && w.table == w'.table && length == w.pos - start
    requires DifferAt(w.b, w'.b, start - 2) && start <= |h'| && w'.b[..start] == h'[..start]
    requires h'[start - 2..start] == U16(length)
    ensures Patched(w, start) == w'
  {
    hide U16;
    var q := start - 2;
    assert w'.b[q..start] == w'.b[..start][q..] == h'[..start][q..] == U16(length);
    assert w'.b == w'.b[..q] + w'.b[q..start] + w'.b[start..];
  }

  // --- what the parser reports of a record ---

  /** Raw pieces one after the other. */
  ghost function RawBytes(ps: seq<Piece>): (s: bytes)
  {
    if ps == [] then [] else (if ps[0].Raw? then ps[0].s else []) + RawBytes(ps[1..])
  }

  /** The data of a reported record. */
  ghost function Span(p: bytes, rep: Report): (s: bytes)
  {
    if rep.recordOffset + rep.recordLength <= |p| then p[rep.recordOffset..rep.recordOffset + rep.recordLength] else []
  }

  ghost predicate ReportedData(p: bytes, item: Item, rep: Report)
  {
    match item.rec.data
    case Ptr(n) => forall capacity :: ParsedPtr(p, rep, capacity) == Cut(Dotted(NameOf(n)), capacity)
    case Srv(priority, weight, port, n) =>
      forall capacity :: ParsedSrv(p, rep, capacity)
        == Service(priority, weight, port, Cut(Dotted(NameOf(n)), capacity))
    case A(a) => ParsedAddress(p, rep, 4) == Some(a)
    case Aaaa(a) => ParsedAddress(p, rep, 16) == Some(a)
    case Txt(_, _) => Span(p, rep) == RawBytes(item.data)
    case Other(_) => rep.recordLength == 0
  }

  /** The report names the record's owner, type, class and time to live, and its data span
      is what its length field says. */
  ghost predicate Reported(p: bytes, item: Item, rep: Report)
  {
    var r := item.rec;
    && (forall capacity :: TextAt(p, rep.nameOffset, capacity) == Cut(Dotted(NameOf(r.name)), capacity))
    && rep.rtype == TypeOf(r.data) && rep.rclass == r.rclass && rep.ttl == r.ttl
    && ReportedData(p, item, rep)
  }

  lemma N16U16(p: bytes, at: nat, v: uint16)
    requires at + 2 <= |p| && p[at..at + 2] == U16(v)
    ensures N16(p, at) == v
  {
    assert p[at] == p[at..at + 2][0] && p[at + 1] == p[at..at + 2][1];
  }

  lemma SubSlice(p: bytes, at: nat, n: nat, i: nat, j: nat)
    requires i <= j <= n && at + n <= |p|
    ensures p[at..at + n][i..j] == p[at + i..at + j]
  {
    var s := p[at..at + n];
    forall k | 0 <= k < j - i ensures s[i..j][k] == p[at + i..at + j][k] {
      assert s[i..j][k] == s[i + k] == p[at + (i + k)];
    }
  }

  lemma FixedFields(p: bytes, at: nat, r: Record, length: uint16)
    requires at + 10 <= |p| && p[at..at + 10] == Fixed(r, length)
    ensures N16(p, at) == TypeOf(r.data) && N16(p, at + 2) == r.rclass && N32(p, at + 4) == r.ttl
          && N16(p, at + 8) == length
  {
    hide U16, N16;
    var s := p[at..at + 10];
    SubSlice(p, at, 10, 2, 4);
    SubSlice(p, at, 10, 4, 6);
    SubSlice(p, at, 10, 6, 8);
    SubSlice(p, at, 10, 8, 10);
    assert s[0..2] == U16(TypeOf(r.data)) && s[2..4] == U16(r.rclass);
    assert s[4..6] == U16(r.ttl / 0x1_0000) && s[6..8] == U16(r.ttl % 0x1_0000) && s[8..10] == U16(length);
    assert p[at..at + 2] == s[0..2];
    N16U16(p, at, TypeOf(r.data));
    N16U16(p, at + 2, r.rclass);
    N16U16(p, at + 4, r.ttl / 0x1_0000);
    N16U16(p, at + 6, r.ttl % 0x1_0000);
    N16U16(p, at + 8, length);
  }

  lemma TextReads(p: bytes, pos: nat, ls: Name)
    requires Reads(p, pos, ls) && |ls| <= MAX_SUBSTRINGS
    ensures forall capacity :: TextAt(p, pos, capacity) == Cut(Dotted(ls), capacity)
  {
    forall capacity ensures TextAt(p, pos, capacity) == Cut(Dotted(ls), capacity) {
      ExtractReads(p, pos, ls, None, [], capacity, 0);
      assert [] + Dotted(ls) == Dotted(ls);
    }
  }

  /** The head of a record, from name to length field. */
  lemma HeadReports(p: bytes, pos: nat, r: Record, length: uint16, mid: nat)
    requires PiecesRead(p, pos, HeadPieces(r, length), mid) && |NameOf(r.name)| <= MAX_SUBSTRINGS
    ensures ReportAt(p, pos).Some?
    ensures var rep := ReportAt(p, pos).value;
            && (forall capacity :: TextAt(p, rep.nameOffset, capacity) == Cut(Dotted(NameOf(r.name)), capacity))
            && rep.rtype == TypeOf(r.data) && rep.rclass == r.rclass && rep.ttl == r.ttl
            && rep.recordOffset == mid && rep.recordLength == length
  {
    hide Reads, EndOf, SkipFrom, Fixed, N16, N32, TextAt, TypeOf, NameOf;
    var ps := HeadPieces(r, length);
    assert ps[1..] == [Raw(Fixed(r, length))] && ps[1..][1..] == [];
    var name := NameOf(r.name);
    var at := EndOf(p, pos, name);
    assert PiecesRead(p, at, [Raw(Fixed(r, length))], mid);
    assert PiecesRead(p, at + 10, [], mid);
    SkipReads(p, pos, name, 0);
    TextReads(p, pos, name);
    FixedFields(p, at, r, length);
  }

  /** The data of a record, behind its head. */
  lemma DataReports(p: bytes, item: Item, rep: Report, end: nat)
    requires PiecesRead(p, rep.recordOffset, DataPieces(item.rec.data), end) && end <= |p|
    requires rep.recordOffset <= end && rep.recordLength == end - rep.recordOffset
    requires match item.rec.data
             case Ptr(n) => NameOf(n) != [] && |NameOf(n)| <= MAX_SUBSTRINGS
             case Srv(_, _, _, n) => NameOf(n) != [] && |NameOf(n)| <= MAX_SUBSTRINGS
             case A(a) => |a| == 4
             case Aaaa(a) => |a| == 16
             case Txt(_, _) => false
             case Other(_) => true
    ensures ReportedData(p, item, rep)
  {
    hide Reads, EndOf, N16, TextAt, NameOf, U16;
    var at := rep.recordOffset;
    match item.rec.data
    case Ptr(n) =>
      assert [Named(NameOf(n))][1..] == [];
      NameTakesTwo(p, at, NameOf(n));
      TextReads(p, at, NameOf(n));
    case Srv(priority, weight, port, n) =>
      var s := U16(priority) + U16(weight) + U16(port);
      var ps := [Raw(s), Named(NameOf(n))];
      assert ps[1..] == [Named(NameOf(n))] && ps[1..][1..] == [];
      assert p[at..at + 6] == s && PiecesRead(p, at + 6, [Named(NameOf(n))], end);
      assert s[0..2] == U16(priority) && s[2..4] == U16(weight) && s[4..6] == U16(port);
      NameTakesTwo(p, at + 6, NameOf(n));
      TextReads(p, at + 6, NameOf(n));
      SubSlice(p, at, 6, 0, 2);
      SubSlice(p, at, 6, 2, 4);
      SubSlice(p, at, 6, 4, 6);
      N16U16(p, at, priority);
      N16U16(p, at + 2, weight);
      N16U16(p, at + 4, port);
      NamedLast(p, at + 6, NameOf(n), end);
      assert rep.recordLength >= 8;
      forall capacity
        ensures ParsedSrv(p, rep, capacity) == Service(priority, weight, port, Cut(Dotted(NameOf(n)), capacity))
      {
      }
    case A(a) =>
      assert [Raw(a)][1..] == [];
    case Aaaa(a) =>
      assert [Raw(a)][1..] == [];
    case Other(_) =>
  }

  /** A name as the last piece. */
  lemma NamedLast(p: bytes, pos: nat, ls: Name, end: nat)
    requires PiecesRead(p, pos, [Named(ls)], end)
    ensures Reads(p, pos, ls) && EndOf(p, pos, ls) == end
  {
    hide Reads, EndOf;
    assert [Named(ls)][1..] == [];
    assert PiecesRead(p, EndOf(p, pos, ls), [], end);
  }

  /** A name with labels takes at least the two bytes of a pointer. */
  lemma {:induction false} NameTakesTwo(p: bytes, pos: nat, ls: Name)
    requires Reads(p, pos, ls)
    ensures EndOf(p, pos, ls) >= pos + if ls == [] then 1 else 2
    decreases |ls|
  {
    if ls != [] {
      var s := NextSubstring(p, pos).value;
      NameTakesTwo(p, s.offset + s.length, ls[1..]);
    }
  }

  // --- lists of records ---

  /** A record as it is written: TXT records of a list are one item under the first one's
      name, with all their strings as data. */
  datatype Item = Item(rec: Record, data: seq<Piece>)

  ghost function PlainItems(rs: seq<Record>, rclass: uint16, ttl: uint32): (items: seq<Item>)
    requires rclass == CLASS_IN || rclass == CLASS_IN + CACHE_FLUSH
  {
    if rs == [] then []
    else if rs[0].data.Txt? then PlainItems(rs[1..], rclass, ttl)
    else [Item(Updated(rs[0], rclass, ttl), DataPieces(rs[0].data))] + PlainItems(rs[1..], rclass, ttl)
  }

  ghost function TxtItems(rs: seq<Record>, rclass: uint16, ttl: uint32): (items: seq<Item>)
    requires rclass == CLASS_IN || rclass == CLASS_IN + CACHE_FLUSH
  {
    if TxtsOf(rs) == [] then [] else [Item(Updated(TxtsOf(rs)[0], rclass, ttl), TxtPieces(TxtsOf(rs)))]
  }

  ghost function ListItems(rs: seq<Record>, rclass: uint16, ttl: uint32): (items: seq<Item>)
    requires rclass == CLASS_IN || rclass == CLASS_IN + CACHE_FLUSH
  {
    PlainItems(rs, rclass, ttl) + TxtItems(rs, rclass, ttl)
  }

  ghost function ItemsWritten(b: bytes, pos: nat, items: seq<Item>, t: Ring): (r: Option<Progress>)
    requires pos <= |b| && RingOk(t)
    ensures r.Some? ==> |r.value.b| == |b| && r.value.pos <= |b| && RingOk(r.value.table)
    decreases |items|
  {
    if items == [] then Some(Progress(b, pos, t)) else
      match RecordWritten(b, pos, items[0].rec, items[0].data, t)
      case None => None
      case Some(w) => ItemsWritten(w.b, w.pos, items[1..], w.table)
  }

  lemma {:induction false} ItemsAppend(b: bytes, pos: nat, x: seq<Item>, y: seq<Item>, t: Ring)
    requires pos <= |b| && RingOk(t)
    ensures ItemsWritten(b, pos, x + y, t)
         == match ItemsWritten(b, pos, x, t) { case None => None case Some(w) => ItemsWritten(w.b, w.pos, y, w.table) }
    decreases |x|
  {
    hide RecordWritten, RingOk;
    if x == [] {
      assert x + y == y;
    } else {
      assert (x + y)[0] == x[0] && (x + y)[1..] == x[1..] + y;
      var w := RecordWritten(b, pos, x[0].rec, x[0].data, t);
      if w.Some? {
        ItemsAppend(w.value.b, w.value.pos, x[1..], y, w.value.table);
      }
    }
  }

  lemma {:induction false} PlainIsItems(b: bytes, pos: nat, rs: seq<Record>, rclass: uint16, ttl: uint32, t: Ring)
    requires pos <= |b| && RingOk(t)
    requires rclass == CLASS_IN || rclass == CLASS_IN + CACHE_FLUSH
    ensures PlainWritten(b, pos, rs, rclass, ttl, t) == ItemsWritten(b, pos, PlainItems(rs, rclass, ttl), t)
    decreases |rs|
  {
    hide RecordWritten, RingOk, Updated, DataPieces;
    if rs != [] {
      if rs[0].data.Txt? {
        PlainIsItems(b, pos, rs[1..], rclass, ttl, t);
      } else {
        var item := Item(Updated(rs[0], rclass, ttl), DataPieces(rs[0].data));
        var items := PlainItems(rs, rclass, ttl);
        assert items[0] == item && items[1..] == PlainItems(rs[1..], rclass, ttl);
        var w := RecordWritten(b, pos, item.rec, item.data, t);
        if w.Some? {
          PlainIsItems(w.value.b, w.value.pos, rs[1..], rclass, ttl, w.value.table);
        }
      }
    }
  }

  lemma ListIsItems(b: bytes, pos: nat, rs: seq<Record>, rclass: uint16, ttl: uint32, t: Ring)
    requires pos <= |b| && RingOk(t)
    requires rclass == CLASS_IN || rclass == CLASS_IN + CACHE_FLUSH
    requires ListWritten(b, pos, rs, rclass, ttl, t).Some?
    ensures ListWritten(b, pos, rs, rclass, ttl, t) == ItemsWritten(b, pos, ListItems(rs, rclass, ttl), t)
  {
    hide RecordWritten, RingOk, PlainWritten, PlainItems, TxtPieces, TxtsFit;
    PlainIsItems(b, pos, rs, rclass, ttl, t);
    ItemsAppend(b, pos, PlainItems(rs, rclass, ttl), TxtItems(rs, rclass, ttl), t);
    var items := TxtItems(rs, rclass, ttl);
    assert items != [] ==> items[1..] == [];
  }

  lemma {:induction false} PlainItemsCount(rs: seq<Record>, rclass: uint16, ttl: uint32)
    requires rclass == CLASS_IN || rclass == CLASS_IN + CACHE_FLUSH
    ensures |PlainItems(rs, rclass, ttl)| == |rs| - |TxtsOf(rs)|
  {
    if rs != [] {
      PlainItemsCount(rs[1..], rclass, ttl);
    }
  }

  /** The header's count of a list is the number of its items, as long as 16 bits hold it. */
  lemma CountIsItems(rs: seq<Record>, rclass: uint16, ttl: uint32)
    requires rclass == CLASS_IN || rclass == CLASS_IN + CACHE_FLUSH
    ensures RecordCount(rs) == |ListItems(rs, rclass, ttl)| % 0x1_0000
  {
    PlainItemsCount(rs, rclass, ttl);
  }

  // --- reading the items back ---

  ghost predicate UsableItems(items: seq<Item>, names: set<Name>)
  {
    forall i :: 0 <= i < |items| ==> UsableItem(items[i].rec, items[i].data, names)
  }

  /** The packet holds the items one after the other, each with its data length in its
      length field. */
  ghost predicate ItemsRead(p: bytes, pos: nat, items: seq<Item>, end: nat)
    decreases |items|
  {
    if items == [] then pos == end else
      exists mid, next :: ItemRead(p, pos, items[0], mid, next) && ItemsRead(p, next, items[1..], end)
  }

  ghost predicate ItemRead(p: bytes, pos: nat, item: Item, mid: nat, next: nat)
  {
    && pos + 11 <= mid <= next <= |p| && next - mid < 0x1_0000
    && PiecesRead(p, pos, HeadPieces(item.rec, next - mid), mid)
    && PiecesRead(p, mid, item.data, next)
  }

  lemma {:induction false} PiecesReadSplit(p: bytes, pos: nat, x: seq<Piece>, y: seq<Piece>, end: nat)
    returns (mid: nat)
    requires PiecesRead(p, pos, x + y, end)
    ensures PiecesRead(p, pos, x, mid) && PiecesRead(p, mid, y, end)
    decreases |x|
  {
    hide Reads, EndOf;
    if x == [] {
      assert x + y == y;
      mid := pos;
    } else {
      assert (x + y)[0] == x[0] && (x + y)[1..] == x[1..] + y;
      match x[0]
      case Raw(s) => mid := PiecesReadSplit(p, pos + |s|, x[1..], y, end);
      case Named(name) => mid := PiecesReadSplit(p, EndOf(p, pos, name), x[1..], y, end);
    }
  }

  lemma {:induction false} PiecesReadUnique(p: bytes, pos: nat, ps: seq<Piece>, end: nat, end': nat)
    requires PiecesRead(p, pos, ps, end) && PiecesRead(p, pos, ps, end')
    ensures end == end'
    decreases |ps|
  {
    hide Reads, EndOf;
    if ps != [] {
      match ps[0]
      case Raw(s) => PiecesReadUnique(p, pos + |s|, ps[1..], end, end');
      case Named(name) => PiecesReadUnique(p, EndOf(p, pos, name), ps[1..], end, end');
    }
  }

  /** Every record of the list is found in the finished packet. */
  lemma {:induction false} ItemsReadBack(b: bytes, pos: nat, items: seq<Item>, t: Ring, names: set<Name>)
    requires Consistent(b, pos, t, names) && UsableItems(items, names)
    requires ItemsWritten(b, pos, items, t).Some?
    ensures var w := ItemsWritten(b, pos, items, t).value;
            && Consistent(w.b, w.pos, w.table, names) && ItemsRead(w.b[..w.pos], pos, items, w.pos)
            && pos + 11 * |items| <= w.pos && w.b[..pos] == b[..pos]
    decreases |items|
  {
    hide Consistent, RecordWritten, RingOk, PiecesRead, UsableItem, PiecesWritten, HeadPieces;
    ConsistentFits(b, pos, t, names);
    if items != [] {
      var r, data := items[0].rec, items[0].data;
      var w1 := RecordWritten(b, pos, r, data, t).value;
      var mid := RecordReadsBack(b, pos, items[0], t, names);
      ConsistentFits(w1.b, w1.pos, w1.table, names);
      ItemsReadBack(w1.b, w1.pos, items[1..], w1.table, names);
      var w := ItemsWritten(b, pos, items, t).value;
      assert w.b[..w.pos][..w1.pos] == w1.b[..w1.pos];
      assert w.b[..w.pos] == w1.b[..w1.pos] + w.b[w1.pos..w.pos];
      ItemReadExtends(w1.b[..w1.pos], w.b[w1.pos..w.pos], pos, items[0], mid, w1.pos);
      assert w.b[..pos] == w.b[..w1.pos][..pos];
    }
  }

  lemma ItemReadExtends(p: bytes, more: bytes, pos: nat, item: Item, mid: nat, next: nat)
    requires ItemRead(p, pos, item, mid, next)
    ensures ItemRead(p + more, pos, item, mid, next)
  {
    hide PiecesRead, HeadPieces;
    PiecesReadExtends(p, more, pos, HeadPieces(item.rec, next - mid), mid);
    PiecesReadExtends(p, more, mid, item.data, next);
  }

  lemma RecordReadsBack(b: bytes, pos: nat, item: Item, t: Ring, names: set<Name>) returns (mid: nat)
    requires Consistent(b, pos, t, names) && UsableItem(item.rec, item.data, names)
    requires RecordWritten(b, pos, item.rec, item.data, t).Some?
    ensures var w := RecordWritten(b, pos, item.rec, item.data, t).value;
            && Consistent(w.b, w.pos, w.table, names) && ItemRead(w.b[..w.pos], pos, item, mid, w.pos)
            && w.b[..pos] == b[..pos]
  {
    hide Consistent, RecordWritten, RingOk, PiecesRead, PiecesWritten, Usable;
    ConsistentFits(b, pos, t, names);
    var w := RecordWritten(b, pos, item.rec, item.data, t).value;
    var length := RecordIsPieces(b, pos, item.rec, item.data, t, names);
    var head := HeadPieces(item.rec, length);
    var h := PiecesWritten(b, pos, head, t).value;
    assert AllUsable(head, names) && AllUsable(head + item.data, names);
    PacketReadsBack(b, pos, head, t, names);
    PacketReadsBack(b, pos, head + item.data, t, names);
    PiecesFrame(b, pos, head + item.data, t);
    PiecesAppend(b, pos, head, item.data, t);
    ConsistentFits(h.b, h.pos, h.table, names);
    PiecesFrame(h.b, h.pos, item.data, h.table);
    ConsistentFits(w.b, w.pos, w.table, names);
    mid := PiecesReadSplit(w.b[..w.pos], pos, head, item.data, w.pos);
    assert w.b[..w.pos] == h.b[..h.pos] + w.b[h.pos..w.pos];
    PiecesReadExtends(h.b[..h.pos], w.b[h.pos..w.pos], pos, head, h.pos);
    PiecesReadUnique(w.b[..w.pos], pos, head, mid, h.pos);
  }

  /** A data-carrying item whose data the parser can be asked for. */
  ghost predicate Plain(item: Item)
  {
    if item.rec.data.Txt? then forall piece | piece in item.data :: piece.Raw?
    else item.data == DataPieces(item.rec.data)
  }

  ghost predicate NamesUsable(data: Rdata, names: set<Name>)
  {
    match data
    case Ptr(n) => Usable(NameOf(n), names)
    case Srv(_, _, _, n) => Usable(NameOf(n), names)
    case A(a) => |a| == 4
    case Aaaa(a) => |a| == 16
    case _ => true
  }

  ghost predicate AllReported(p: bytes, items: seq<Item>, reports: seq<Report>)
  {
    |items| == |reports| && forall i :: 0 <= i < |items| ==> Reported(p, items[i], reports[i])
  }

  /** Reports follow one another without a gap, the first name at `pos`, the last data
      ending at `end`. */
  ghost predicate Contiguous(reports: seq<Report>, pos: nat, end: nat)
  {
    if reports == [] then pos == end
    else
      && reports[0].nameOffset == pos
      && Contiguous(reports[1..], reports[0].recordOffset + reports[0].recordLength, end)
  }

  lemma ItemReports(p: bytes, pos: nat, item: Item, mid: nat, next: nat, names: set<Name>)
    requires ItemRead(p, pos, item, mid, next) && Usable(NameOf(item.rec.name), names)
    requires Plain(item) && NamesUsable(item.rec.data, names)
    ensures ReportAt(p, pos).Some?
    ensures var rep := ReportAt(p, pos).value;
            Reported(p, item, rep) && rep.nameOffset == pos && rep.recordOffset + rep.recordLength == next
  {
    hide PiecesRead, HeadPieces, DataPieces, ReportedData, TextAt;
    HeadReports(p, pos, item.rec, next - mid, mid);
    var rep := ReportAt(p, pos).value;
    if !item.rec.data.Txt? {
      DataReports(p, item, rep, next);
    } else {
      TxtReports(p, item, rep, next);
    }
  }

  /** The data of a TXT record is reported as it was written. */
  lemma TxtReports(p: bytes, item: Item, rep: Report, end: nat)
    requires item.rec.data.Txt? && Plain(item)
    requires PiecesRead(p, rep.recordOffset, item.data, end) && end <= |p|
    requires rep.recordLength == end - rep.recordOffset
    ensures ReportedData(p, item, rep)
  {
    hide PiecesRead, RawBytes;
    RawReads(p, rep.recordOffset, item.data, end);
  }

  lemma {:induction false} RawReads(p: bytes, pos: nat, ps: seq<Piece>, end: nat)
    requires PiecesRead(p, pos, ps, end) && end <= |p|
    requires forall piece | piece in ps :: piece.Raw?
    ensures pos <= end && p[pos..end] == RawBytes(ps)
    decreases |ps|
  {
    if ps != [] {
      assert ps[0] in ps;
      RawReads(p, pos + |ps[0].s|, ps[1..], end);
      assert p[pos..end] == p[pos..pos + |ps[0].s|] + p[pos + |ps[0].s|..end];
    }
  }

  /** Parsing `|items|` records from their start yields exactly their reports. */
  lemma {:induction false} ItemsParse(p: bytes, pos: nat, items: seq<Item>, end: nat, names: set<Name>)
    requires ItemsRead(p, pos, items, end) && UsableItems(items, names)
    requires forall i :: 0 <= i < |items| ==> Plain(items[i]) && NamesUsable(items[i].rec.data, names)
    ensures var r := ParsedRecords(p, pos, |items|);
            AllReported(p, items, r.reports) && r.offset == end && Contiguous(r.reports, pos, end)
    decreases |items|
  {
    hide Reported, ItemRead, UsableItem, NamesUsable, Plain;
    if items != [] {
      hide ItemsRead, ParsedRecords, Contiguous, AllReported;
      var r, next := FirstParses(p, pos, items, |items|, end, names);
      ItemsParse(p, next, items[1..], end, names);
      var rest := ParsedRecords(p, next, |items| - 1).reports;
      ReportedFirst(p, items, r, rest, pos, end);
    }
  }

  /** The report of the first item, and what is left to parse. */
  lemma FirstParses(p: bytes, pos: nat, items: seq<Item>, k: nat, end: nat, names: set<Name>)
    returns (r: Report, next: nat)
    requires ItemsRead(p, pos, items, end) && UsableItems(items, names) && items != [] && k > 0
    requires forall i :: 0 <= i < |items| ==> Plain(items[i]) && NamesUsable(items[i].rec.data, names)
    ensures ItemsRead(p, next, items[1..], end)
    ensures Reported(p, items[0], r) && r.nameOffset == pos && r.recordOffset + r.recordLength == next
    ensures var rest := ParsedRecords(p, next, k - 1);
          ParsedRecords(p, pos, k) == Parse([r] + rest.reports, rest.offset)
  {
    hide ReportAt, Reported, ItemRead, UsableItem, NamesUsable, Plain;
    var mid, n :| ItemRead(p, pos, items[0], mid, n) && ItemsRead(p, n, items[1..], end);
    UsableName(items[0], names);
    ItemReports(p, pos, items[0], mid, n, names);
    ItemInside(p, pos, items[0], mid, n);
    r, next := ReportAt(p, pos).value, n;
  }

  lemma ReportedFirst(p: bytes, items: seq<Item>, r: Report, rest: seq<Report>, pos: nat, end: nat)
    requires items != [] && Reported(p, items[0], r) && r.nameOffset == pos
    requires AllReported(p, items[1..], rest) && Contiguous(rest, r.recordOffset + r.recordLength, end)
    ensures AllReported(p, items, [r] + rest) && Contiguous([r] + rest, pos, end)
  {
    hide Reported;
    assert ([r] + rest)[1..] == rest;
    forall i | 0 <= i < |items| ensures Reported(p, items[i], ([r] + rest)[i]) {
      if i > 0 {
        assert items[i] == items[1..][i - 1] && ([r] + rest)[i] == rest[i - 1];
      }
    }
  }

  lemma ItemInside(p: bytes, pos: nat, item: Item, mid: nat, next: nat)
    requires ItemRead(p, pos, item, mid, next)
    ensures next <= |p|
  {
  }

  lemma UsableName(item: Item, names: set<Name>)
    requires UsableItem(item.rec, item.data, names)
    ensures Usable(NameOf(item.rec.name), names)
  {
  }
}
