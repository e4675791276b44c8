/** Multicast answers end to end: what the packet builder leaves is what the parser
    reports, and how many records that are. */
module DnsAnswers {
  import opened Bytes
  import opened DnsNames
  import opened Common
  import opened DnsNameWriter
  import opened DnsNameRoundTrip
  import opened DnsPieces
  import opened DnsPackets
  import opened DnsPacketReader
  import opened DnsPacketRoundTrip
  import Txt = DnsTxt

  // --- items of usable records ---

  ghost predicate UsableRecord(r: Record, names: set<Name>)
  {
    Usable(NameOf(r.name), names) && NamesUsable(r.data, names)
  }

  ghost predicate UsableRecords(rs: seq<Record>, names: set<Name>)
  {
    forall i :: 0 <= i < |rs| ==> UsableRecord(rs[i], names)
  }

  /** What parsing needs of a list of items. */
  ghost predicate Parseable(items: seq<Item>, names: set<Name>)
  {
    && UsableItems(items, names)
    && forall i :: 0 <= i < |items| ==> Plain(items[i]) && NamesUsable(items[i].rec.data, names)
  }

  lemma ParseableAppend(x: seq<Item>, y: seq<Item>, names: set<Name>)
    requires Parseable(x, names) && Parseable(y, names)
    ensures Parseable(x + y, names)
  {
    hide UsableItem, Plain, NamesUsable;
    forall i | 0 <= i < |x + y|
      ensures UsableItem((x + y)[i].rec, (x + y)[i].data, names) && Plain((x + y)[i])
            && NamesUsable((x + y)[i].rec.data, names)
    {
      if i < |x| {
        assert (x + y)[i] == x[i];
      } else {
        assert (x + y)[i] == y[i - |x|];
      }
    }
  }

  lemma DataUsable(data: Rdata, names: set<Name>)
    requires NamesUsable(data, names)
    ensures NameLast(DataPieces(data)) && AllUsable(DataPieces(data), names)
  {
    hide Usable;
  }

  lemma PlainItemParseable(r: Record, rclass: uint16, ttl: uint32, names: set<Name>)
    requires rclass == CLASS_IN || rclass == CLASS_IN + CACHE_FLUSH
    requires UsableRecord(r, names)
    ensures Parseable([Item(Updated(r, rclass, ttl), DataPieces(r.data))], names)
  {
    hide Usable, NameLast, AllUsable;
    UpdatedKeeps(r, rclass, ttl);
    DataUsable(r.data, names);
  }

  lemma {:induction false} PlainParseable(rs: seq<Record>, rclass: uint16, ttl: uint32, names: set<Name>)
    requires rclass == CLASS_IN || rclass == CLASS_IN + CACHE_FLUSH
    requires UsableRecords(rs, names)
    ensures Parseable(PlainItems(rs, rclass, ttl), names)
    decreases |rs|
  {
    hide UsableRecord, Parseable, Updated, DataPieces;
    if rs == [] {
      NothingParseable(names);
    } else {
      PlainParseable(rs[1..], rclass, ttl, names);
      if !rs[0].data.Txt? {
        PlainItemParseable(rs[0], rclass, ttl, names);
        ParseableAppend([Item(Updated(rs[0], rclass, ttl), DataPieces(rs[0].data))],
                        PlainItems(rs[1..], rclass, ttl), names);
      }
    }
  }

  lemma NothingParseable(names: set<Name>)
    ensures Parseable([], names)
  {
  }

  lemma {:induction false} TxtPiecesRaw(ts: seq<Record>)
    requires AllTxt(ts)
    ensures forall piece | piece in TxtPieces(ts) :: piece.Raw?
    decreases |ts|
  {
    if ts != [] {
      TxtPiecesRaw(ts[1..]);
    }
  }

  lemma {:induction false} TxtsUsable(rs: seq<Record>, names: set<Name>)
    requires UsableRecords(rs, names)
    ensures UsableRecords(TxtsOf(rs), names)
    decreases |rs|
  {
    hide UsableRecord;
    if rs != [] {
      TxtsUsable(rs[1..], names);
    }
  }

  lemma TxtItemParseable(r: Record, ts: seq<Record>, rclass: uint16, ttl: uint32, names: set<Name>)
    requires rclass == CLASS_IN || rclass == CLASS_IN + CACHE_FLUSH
    requires r.data.Txt? && UsableRecord(r, names) && AllTxt(ts)
    ensures Parseable([Item(Updated(r, rclass, ttl), TxtPieces(ts))], names)
  {
    hide TxtPieces, Usable;
    TxtPiecesRaw(ts);
    UpdatedKeeps(r, rclass, ttl);
  }

  lemma TxtParseable(rs: seq<Record>, rclass: uint16, ttl: uint32, names: set<Name>)
    requires rclass == CLASS_IN || rclass == CLASS_IN + CACHE_FLUSH
    requires UsableRecords(rs, names)
    ensures Parseable(TxtItems(rs, rclass, ttl), names)
  {
    hide TxtPieces, TxtsOf, UsableRecord, Parseable, Updated;
    var ts := TxtsOf(rs);
    if ts == [] {
      NothingParseable(names);
    } else {
      TxtsUsable(rs, names);
      assert UsableRecord(ts[0], names) && ts[0] in ts;
      TxtItemParseable(ts[0], ts, rclass, ttl, names);
    }
  }

  lemma ListParseable(rs: seq<Record>, rclass: uint16, ttl: uint32, names: set<Name>)
    requires rclass == CLASS_IN || rclass == CLASS_IN + CACHE_FLUSH
    requires UsableRecords(rs, names)
    ensures Parseable(ListItems(rs, rclass, ttl), names)
  {
    hide Parseable, UsableRecords;
    PlainParseable(rs, rclass, ttl, names);
    TxtParseable(rs, rclass, ttl, names);
    ParseableAppend(PlainItems(rs, rclass, ttl), TxtItems(rs, rclass, ttl), names);
  }

  // --- the packet as items ---

  /** The records of the packet in order; a TXT answer record is never written. */
  ghost function AnswerItems(answer: Record, authority: seq<Record>, additional: seq<Record>, rclass: uint16,
                             ttl: uint32)
    : (items: seq<Item>)
    requires rclass == CLASS_IN || rclass == CLASS_IN + CACHE_FLUSH
  {
    PlainItems([answer], rclass, ttl) + (ListItems(authority, rclass, ttl) + ListItems(additional, rclass, ttl))
  }

  lemma AnswerIsItems(b: bytes, answer: Record, authority: seq<Record>, additional: seq<Record>, rclass: uint16,
                      ttl: uint32)
    requires rclass == CLASS_IN || rclass == CLASS_IN + CACHE_FLUSH
    requires AnswerWritten(b, answer, authority, additional, rclass, ttl).Some?
    ensures |b| >= HEADER_SIZE
    ensures AnswerWritten(b, answer, authority, additional, rclass, ttl)
         == ItemsWritten(Spliced(b, 0, AnswerHeader(authority, additional)), HEADER_SIZE,
                         AnswerItems(answer, authority, additional, rclass, ttl), NewRing())
  {
    hide PlainWritten, ListWritten, RingOk, AnswerHeader, PlainItems, ListItems, ItemsWritten;
    var start := Spliced(b, 0, AnswerHeader(authority, additional));
    var x, y, z :=
      PlainItems([answer], rclass, ttl), ListItems(authority, rclass, ttl), ListItems(additional, rclass, ttl);
    PlainIsItems(start, HEADER_SIZE, [answer], rclass, ttl, NewRing());
    ItemsAppend(start, HEADER_SIZE, x, y + z, NewRing());
    var w1 := PlainWritten(start, HEADER_SIZE, [answer], rclass, ttl, NewRing()).value;
    ListIsItems(w1.b, w1.pos, authority, rclass, ttl, w1.table);
    ItemsAppend(w1.b, w1.pos, y, z, w1.table);
    var w2 := ListWritten(w1.b, w1.pos, authority, rclass, ttl, w1.table).value;
    ListIsItems(w2.b, w2.pos, additional, rclass, ttl, w2.table);
  }

  lemma AnswerParseable(answer: Record, authority: seq<Record>, additional: seq<Record>, rclass: uint16, ttl: uint32,
                        names: set<Name>)
    requires rclass == CLASS_IN || rclass == CLASS_IN + CACHE_FLUSH
    requires UsableRecord(answer, names) && UsableRecords(authority, names) && UsableRecords(additional, names)
    ensures Parseable(PlainItems([answer], rclass, ttl), names)
    ensures Parseable(ListItems(authority, rclass, ttl), names) && Parseable(ListItems(additional, rclass, ttl), names)
    ensures Parseable(AnswerItems(answer, authority, additional, rclass, ttl), names)
  {
    hide Parseable, UsableRecord;
    PlainParseable([answer], rclass, ttl, names);
    ListParseable(authority, rclass, ttl, names);
    ListParseable(additional, rclass, ttl, names);
    ParseableAppend(ListItems(authority, rclass, ttl), ListItems(additional, rclass, ttl), names);
    ParseableAppend(PlainItems([answer], rclass, ttl),
                    ListItems(authority, rclass, ttl) + ListItems(additional, rclass, ttl), names);
  }

  /** The finished packet: its header, and its records from byte 12 to its end. */
  lemma AnswerReads(b: bytes, answer: Record, authority: seq<Record>, additional: seq<Record>, rclass: uint16,
                    ttl: uint32, names: set<Name>)
    requires rclass == CLASS_IN || rclass == CLASS_IN + CACHE_FLUSH
    requires |b| <= MAX_PACKET && SuffixFree(names)
    requires UsableRecord(answer, names) && UsableRecords(authority, names) && UsableRecords(additional, names)
    requires AnswerWritten(b, answer, authority, additional, rclass, ttl).Some?
    ensures var w := AnswerWritten(b, answer, authority, additional, rclass, ttl).value;
            var p := w.b[..w.pos];
            && |p| >= HEADER_SIZE && p[..HEADER_SIZE] == AnswerHeader(authority, additional)
            && ItemsRead(p, HEADER_SIZE, AnswerItems(answer, authority, additional, rclass, ttl), |p|)
            && 11 * |AnswerItems(answer, authority, additional, rclass, ttl)| <= |p| <= MAX_PACKET
  {
    hide AnswerItems, AnswerWritten, AnswerHeader, ItemsWritten, ItemsRead, Parseable, Consistent, SuffixFree,
         UsableRecord, UsableRecords;
    AnswerIsItems(b, answer, authority, additional, rclass, ttl);
    AnswerParseable(answer, authority, additional, rclass, ttl, names);
    var start := Spliced(b, 0, AnswerHeader(authority, additional));
    var items := AnswerItems(answer, authority, additional, rclass, ttl);
    UsableOf(items, names);
    ConsistentStart(start, HEADER_SIZE, NewRing(), names);
    ItemsReadBack(start, HEADER_SIZE, items, NewRing(), names);
    var w := AnswerWritten(b, answer, authority, additional, rclass, ttl).value;
    assert start[..HEADER_SIZE] == AnswerHeader(authority, additional);
    assert w.b[..w.pos][..HEADER_SIZE] == w.b[..HEADER_SIZE];
  }

  lemma UsableOf(items: seq<Item>, names: set<Name>)
    requires Parseable(items, names)
    ensures UsableItems(items, names)
  {
  }

  lemma HeaderFields(p: bytes, authority: seq<Record>, additional: seq<Record>)
    requires |p| >= HEADER_SIZE && p[..HEADER_SIZE] == AnswerHeader(authority, additional)
    ensures N16(p, 4) == 0 && N16(p, 6) == 1
    ensures N16(p, 8) == RecordCount(authority) && N16(p, 10) == RecordCount(additional)
  {
    hide U16, N16, RecordCount;
    var h := p[0..HEADER_SIZE];
    assert h == AnswerHeader(authority, additional);
    SubSlice(p, 0, HEADER_SIZE, 4, 6);
    SubSlice(p, 0, HEADER_SIZE, 6, 8);
    SubSlice(p, 0, HEADER_SIZE, 8, 10);
    SubSlice(p, 0, HEADER_SIZE, 10, 12);
    N16U16(p, 4, 0);
    N16U16(p, 6, 1);
    N16U16(p, 8, RecordCount(authority));
    N16U16(p, 10, RecordCount(additional));
  }

  // --- the main results ---

  lemma {:induction false} ItemsReadSplit(p: bytes, pos: nat, x: seq<Item>, y: seq<Item>, end: nat) returns (mid: nat)
    requires ItemsRead(p, pos, x + y, end)
    ensures ItemsRead(p, pos, x, mid) && ItemsRead(p, mid, y, end)
    decreases |x|
  {
    hide ItemRead;
    if x == [] {
      assert x + y == y;
      mid := pos;
    } else {
      assert (x + y)[0] == x[0] && (x + y)[1..] == x[1..] + y;
      var m, next :| ItemRead(p, pos, (x + y)[0], m, next) && ItemsRead(p, next, (x + y)[1..], end);
      mid := ItemsReadSplit(p, next, x[1..], y, end);
      assert ItemRead(p, pos, x[0], m, next) && ItemsRead(p, next, x[1..], mid);
    }
  }

  lemma {:induction false} ContiguousAppend(x: seq<Report>, y: seq<Report>, pos: nat, mid: nat, end: nat)
    requires Contiguous(x, pos, mid) && Contiguous(y, mid, end)
    ensures Contiguous(x + y, pos, end)
    decreases |x|
  {
    if x == [] {
      assert x + y == y;
    } else {
      assert (x + y)[1..] == x[1..] + y;
      ContiguousAppend(x[1..], y, x[0].recordOffset + x[0].recordLength, mid, end);
    }
  }

  lemma ReportedAppend(p: bytes, x: seq<Item>, rx: seq<Report>, y: seq<Item>, ry: seq<Report>)
    requires AllReported(p, x, rx) && AllReported(p, y, ry)
    ensures AllReported(p, x + y, rx + ry)
  {
    hide Reported;
    forall i | 0 <= i < |x + y| ensures Reported(p, (x + y)[i], (rx + ry)[i]) {
      if i < |x| {
        assert (x + y)[i] == x[i] && (rx + ry)[i] == rx[i];
      } else {
        assert (x + y)[i] == y[i - |x|] && (rx + ry)[i] == ry[i - |x|];
      }
    }
  }

  /** Whenever a multicast answer whose answer record is not TXT was built, parsing the
      packet reports exactly as many records as the header promises: the written records,
      in order, without gaps, the last one ending at the packet's end. */
  lemma AnswerParses(b: bytes, answer: Record, authority: seq<Record>, additional: seq<Record>, rclass: uint16,
                     ttl: uint32, names: set<Name>)
    requires rclass == CLASS_IN || rclass == CLASS_IN + CACHE_FLUSH
    requires |b| <= MAX_PACKET && SuffixFree(names) && !answer.data.Txt?
    requires UsableRecord(answer, names) && UsableRecords(authority, names) && UsableRecords(additional, names)
    requires AnswerWritten(b, answer, authority, additional, rclass, ttl).Some?
    ensures var w := AnswerWritten(b, answer, authority, additional, rclass, ttl).value;
            var p := w.b[..w.pos];
            var reports := ResponseReports(p);
            && |p| >= HEADER_SIZE && |reports| == N16(p, 6) + N16(p, 8) + N16(p, 10)
            && AllReported(p, AnswerItems(answer, authority, additional, rclass, ttl), reports)
            && Contiguous(reports, HEADER_SIZE, |p|)
  {
    hide AnswerWritten, AnswerHeader, ItemsRead, Parseable, SuffixFree, UsableRecord, UsableRecords, PlainItems,
         ListItems, AllReported, Contiguous, ParsedRecords, N16, RecordCount;
    AnswerReads(b, answer, authority, additional, rclass, ttl, names);
    var w := AnswerWritten(b, answer, authority, additional, rclass, ttl).value;
    var p := w.b[..w.pos];
    HeaderFields(p, authority, additional);
    AnswerParseable(answer, authority, additional, rclass, ttl, names);
    var x, y, z :=
      PlainItems([answer], rclass, ttl), ListItems(authority, rclass, ttl), ListItems(additional, rclass, ttl);
    OneAnswer(answer, rclass, ttl);
    CountIsItems(authority, rclass, ttl);
    CountIsItems(additional, rclass, ttl);
    var m1 := ItemsReadSplit(p, HEADER_SIZE, x, y + z, |p|);
    var m2 := ItemsReadSplit(p, m1, y, z, |p|);
    SectionParses(p, HEADER_SIZE, x, m1, names);
    SectionParses(p, m1, y, m2, names);
    SectionParses(p, m2, z, |p|, names);
    var rx := ParsedRecords(p, HEADER_SIZE, 1).reports;
    var ry, rz := ParsedRecords(p, m1, |y|).reports, ParsedRecords(p, m2, |z|).reports;
    assert ResponseReports(p) == rx + ry + rz;
    assert rx + ry + rz == rx + (ry + rz);
    ReportedAppend(p, y, ry, z, rz);
    ReportedAppend(p, x, rx, y + z, ry + rz);
    ContiguousAppend(ry, rz, m1, m2, |p|);
    ContiguousAppend(rx, ry + rz, HEADER_SIZE, m1, |p|);
  }

  lemma SectionParses(p: bytes, pos: nat, items: seq<Item>, end: nat, names: set<Name>)
    requires ItemsRead(p, pos, items, end) && Parseable(items, names)
    ensures var r := ParsedRecords(p, pos, |items|);
            && AllReported(p, items, r.reports) && r.offset == end && Contiguous(r.reports, pos, end)
            && |r.reports| == |items|
  {
    hide ItemsRead, ParsedRecords, Contiguous, Reported, UsableItem, Plain, NamesUsable;
    ItemsParse(p, pos, items, end, names);
  }

  lemma OneAnswer(answer: Record, rclass: uint16, ttl: uint32)
    requires rclass == CLASS_IN || rclass == CLASS_IN + CACHE_FLUSH
    ensures |PlainItems([answer], rclass, ttl)| == if answer.data.Txt? then 0 else 1
  {
    assert [answer][1..] == [];
  }

  /** Asking for the first `k` records, or for more than there are. */
  lemma {:induction false} PrefixParses(p: bytes, pos: nat, items: seq<Item>, k: nat, names: set<Name>)
    requires ItemsRead(p, pos, items, |p|) && Parseable(items, names)
    ensures var r := ParsedRecords(p, pos, k);
            if k <= |items| then |r.reports| == k && ItemsRead(p, r.offset, items[k..], |p|)
            else |r.reports| == |items|
    decreases k
  {
    hide ReportAt, Reported, ItemRead, UsableItem, NamesUsable, Plain;
    if k == 0 {
      assert items[0..] == items;
    } else if items == [] {
      NothingAtEnd(p);
    } else {
      hide ItemsRead, ParsedRecords;
      var r, next := FirstParses(p, pos, items, k, |p|, names);
      PrefixParses(p, next, items[1..], k - 1, names);
      if k <= |items| {
        assert items[1..][k - 1..] == items[k..];
      }
    }
  }

  lemma NothingAtEnd(p: bytes)
    ensures ReportAt(p, |p|) == None
  {
  }

  /** With a TXT answer record the header promises one record too many: the parser always
      comes up one short. Together with `AnswerParses`: promise and report agree exactly
      when the answer record is not TXT. */
  lemma TxtAnswerMiscounts(b: bytes, answer: Record, authority: seq<Record>, additional: seq<Record>, rclass: uint16,
                           ttl: uint32, names: set<Name>)
    requires rclass == CLASS_IN || rclass == CLASS_IN + CACHE_FLUSH
    requires |b| <= MAX_PACKET && SuffixFree(names) && answer.data.Txt?
    requires UsableRecord(answer, names) && UsableRecords(authority, names) && UsableRecords(additional, names)
    requires AnswerWritten(b, answer, authority, additional, rclass, ttl).Some?
    ensures var w := AnswerWritten(b, answer, authority, additional, rclass, ttl).value;
            var p := w.b[..w.pos];
            |p| >= HEADER_SIZE && |ResponseReports(p)| == N16(p, 6) + N16(p, 8) + N16(p, 10) - 1
  {
    hide AnswerWritten, AnswerHeader, ItemsRead, Parseable, SuffixFree, UsableRecord, UsableRecords, PlainItems,
         ListItems, ParsedRecords, N16, RecordCount;
    AnswerReads(b, answer, authority, additional, rclass, ttl, names);
    var w := AnswerWritten(b, answer, authority, additional, rclass, ttl).value;
    var p := w.b[..w.pos];
    HeaderFields(p, authority, additional);
    AnswerParseable(answer, authority, additional, rclass, ttl, names);
    var y, z := ListItems(authority, rclass, ttl), ListItems(additional, rclass, ttl);
    OneAnswer(answer, rclass, ttl);
    CountIsItems(authority, rclass, ttl);
    CountIsItems(additional, rclass, ttl);
    var items := y + z;
    assert AnswerItems(answer, authority, additional, rclass, ttl) == items;
    PrefixParses(p, HEADER_SIZE, items, 1, names);
    if items != [] {
      var r1 := ParsedRecords(p, HEADER_SIZE, 1);
      ParseableRest(items, 1, names);
      PrefixParses(p, r1.offset, items[1..], |y|, names);
      if |z| > 0 {
        var r2 := ParsedRecords(p, r1.offset, |y|);
        assert items[1..][|y|..] == items[|y| + 1..];
        ParseableRest(items, |y| + 1, names);
        PrefixParses(p, r2.offset, items[|y| + 1..], |z|, names);
      }
    }
  }

  lemma ParseableRest(items: seq<Item>, k: nat, names: set<Name>)
    requires Parseable(items, names) && k <= |items|
    ensures Parseable(items[k..], names)
  {
    hide UsableItem, Plain, NamesUsable;
  }

  // --- the strings of TXT records ---

  lemma {:induction false} TxtPiecesBytes(ts: seq<Record>)
    requires AllTxt(ts)
    ensures RawBytes(TxtPieces(ts)) == Txt.TxtData(ts)
    decreases |ts|
  {
    if ts != [] {
      TxtPiecesBytes(ts[1..]);
      assert TxtPieces(ts)[1..] == TxtPieces(ts[1..]);
    }
  }

  /** In the report of a TXT record, keys and values are found again exactly when every
      string keeps to the rules. */
  lemma TxtItemIff(p: bytes, rs: seq<Record>, rclass: uint16, ttl: uint32, rep: Report, capacity: nat)
    requires rclass == CLASS_IN || rclass == CLASS_IN + CACHE_FLUSH
    requires TxtsOf(rs) != [] && |TxtsOf(rs)| <= capacity
    requires Reported(p, TxtItems(rs, rclass, ttl)[0], rep)
    ensures Txt.ParsedTxt(Span(p, rep), capacity) == Txt.Entries(TxtsOf(rs)) <==> Txt.AllProper(TxtsOf(rs))
  {
    hide TxtPieces, TxtsOf, Span, RawBytes, Updated;
    var ts := TxtsOf(rs);
    assert ts[0] in ts;
    UpdatedKeeps(ts[0], rclass, ttl);
    TxtPiecesBytes(ts);
    Txt.TxtReadsBackIff(ts, capacity);
  }

  /** Where a list has TXT records, their report is the last one of the list, and the keys
      and values come back from it exactly when every string keeps to the rules. */
  lemma AnswerTxtIff(b: bytes, answer: Record, authority: seq<Record>, additional: seq<Record>, rclass: uint16,
                     ttl: uint32, names: set<Name>, capacity: nat)
    requires rclass == CLASS_IN || rclass == CLASS_IN + CACHE_FLUSH
    requires |b| <= MAX_PACKET && SuffixFree(names) && !answer.data.Txt?
    requires UsableRecord(answer, names) && UsableRecords(authority, names) && UsableRecords(additional, names)
    requires AnswerWritten(b, answer, authority, additional, rclass, ttl).Some?
    requires |TxtsOf(authority)| <= capacity && |TxtsOf(additional)| <= capacity
    ensures var w := AnswerWritten(b, answer, authority, additional, rclass, ttl).value;
            var p := w.b[..w.pos];
            var reports := ResponseReports(p);
            && |p| >= HEADER_SIZE && |reports| == 1 + N16(p, 8) + N16(p, 10)
            && (TxtsOf(authority) != [] ==>
                  (Txt.ParsedTxt(Span(p, reports[N16(p, 8)]), capacity) == Txt.Entries(TxtsOf(authority))
                   <==> Txt.AllProper(TxtsOf(authority))))
            && (TxtsOf(additional) != [] ==>
                  (Txt.ParsedTxt(Span(p, reports[|reports| - 1]), capacity) == Txt.Entries(TxtsOf(additional))
                   <==> Txt.AllProper(TxtsOf(additional))))
  {
    hide AnswerWritten, AnswerHeader, ItemsRead, SuffixFree, UsableRecord, UsableRecords, PlainItems, ListItems,
         TxtItems, TxtsOf, Reported, Contiguous, ResponseReports, N16, RecordCount, Span, Txt.ParsedTxt, Txt.Entries,
         Txt.AllProper;
    AnswerReads(b, answer, authority, additional, rclass, ttl, names);
    AnswerParses(b, answer, authority, additional, rclass, ttl, names);
    var w := AnswerWritten(b, answer, authority, additional, rclass, ttl).value;
    var p := w.b[..w.pos];
    HeaderFields(p, authority, additional);
    OneAnswer(answer, rclass, ttl);
    CountIsItems(authority, rclass, ttl);
    CountIsItems(additional, rclass, ttl);
    var y, z := ListItems(authority, rclass, ttl), ListItems(additional, rclass, ttl);
    var items, reports := AnswerItems(answer, authority, additional, rclass, ttl), ResponseReports(p);
    assert N16(p, 8) == |y| && N16(p, 10) == |z| && |items| == |reports| == 1 + |y| + |z|;
    if TxtsOf(authority) != [] {
      TxtItemLast(authority, rclass, ttl);
      assert items[|y|] == y[|y| - 1];
      TxtItemIff(p, authority, rclass, ttl, reports[|y|], capacity);
    }
    if TxtsOf(additional) != [] {
      TxtItemLast(additional, rclass, ttl);
      assert items[|items| - 1] == z[|z| - 1];
      TxtItemIff(p, additional, rclass, ttl, reports[|reports| - 1], capacity);
    }
  }

  lemma TxtItemLast(rs: seq<Record>, rclass: uint16, ttl: uint32)
    requires rclass == CLASS_IN || rclass == CLASS_IN + CACHE_FLUSH
    requires TxtsOf(rs) != []
    ensures var items := ListItems(rs, rclass, ttl);
            |items| > 0 && |TxtItems(rs, rclass, ttl)| == 1 && items[|items| - 1] == TxtItems(rs, rclass, ttl)[0]
  {
    hide PlainItems, TxtsOf, Updated, TxtPieces;
  }
}
