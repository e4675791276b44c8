/** What a built answer says of each record it was given, field by field and in numbers. */
module DnsAnswerFields {
  import opened Bytes
  import opened DnsNames
  import opened Common
  import opened DnsNameWriter
  import opened DnsNameRoundTrip
  import opened DnsPieces
  import opened DnsPackets
  import opened DnsPacketReader
  import opened DnsPacketRoundTrip
  import opened DnsAnswers

  // --- which records go out ---

  /** The records of a list that are no TXT records. */
  function PlainOf(rs: seq<Record>): (ps: seq<Record>)
  {
    if rs == [] then [] else (if rs[0].data.Txt? then [] else [rs[0]]) + PlainOf(rs[1..])
  }

  /** The records that a list puts into a packet: the TXT records go together, as the first of them. */
  function Sent(rs: seq<Record>): (ss: seq<Record>)
  {
    PlainOf(rs) + TxtsOf(rs)[..if TxtsOf(rs) == [] then 0 else 1]
  }

  function AllSent(answer: Record, authority: seq<Record>, additional: seq<Record>): (ss: seq<Record>)
  {
    [answer] + (Sent(authority) + Sent(additional))
  }

  // --- what is said of them ---

  /** The codes of the record types (section 3.2.2 of RFC 1035, RFC 3596 and RFC 2782). */
  predicate HasType(r: Record, code: nat)
  {
    match r.data
    case A(_) => code == 1
    case Ptr(_) => code == 12
    case Txt(_, _) => code == 16
    case Aaaa(_) => code == 28
    case Srv(_, _, _, _) => code == 33
    case Other(c) => code == c
  }

  /** The class a record asks for; one that asks for none takes the caller's. */
  function ClassAsked(r: Record, rclass: uint16): (c: uint16)
  {
    if r.rclass != 0 then r.rclass else rclass
  }

  /** The class that goes out: of the class asked for, the lowest bit and the highest one, the order to
      flush caches (section 10.2 of RFC 6762), which never goes out for a PTR record. */
  predicate HasClass(r: Record, rclass: uint16, c: nat)
  {
    var asked := ClassAsked(r, rclass);
    && c % 0x8000 == asked % 2
    && (c >= 0x8000 <==> asked >= 0x8000 && !r.data.Ptr?)
    && c < 0x1_0000
  }

  /** The time to live that goes out: the record's own, unless it has none or the caller takes all back. */
  predicate HasTtl(r: Record, ttl: uint32, t: nat)
  {
    t == if r.ttl != 0 && ttl != 0 then r.ttl else ttl
  }

  /** A report tells of a record as it was given. */
  ghost predicate Tells(p: bytes, rep: Report, r: Record, rclass: uint16, ttl: uint32)
  {
    && (forall capacity :: TextAt(p, rep.nameOffset, capacity) == Cut(Dotted(NameOf(r.name)), capacity))
    && HasType(r, rep.rtype) && HasClass(r, rclass, rep.rclass) && HasTtl(r, ttl, rep.ttl)
    && (!r.data.Txt? ==> ReportedData(p, Item(r, []), rep))
  }

  lemma UpdatedTells(p: bytes, rep: Report, r: Record, data: seq<Piece>, rclass: uint16, ttl: uint32)
    requires rclass == CLASS_IN || rclass == CLASS_IN + CACHE_FLUSH
    requires Reported(p, Item(Updated(r, rclass, ttl), data), rep)
    ensures Tells(p, rep, r, rclass, ttl)
  {
    hide TextAt, Cut, Dotted, NameOf, Span, RawBytes, ParsedPtr, ParsedSrv, ParsedAddress;
    var asked := ClassAsked(r, rclass);
    assert (0x8000 + asked % 2) % 0x8000 == asked % 2;
  }

  // --- the records of a list and the items they become ---

  ghost predicate Stems(items: seq<Item>, rs: seq<Record>, rclass: uint16, ttl: uint32)
    requires rclass == CLASS_IN || rclass == CLASS_IN + CACHE_FLUSH
  {
    |items| == |rs| && forall i :: 0 <= i < |rs| ==> items[i].rec == Updated(rs[i], rclass, ttl)
  }

  lemma {:induction false} PlainStems(rs: seq<Record>, rclass: uint16, ttl: uint32)
    requires rclass == CLASS_IN || rclass == CLASS_IN + CACHE_FLUSH
    ensures Stems(PlainItems(rs, rclass, ttl), PlainOf(rs), rclass, ttl)
    decreases |rs|
  {
    hide Updated, DataPieces;
    if rs != [] {
      PlainStems(rs[1..], rclass, ttl);
    }
  }

  lemma ListStems(rs: seq<Record>, rclass: uint16, ttl: uint32)
    requires rclass == CLASS_IN || rclass == CLASS_IN + CACHE_FLUSH
    ensures Stems(ListItems(rs, rclass, ttl), Sent(rs), rclass, ttl)
  {
    hide Updated, PlainItems, PlainOf, TxtPieces, TxtsOf;
    PlainStems(rs, rclass, ttl);
  }

  lemma AnswerStems(answer: Record, authority: seq<Record>, additional: seq<Record>, rclass: uint16, ttl: uint32)
    requires rclass == CLASS_IN || rclass == CLASS_IN + CACHE_FLUSH
    requires !answer.data.Txt?
    ensures Stems(AnswerItems(answer, authority, additional, rclass, ttl), AllSent(answer, authority, additional),
                  rclass, ttl)
  {
    hide Updated, ListItems, Sent, DataPieces;
    assert [answer][1..] == [];
    PlainStems([answer], rclass, ttl);
    assert PlainOf([answer]) == [answer];
    ListStems(authority, rclass, ttl);
    ListStems(additional, rclass, ttl);
  }

  // --- the main results ---

  /** Whatever multicast answer was built, parsing it tells of every record given, in order, its name,
      type, class, time to live and data. */
  lemma AnswerTells(b: bytes, answer: Record, authority: seq<Record>, additional: seq<Record>, rclass: uint16,
                    ttl: uint32, names: set<Name>)
    requires rclass == 1 || rclass == 0x8001
    requires |b| <= MAX_PACKET && SuffixFree(names) && !answer.data.Txt?
    requires UsableRecord(answer, names) && UsableRecords(authority, names) && UsableRecords(additional, names)
    requires AnswerWritten(b, answer, authority, additional, rclass, ttl).Some?
    ensures var w := AnswerWritten(b, answer, authority, additional, rclass, ttl).value;
            var p := w.b[..w.pos];
            var reports, records := ResponseReports(p), AllSent(answer, authority, additional);
            && |reports| == |records|
            && forall k :: 0 <= k < |records| ==> Tells(p, reports[k], records[k], rclass, ttl)
  {
    hide AnswerWritten, AnswerItems, AllSent, ResponseReports, Reported, Tells, Updated, Contiguous, SuffixFree,
         UsableRecord, UsableRecords, N16;
    AnswerParses(b, answer, authority, additional, rclass, ttl, names);
    AnswerStems(answer, authority, additional, rclass, ttl);
    var w := AnswerWritten(b, answer, authority, additional, rclass, ttl).value;
    var p := w.b[..w.pos];
    var items, records := AnswerItems(answer, authority, additional, rclass, ttl),
      AllSent(answer, authority, additional);
    var reports := ResponseReports(p);
    forall k | 0 <= k < |records| ensures Tells(p, reports[k], records[k], rclass, ttl) {
      assert Reported(p, items[k], reports[k]) && items[k] == Item(Updated(records[k], rclass, ttl), items[k].data);
      UpdatedTells(p, reports[k], records[k], items[k].data, rclass, ttl);
    }
  }

  /** The header of a built answer, byte for byte: no id, a response with authority, no question, one
      answer, and how many records the lists put into the packet, high byte first. */
  lemma AnswerHeaderBytes(b: bytes, answer: Record, authority: seq<Record>, additional: seq<Record>, rclass: uint16,
                          ttl: uint32, names: set<Name>)
    requires rclass == 1 || rclass == 0x8001
    requires |b| <= MAX_PACKET && SuffixFree(names)
    requires UsableRecord(answer, names) && UsableRecords(authority, names) && UsableRecords(additional, names)
    requires AnswerWritten(b, answer, authority, additional, rclass, ttl).Some?
    ensures var w := AnswerWritten(b, answer, authority, additional, rclass, ttl).value;
            var p := w.b[..w.pos];
            && |p| >= 12 && p[..8] == [0, 0, 0x84, 0, 0, 0, 0, 1]
            && p[8] as int * 256 + p[9] as int == |Sent(authority)|
            && p[10] as int * 256 + p[11] as int == |Sent(additional)|
  {
    hide AnswerWritten, AnswerHeader, AnswerItems, ItemsRead, SuffixFree, UsableRecord, UsableRecords, Sent,
         RecordCount, Stems;
    AnswerReads(b, answer, authority, additional, rclass, ttl, names);
    SentFits(answer, authority, additional, rclass, ttl);
    var w := AnswerWritten(b, answer, authority, additional, rclass, ttl).value;
    var p := w.b[..w.pos];
    HeaderBytes(p, authority, additional);
    RecordCounts(authority, additional);
  }

  lemma RecordCounts(authority: seq<Record>, additional: seq<Record>)
    ensures RecordCount(authority) == |Sent(authority)| % 0x1_0000
    ensures RecordCount(additional) == |Sent(additional)| % 0x1_0000
  {
    hide ListItems, Sent, RecordCount;
    CountIsItems(authority, CLASS_IN, 0);
    CountIsItems(additional, CLASS_IN, 0);
    SentCount(authority, CLASS_IN, 0);
    SentCount(additional, CLASS_IN, 0);
  }

  lemma SentCount(rs: seq<Record>, rclass: uint16, ttl: uint32)
    requires rclass == CLASS_IN || rclass == CLASS_IN + CACHE_FLUSH
    ensures |ListItems(rs, rclass, ttl)| == |Sent(rs)|
  {
    hide ListItems, Sent;
    ListStems(rs, rclass, ttl);
  }

  lemma SentFits(answer: Record, authority: seq<Record>, additional: seq<Record>, rclass: uint16, ttl: uint32)
    requires rclass == CLASS_IN || rclass == CLASS_IN + CACHE_FLUSH
    ensures |Sent(authority)| + |Sent(additional)| <= |AnswerItems(answer, authority, additional, rclass, ttl)|
  {
    hide ListItems, Sent, PlainItems;
    SentCount(authority, rclass, ttl);
    SentCount(additional, rclass, ttl);
  }

  lemma HeaderBytes(p: bytes, authority: seq<Record>, additional: seq<Record>)
    requires |p| >= HEADER_SIZE && p[..HEADER_SIZE] == AnswerHeader(authority, additional)
    ensures p[..8] == [0, 0, 0x84, 0, 0, 0, 0, 1]
    ensures p[8] as int * 256 + p[9] as int == RecordCount(authority)
    ensures p[10] as int * 256 + p[11] as int == RecordCount(additional)
  {
    hide RecordCount;
    var h := AnswerHeader(authority, additional);
    assert forall i :: 0 <= i < 12 ==> p[i] == p[..HEADER_SIZE][i] == h[i];
  }
}
