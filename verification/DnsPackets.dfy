/** DNS answer packets: building a multicast answer from records, and parsing the records
    of a received packet (RFC 1035, section 4.1). */
module DnsPackets {
  import opened Bytes
  import opened DnsNames
  import opened Common
  import opened DnsNameWriter
  import opened DnsPieces

  type uint16 = x: int | 0 <= x < 0x1_0000
  type uint32 = x: int | 0 <= x < 0x1_0000_0000

  datatype Rdata =
    | Ptr(target: bytes)
    | Srv(priority: uint16, weight: uint16, port: uint16, host: bytes)
    | A(addr: bytes)
    | Aaaa(addr6: bytes)
    | Txt(key: bytes, value: bytes)
    | Other(code: uint16)

  datatype Record = Record(name: bytes, data: Rdata, rclass: uint16, ttl: uint32)

  const CLASS_IN: uint16 := 1
  const CACHE_FLUSH: uint16 := 0x8000
  const HEADER_SIZE: nat := 12

  function TypeOf(data: Rdata): (code: uint16)
  {
    match data
    case Ptr(_) => 12
    case Srv(_, _, _, _) => 33
    case A(_) => 1
    case Aaaa(_) => 28
    case Txt(_, _) => 16
    case Other(c) => c
  }

  /** What the C types guarantee: names are not empty strings, addresses have their size,
      and `Other` stands for the types that have no data. */
  ghost predicate ValidRecord(r: Record)
  {
    && r.name != []
    && match r.data
       case Ptr(n) => n != []
       case Srv(_, _, _, n) => n != []
       case A(a) => |a| == 4
       case Aaaa(a) => |a| == 16
       case Txt(_, _) => true
       case Other(c) => c !in {1, 12, 16, 28, 33}
  }

  ghost predicate AllValidRecords(rs: seq<Record>)
  {
    forall r | r in rs :: ValidRecord(r)
  }

  function NameOf(name: bytes): (ls: Name)
  {
    LabelsOf(WithoutFinalDot(name))
  }

  function U16(v: int): (s: bytes)
    ensures |s| == 2
  {
    [v / 256 % 256, v % 256]
  }

  function U32(v: uint32): (s: bytes)
    ensures |s| == 4
  {
    U16(v / 0x1_0000) + U16(v % 0x1_0000)
  }

  // --- what a record is made of ---

  /** Type, class, time to live and data length. */
  function Fixed(r: Record, length: int): (s: bytes)
    ensures |s| == 10
  {
    U16(TypeOf(r.data)) + U16(r.rclass) + U32(r.ttl) + U16(length)
  }

  function DataPieces(data: Rdata): (ps: seq<Piece>)
  {
    match data
    case Ptr(n) => [Named(NameOf(n))]
    case Srv(p, w, port, n) => [Raw(U16(p) + U16(w) + U16(port)), Named(NameOf(n))]
    case A(a) => [Raw(a)]
    case Aaaa(a) => [Raw(a)]
    case _ => []
  }

  function HeadPieces(r: Record, length: int): (ps: seq<Piece>)
  {
    [Named(NameOf(r.name)), Raw(Fixed(r, length))]
  }

  /** The length field of the record whose data starts at `start` filled in. */
  function Patched(w: Progress, start: nat): (w': Progress)
    ensures |w'.b| == |w.b| && w'.pos == w.pos && w'.table == w.table
  {
    if 2 <= start <= |w.b| then w.(b := Spliced(w.b, start - 2, U16(w.pos - start))) else w
  }

  /** A record written with length 0 and `data` behind its head, then patched. */
  function RecordWritten(b: bytes, pos: nat, r: Record, data: seq<Piece>, t: Ring): (w: Option<Progress>)
    requires pos <= |b| && RingOk(t)
    ensures w.Some? ==> |w.value.b| == |b| && w.value.pos <= |b| && RingOk(w.value.table)
  {
    match PiecesWritten(b, pos, HeadPieces(r, 0), t)
    case None => None
    case Some(head) =>
      match PiecesWritten(head.b, head.pos, data, head.table)
      case None => None
      case Some(w) => Some(Patched(w, head.pos))
  }

  lemma HeadGrows(b: bytes, pos: nat, r: Record, length: int, t: Ring)
    requires pos <= |b| && RingOk(t)
    ensures var w := PiecesWritten(b, pos, HeadPieces(r, length), t); w.Some? ==> w.value.pos >= pos + 11
  {
    hide Written, Fixed;
    var ps := HeadPieces(r, length);
    assert ps[1..] == [Raw(Fixed(r, length))] && ps[1..][1..] == [];
  }

  /** Class and time to live as the answer functions normalise them. */
  function Updated(r: Record, rclass: uint16, ttl: uint32): (r': Record)
    requires rclass == CLASS_IN || rclass == CLASS_IN + CACHE_FLUSH
  {
    var c := if r.rclass == 0 then rclass else r.rclass;
    var t := if r.ttl == 0 || ttl == 0 then ttl else r.ttl;
    var flush := if c >= CACHE_FLUSH && !r.data.Ptr? then CACHE_FLUSH else 0;
    r.(rclass := flush + c % 2, ttl := t)
  }

  // --- lists of records ---

  function PlainWritten(b: bytes, pos: nat, rs: seq<Record>, rclass: uint16, ttl: uint32, t: Ring)
    : (w: Option<Progress>)
    requires pos <= |b| && RingOk(t)
    requires rclass == CLASS_IN || rclass == CLASS_IN + CACHE_FLUSH
    ensures w.Some? ==> |w.value.b| == |b| && w.value.pos <= |b| && RingOk(w.value.table)
    decreases |rs|
  {
    if rs == [] then Some(Progress(b, pos, t))
    else if rs[0].data.Txt? then PlainWritten(b, pos, rs[1..], rclass, ttl, t)
    else
      match RecordWritten(b, pos, Updated(rs[0], rclass, ttl), DataPieces(rs[0].data), t)
      case None => None
      case Some(w) => PlainWritten(w.b, w.pos, rs[1..], rclass, ttl, w.table)
  }

  ghost predicate AllTxt(ts: seq<Record>)
  {
    forall r | r in ts :: r.data.Txt?
  }

  function TxtsOf(rs: seq<Record>): (ts: seq<Record>)
    ensures AllTxt(ts)
    ensures |ts| <= |rs|
  {
    if rs == [] then [] else if rs[0].data.Txt? then [rs[0]] + TxtsOf(rs[1..]) else TxtsOf(rs[1..])
  }

  /** One TXT string: a length byte, which keeps the low eight bits only, key, `=`, value. */
  function TxtBytes(r: Record): (s: bytes)
    requires r.data.Txt?
    ensures |s| == |r.data.key| + |r.data.value| + 2
  {
    [(|r.data.key| + |r.data.value| + 1) % 256] + r.data.key + [61] + r.data.value
  }

  const MAX_TXT: nat := 0x3FFF

  ghost function TxtPieces(ts: seq<Record>): (ps: seq<Piece>)
    requires AllTxt(ts)
  {
    if ts == [] then [] else [Raw(TxtBytes(ts[0]))] + TxtPieces(ts[1..])
  }

  ghost predicate TxtsFit(ts: seq<Record>)
    requires AllTxt(ts)
  {
    forall i :: 0 <= i < |ts| ==> |TxtBytes(ts[i])| - 1 <= MAX_TXT
  }

  /** All TXT records of a list as one record under the first one's name. */
  ghost function TxtWritten(b: bytes, pos: nat, rs: seq<Record>, rclass: uint16, ttl: uint32, t: Ring)
    : (w: Option<Progress>)
    requires pos <= |b| && RingOk(t)
    requires rclass == CLASS_IN || rclass == CLASS_IN + CACHE_FLUSH
    ensures w.Some? ==> |w.value.b| == |b| && w.value.pos <= |b| && RingOk(w.value.table)
  {
    var ts := TxtsOf(rs);
    if ts == [] then Some(Progress(b, pos, t))
    else if !TxtsFit(ts) then None
    else RecordWritten(b, pos, Updated(ts[0], rclass, ttl), TxtPieces(ts), t)
  }

  ghost function ListWritten(b: bytes, pos: nat, rs: seq<Record>, rclass: uint16, ttl: uint32, t: Ring)
    : (w: Option<Progress>)
    requires pos <= |b| && RingOk(t)
    requires rclass == CLASS_IN || rclass == CLASS_IN + CACHE_FLUSH
    ensures w.Some? ==> |w.value.b| == |b| && w.value.pos <= |b| && RingOk(w.value.table)
  {
    match PlainWritten(b, pos, rs, rclass, ttl, t)
    case None => None
    case Some(w) => TxtWritten(w.b, w.pos, rs, rclass, ttl, w.table)
  }

  /** How many records the header promises for a list; 16 bits. */
  function RecordCount(rs: seq<Record>): (n: uint16)
  {
    (|rs| - |TxtsOf(rs)| + (if TxtsOf(rs) == [] then 0 else 1)) % 0x1_0000
  }

  function AnswerHeader(authority: seq<Record>, additional: seq<Record>): (s: bytes)
    ensures |s| == HEADER_SIZE
  {
    U16(0) + U16(0x8400) + U16(0) + U16(1) + U16(RecordCount(authority)) + U16(RecordCount(additional))
  }

  /** The whole answer packet, or `None` when it does not fit. */
  ghost function AnswerWritten(b: bytes, answer: Record, authority: seq<Record>, additional: seq<Record>,
                               rclass: uint16, ttl: uint32)
    : (w: Option<Progress>)
    requires rclass == CLASS_IN || rclass == CLASS_IN + CACHE_FLUSH
    ensures w.Some? ==> |w.value.b| == |b| && w.value.pos <= |b|
  {
    if |b| < HEADER_SIZE + 32 + 4 then None else
      var start := Spliced(b, 0, AnswerHeader(authority, additional));
      match PlainWritten(start, HEADER_SIZE, [answer], rclass, ttl, NewRing())
      case None => None
      case Some(w1) =>
        match ListWritten(w1.b, w1.pos, authority, rclass, ttl, w1.table)
        case None => None
        case Some(w2) => ListWritten(w2.b, w2.pos, additional, rclass, ttl, w2.table)
  }

  // --- the builder ---

  method WriteRaw(buffer: array<byte>, data: nat, s: bytes, table: StringTable) returns (end: Option<nat>)
    requires data <= buffer.Length && table.Valid()
    modifies buffer
    ensures table.Valid()
    ensures Matches(RawWritten(old(buffer[..]), data, s, table.State()), end, buffer[..], table.State())
  {
    if buffer.Length - data < |s| {
      return None;
    }
    WriteBytes(buffer, data, s);
    end := Some(data + |s|);
  }

  lemma TwoPieces(b: bytes, pos: nat, first: Piece, second: Piece, t: Ring)
    requires pos <= |b| && RingOk(t)
    ensures PiecesWritten(b, pos, [first, second], t)
         == match PieceWritten(b, pos, first, t)
            case None => None
            case Some(w) => PieceWritten(w.b, w.pos, second, w.table)
    ensures PiecesWritten(b, pos, [first], t) == PieceWritten(b, pos, first, t)
    ensures PiecesWritten(b, pos, [], t) == Some(Progress(b, pos, t))
  {
    hide PieceWritten, RingOk;
    assert [first, second][1..] == [second] && [second][1..] == [] && [first][1..] == [];
  }

  method AddRecordHeader(buffer: array<byte>, data: nat, record: Record, table: StringTable) returns (end: Option<nat>)
    requires data <= buffer.Length && table.Valid() && record.name != []
    modifies buffer, table, table.offset
    ensures table.Valid()
    ensures Matches(PiecesWritten(old(buffer[..]), data, HeadPieces(record, 0), old(table.State())),
                    end, buffer[..], table.State())
  {
    hide Written, PiecesWritten, Fixed, Spliced;
    TwoPieces(buffer[..], data, Named(NameOf(record.name)), Raw(Fixed(record, 0)), table.State());
    var named := StringMake(buffer, data, record.name, table);
    if named.None? {
      return None;
    }
    end := WriteRaw(buffer, named.value, Fixed(record, 0), table);
  }

  method AddData(buffer: array<byte>, data: nat, record: Record, table: StringTable) returns (end: Option<nat>)
    requires data <= buffer.Length && table.Valid() && ValidRecord(record) && !record.data.Txt?
    modifies buffer, table, table.offset
    ensures table.Valid()
    ensures Matches(PiecesWritten(old(buffer[..]), data, DataPieces(record.data), old(table.State())),
                    end, buffer[..], table.State())
  {
    hide Written, PiecesWritten, U16, Spliced;
    TwoPieces(buffer[..], data, Raw([]), Raw([]), table.State());
    match record.data {
      case Ptr(target) =>
        TwoPieces(buffer[..], data, Named(NameOf(target)), Raw([]), table.State());
        end := StringMake(buffer, data, target, table);
      case Srv(priority, weight, port, host) =>
        var numbers := U16(priority) + U16(weight) + U16(port);
        TwoPieces(buffer[..], data, Raw(numbers), Named(NameOf(host)), table.State());
        if buffer.Length - data <= 6 {
          NoRoomForName(buffer[..], data, numbers, NameOf(host), table.State());
          return None;
        }
        var mid := WriteRaw(buffer, data, numbers, table);
        end := StringMake(buffer, mid.value, host, table);
      case A(addr) =>
        TwoPieces(buffer[..], data, Raw(addr), Raw([]), table.State());
        end := WriteRaw(buffer, data, addr, table);
      case Aaaa(addr) =>
        TwoPieces(buffer[..], data, Raw(addr), Raw([]), table.State());
        end := WriteRaw(buffer, data, addr, table);
      case _ =>
        end := Some(data);
    }
  }

  lemma NoRoomForName(b: bytes, pos: nat, s: bytes, ls: Name, t: Ring)
    requires pos <= |b| && RingOk(t) && |b| - pos <= |s|
    ensures RawWritten(b, pos, s, t).Some? ==> Written(RawWritten(b, pos, s, t).value.b, pos + |s|, ls, t).None?
  {
  }

  method AddRecord(buffer: array<byte>, data: nat, record: Record, table: StringTable) returns (end: Option<nat>)
    requires data <= buffer.Length && table.Valid() && ValidRecord(record) && !record.data.Txt?
    modifies buffer, table, table.offset
    ensures table.Valid()
    ensures Matches(RecordWritten(old(buffer[..]), data, record, DataPieces(record.data), old(table.State())),
                    end, buffer[..], table.State())
  {
    hide Written, PiecesWritten, HeadPieces, DataPieces, Spliced;
    HeadGrows(buffer[..], data, record, 0, table.State());
    var head := AddRecordHeader(buffer, data, record, table);
    if head.None? {
      return None;
    }
    end := AddData(buffer, head.value, record, table);
    if end.Some? {
      WriteBytes(buffer, head.value - 2, U16(end.value - head.value));
    }
  }

  method AddRecords(buffer: array<byte>, data: nat, records: seq<Record>, rclass: uint16, ttl: uint32,
                    table: StringTable)
    returns (end: Option<nat>)
    requires data <= buffer.Length && table.Valid() && AllValidRecords(records)
    requires rclass == CLASS_IN || rclass == CLASS_IN + CACHE_FLUSH
    modifies buffer, table, table.offset
    ensures table.Valid()
    ensures Matches(PlainWritten(old(buffer[..]), data, records, rclass, ttl, old(table.State())),
                    end, buffer[..], table.State())
  {
    hide RecordWritten, Updated, ValidRecord, DataPieces;
    var pos: nat := data;
    ghost var whole := PlainWritten(buffer[..], data, records, rclass, ttl, table.State());
    assert records[0..] == records;
    for irec := 0 to |records|
      invariant table.Valid() && pos <= buffer.Length
      invariant PlainWritten(buffer[..], pos, records[irec..], rclass, ttl, table.State()) == whole
    {
      assert records[irec..][0] == records[irec] && records[irec..][1..] == records[irec + 1..];
      UpdatedKeeps(records[irec], rclass, ttl);
      if !records[irec].data.Txt? {
        var next := AddRecord(buffer, pos, Updated(records[irec], rclass, ttl), table);
        if next.None? {
          return None;
        }
        pos := next.value;
      }
    }
    end := Some(pos);
  }

  lemma UpdatedKeeps(r: Record, rclass: uint16, ttl: uint32)
    requires rclass == CLASS_IN || rclass == CLASS_IN + CACHE_FLUSH
    ensures Updated(r, rclass, ttl).data == r.data && Updated(r, rclass, ttl).name == r.name
    ensures ValidRecord(r) ==> ValidRecord(Updated(r, rclass, ttl))
  {
  }

  lemma TxtRest(rs: seq<Record>, i: nat)
    requires i < |rs|
    ensures var rest, tail := TxtsOf(rs[i..]), TxtsOf(rs[i + 1..]);
            if rs[i].data.Txt? then
              && rest == [rs[i]] + tail && TxtPieces(rest) == [Raw(TxtBytes(rs[i]))] + TxtPieces(tail)
              && (TxtsFit(rest) <==> |TxtBytes(rs[i])| - 1 <= MAX_TXT && TxtsFit(tail))
            else rest == tail
  {
    hide TxtBytes;
    assert rs[i..][0] == rs[i] && rs[i..][1..] == rs[i + 1..];
    if rs[i].data.Txt? {
      var rest, tail := TxtsOf(rs[i..]), TxtsOf(rs[i + 1..]);
      assert rest == [rs[i]] + tail && rest[1..] == tail;
      assert forall k :: 0 <= k < |tail| ==> tail[k] == rest[k + 1];
    }
  }

  /** One TXT string appended to the record being built. */
  method AddTxtString(buffer: array<byte>, data: nat, record: Record, table: StringTable) returns (end: Option<nat>)
    requires data <= buffer.Length && table.Valid() && record.data.Txt?
    modifies buffer
    ensures table.Valid()
    ensures |TxtBytes(record)| - 1 <= MAX_TXT ==>
              Matches(RawWritten(old(buffer[..]), data, TxtBytes(record), table.State()), end,
                      buffer[..], table.State())
    ensures |TxtBytes(record)| - 1 > MAX_TXT ==> end == None
  {
    hide Spliced;
    var stringLength := |record.data.key| + |record.data.value| + 1;
    var remain := buffer.Length - data;
    if remain <= stringLength || stringLength > MAX_TXT {
      return None;
    }
    end := WriteRaw(buffer, data, TxtBytes(record), table);
  }

  lemma PiecesFirst(b: bytes, pos: nat, first: Piece, rest: seq<Piece>, t: Ring)
    requires pos <= |b| && RingOk(t)
    ensures PiecesWritten(b, pos, [first] + rest, t)
         == match PieceWritten(b, pos, first, t)
            case None => None
            case Some(w) => PiecesWritten(w.b, w.pos, rest, w.table)
  {
    assert ([first] + rest)[1..] == rest;
  }

  /** The strings of all TXT records from index `from` on. */
  method AddTxtStrings(buffer: array<byte>, data: nat, records: seq<Record>, from: nat, table: StringTable)
    returns (end: Option<nat>)
    requires data <= buffer.Length && table.Valid() && from <= |records|
    modifies buffer
    ensures table.Valid()
    ensures TxtsFit(TxtsOf(records[from..])) ==>
              Matches(PiecesWritten(old(buffer[..]), data, TxtPieces(TxtsOf(records[from..])), table.State()),
                      end, buffer[..], table.State())
    ensures !TxtsFit(TxtsOf(records[from..])) ==> end == None
  {
    hide TxtBytes, TxtsOf, TxtPieces, TxtsFit, RawWritten, PiecesWritten;
    var pos: nat := data;
    ghost var ts := TxtsOf(records[from..]);
    ghost var whole := PiecesWritten(buffer[..], data, TxtPieces(ts), table.State());
    for irec := from to |records|
      invariant table.Valid() && pos <= buffer.Length
      invariant TxtsFit(TxtsOf(records[irec..])) <==> TxtsFit(ts)
      invariant PiecesWritten(buffer[..], pos, TxtPieces(TxtsOf(records[irec..])), table.State()) == whole
    {
      TxtRest(records, irec);
      if records[irec].data.Txt? {
        PiecesFirst(buffer[..], pos, Raw(TxtBytes(records[irec])), TxtPieces(TxtsOf(records[irec + 1..])),
          table.State());
        var next := AddTxtString(buffer, pos, records[irec], table);
        if next.None? {
          return None;
        }
        pos := next.value;
      }
    }
    NoTxts(records, buffer[..], pos, table.State());
    end := Some(pos);
  }

  lemma NoTxts(rs: seq<Record>, b: bytes, pos: nat, t: Ring)
    requires pos <= |b| && RingOk(t)
    ensures TxtsFit(TxtsOf(rs[|rs|..]))
          && PiecesWritten(b, pos, TxtPieces(TxtsOf(rs[|rs|..])), t) == Some(Progress(b, pos, t))
  {
  }

  /** The first TXT record's index, if there is one. */
  method FirstTxt(records: seq<Record>) returns (irec: nat)
    ensures irec <= |records| && TxtsOf(records[irec..]) == TxtsOf(records)
    ensures irec == |records| <==> TxtsOf(records) == []
    ensures irec < |records| ==> records[irec].data.Txt?
  {
    irec := 0;
    assert records[0..] == records;
    while irec < |records| && !records[irec].data.Txt?
      invariant irec <= |records| && TxtsOf(records[irec..]) == TxtsOf(records)
    {
      TxtRest(records, irec);
      irec := irec + 1;
    }
    if irec < |records| {
      TxtRest(records, irec);
    }
  }

  method AddTxtRecord(buffer: array<byte>, data: nat, records: seq<Record>, rclass: uint16, ttl: uint32,
                      table: StringTable)
    returns (end: Option<nat>)
    requires data <= buffer.Length && table.Valid() && AllValidRecords(records)
    requires rclass == CLASS_IN || rclass == CLASS_IN + CACHE_FLUSH
    modifies buffer, table, table.offset
    ensures table.Valid()
    ensures Matches(TxtWritten(old(buffer[..]), data, records, rclass, ttl, old(table.State())),
                    end, buffer[..], table.State())
  {
    hide PiecesWritten, HeadPieces, TxtPieces, TxtsFit, TxtsOf, Updated, Spliced, ValidRecord;
    var irec := FirstTxt(records);
    if irec == |records| {
      return Some(data);
    }
    TxtRest(records, irec);
    UpdatedKeeps(records[irec], rclass, ttl);
    var record := Updated(records[irec], rclass, ttl);
    HeadGrows(buffer[..], data, record, 0, table.State());
    var head := AddRecordHeader(buffer, data, record, table);
    if head.None? {
      return None;
    }
    end := AddTxtStrings(buffer, head.value, records, irec, table);
    if end.Some? {
      WriteBytes(buffer, head.value - 2, U16(end.value - head.value));
    }
  }

  method GetRecordCount(records: seq<Record>) returns (count: nat)
    ensures count == RecordCount(records)
  {
    hide TxtsOf;
    var total, txt := 0, 0;
    ghost var plain := 0;
    assert records[0..] == records;
    for irec := 0 to |records|
      invariant plain == irec - |TxtsOf(records)| + |TxtsOf(records[irec..])| && total == plain % 0x1_0000
      invariant |TxtsOf(records[irec..])| <= |TxtsOf(records)|
      invariant txt == if |TxtsOf(records[irec..])| == |TxtsOf(records)| then 0 else 1
    {
      TxtRest(records, irec);
      if records[irec].data.Txt? {
        txt := 1;
      } else {
        total := (total + 1) % 0x1_0000;
        plain := plain + 1;
      }
    }
    NoTxtsLeft(records);
    count := (total + txt) % 0x1_0000;
  }

  lemma NoTxtsLeft(rs: seq<Record>)
    ensures TxtsOf(rs[|rs|..]) == []
  {
  }

  method AddList(buffer: array<byte>, data: nat, records: seq<Record>, rclass: uint16, ttl: uint32, table: StringTable)
    returns (end: Option<nat>)
    requires data <= buffer.Length && table.Valid() && AllValidRecords(records)
    requires rclass == CLASS_IN || rclass == CLASS_IN + CACHE_FLUSH
    modifies buffer, table, table.offset
    ensures table.Valid()
    ensures Matches(ListWritten(old(buffer[..]), data, records, rclass, ttl, old(table.State())),
                    end, buffer[..], table.State())
  {
    hide PlainWritten, TxtWritten, ValidRecord;
    end := AddRecords(buffer, data, records, rclass, ttl, table);
    if end.Some? {
      end := AddTxtRecord(buffer, end.value, records, rclass, ttl, table);
    }
  }

  /** `mdns_answer_multicast_rclass_ttl` up to the sending: the packet's size, or `None`. */
  method AnswerMulticast(buffer: array<byte>, answer: Record, authority: seq<Record>, additional: seq<Record>,
                         rclass: uint16, ttl: uint32)
    returns (tosend: Option<nat>)
    requires ValidRecord(answer) && AllValidRecords(authority) && AllValidRecords(additional)
    requires rclass == CLASS_IN || rclass == CLASS_IN + CACHE_FLUSH
    modifies buffer
    ensures match AnswerWritten(old(buffer[..]), answer, authority, additional, rclass, ttl)
            case None => tosend == None
            case Some(w) => tosend == Some(w.pos) && buffer[..] == w.b
  {
    hide PlainWritten, ListWritten, AnswerHeader, ValidRecord, RecordCount, U16, Spliced;
    if buffer.Length < HEADER_SIZE + 32 + 4 {
      return None;
    }
    var authorityCount := GetRecordCount(authority);
    var additionalCount := GetRecordCount(additional);
    var header := U16(0) + U16(0x8400) + U16(0) + U16(1) + U16(authorityCount) + U16(additionalCount);
    HeaderIs(authority, additional);
    WriteBytes(buffer, 0, header);
    var table := new StringTable();
    var data := AddRecords(buffer, HEADER_SIZE, [answer], rclass, ttl, table);
    if data.Some? {
      data := AddList(buffer, data.value, authority, rclass, ttl, table);
    }
    if data.Some? {
      data := AddList(buffer, data.value, additional, rclass, ttl, table);
    }
    tosend := data;
  }

  lemma HeaderIs(authority: seq<Record>, additional: seq<Record>)
    ensures AnswerHeader(authority, additional)
         == U16(0) + U16(0x8400) + U16(0) + U16(1) + U16(RecordCount(authority)) + U16(RecordCount(additional))
  {
  }
}
