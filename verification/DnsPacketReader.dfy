/** Parsing the records of a received DNS packet. */
module DnsPacketReader {
  import opened Bytes
  import opened DnsNames
  import opened Common

  /** What the record callback is told: where name and data are, type, class, ttl. */
  datatype Report = Report(nameOffset: nat, nameLength: int, rtype: nat, rclass: nat, ttl: nat,
                           recordOffset: nat, recordLength: nat)

  /** Reports in order, and the offset reached. */
  datatype Parse = Parse(reports: seq<Report>, offset: nat)

  function N16(b: bytes, offset: nat): (v: nat)
    requires offset + 2 <= |b|
    ensures v < 0x1_0000
  {
    b[offset] as int * 256 + b[offset + 1] as int
  }

  function N32(b: bytes, offset: nat): (v: nat)
    requires offset + 4 <= |b|
  {
    N16(b, offset) * 0x1_0000 + N16(b, offset + 2)
  }

  /** The offset behind a name; a name that cannot be skipped leaves it where it is. */
  function Skipped(b: bytes, offset: nat): (end: nat)
  {
    var end := SkipFrom(b, offset, 0);
    if end.Some? then end.value else offset
  }

  /** The record at `offset`, unless the packet ends before its data. */
  function ReportAt(b: bytes, offset: nat): (r: Option<Report>)
  {
    var at := Skipped(b, offset);
    if at + 10 > |b| then None
    else Some(Report(offset, at - offset, N16(b, at), N16(b, at + 2), N32(b, at + 4), at + 10, N16(b, at + 8)))
  }

  /** `records` records from `offset` on, with a callback that never stops the parse. A
      record whose data does not fit is stepped over without a report. */
  function ParsedRecords(b: bytes, offset: nat, records: nat): (p: Parse)
    decreases records
  {
    if records == 0 then Parse([], offset) else
      match ReportAt(b, offset)
      case None => Parse([], Skipped(b, offset))
      case Some(r) =>
        var rest := ParsedRecords(b, r.recordOffset + r.recordLength, records - 1);
        Parse((if r.recordOffset + r.recordLength <= |b| then [r] else []) + rest.reports, rest.offset)
  }

  method ReadReport(buffer: array<byte>, size: nat, offset: nat) returns (r: Option<Report>, cur: nat)
    requires size <= buffer.Length
    ensures r == ReportAt(buffer[..size], offset) && cur == Skipped(buffer[..size], offset)
  {
    hide SkipFrom, N16;
    cur := offset;
    var end := StringSkip(buffer, size, cur);
    if end.Some? {
      cur := end.value;
    }
    if cur + 10 > size {
      return None, cur;
    }
    var rtype := Read16(buffer, size, cur);
    var rclass := Read16(buffer, size, cur + 2);
    var high := Read16(buffer, size, cur + 4);
    var low := Read16(buffer, size, cur + 6);
    var length := Read16(buffer, size, cur + 8);
    r := Some(Report(offset, cur - offset, rtype, rclass, high * 0x1_0000 + low, cur + 10, length));
  }

  lemma MoreReports(reports: seq<Report>, next: seq<Report>, rest: seq<Report>)
    ensures reports + (next + rest) == (reports + next) + rest
    ensures reports + [] == reports
  {
  }

  method RecordsParse(buffer: array<byte>, size: nat, offset: nat, records: nat) returns (p: Parse)
    requires size <= buffer.Length
    ensures p == ParsedRecords(buffer[..size], offset, records)
  {
    hide ReportAt, Skipped;
    ghost var b := buffer[..size];
    var cur: nat := offset;
    var reports: seq<Report> := [];
    ghost var rest := ParsedRecords(b, cur, records);
    for i := 0 to records
      invariant rest == ParsedRecords(b, cur, records - i)
      invariant ParsedRecords(b, offset, records) == Parse(reports + rest.reports, rest.offset)
    {
      var next, at := ReadReport(buffer, size, cur);
      if next.None? {
        MoreReports(reports, [], []);
        return Parse(reports, at);
      }
      var r := next.value;
      cur := r.recordOffset + r.recordLength;
      rest := ParsedRecords(b, cur, records - i - 1);
      var fitting := if cur <= size then [r] else [];
      MoreReports(reports, fitting, rest.reports);
      reports := reports + fitting;
    }
    MoreReports(reports, [], []);
    p := Parse(reports, cur);
  }

  method Read16(buffer: array<byte>, size: nat, offset: nat) returns (v: nat)
    requires offset + 2 <= size <= buffer.Length
    ensures v == N16(buffer[..size], offset)
  {
    v := buffer[offset] as int * 256 + buffer[offset + 1] as int;
  }

  // --- a whole response ---

  /** The questions are skipped: their names, types and classes. */
  function AfterQuestions(b: bytes, offset: nat, questions: nat): (r: Option<nat>)
    decreases questions
  {
    if questions == 0 then Some(offset) else
      var end := SkipFrom(b, offset, 0);
      if end.None? then None else AfterQuestions(b, end.value + 4, questions - 1)
  }

  /** All reports of a packet: answers, then authority, then additional records; a section
      that yields fewer reports than its count ends the parse. */
  function ResponseReports(b: bytes): (reports: seq<Report>)
  {
    if |b| < 12 then [] else
      var start := AfterQuestions(b, 12, N16(b, 4));
      if start.None? then [] else
        var answers := ParsedRecords(b, start.value, N16(b, 6));
        if |answers.reports| != N16(b, 6) then answers.reports else
          var authority := ParsedRecords(b, answers.offset, N16(b, 8));
          if |authority.reports| != N16(b, 8) then answers.reports + authority.reports else
            answers.reports + authority.reports + ParsedRecords(b, authority.offset, N16(b, 10)).reports
  }

  /** `mdns_query_recv` on the bytes received, without a query id to match. */
  method QueryReceive(buffer: array<byte>, size: nat) returns (reports: seq<Report>)
    requires 12 <= size <= buffer.Length
    ensures reports == ResponseReports(buffer[..size])
  {
    hide SkipFrom, ParsedRecords, N16;
    ghost var b := buffer[..size];
    var questions := Read16(buffer, size, 4);
    var answerCount := Read16(buffer, size, 6);
    var authorityCount := Read16(buffer, size, 8);
    var additionalCount := Read16(buffer, size, 10);
    var offset: nat := 12;
    for i := 0 to questions
      invariant AfterQuestions(b, offset, questions - i) == AfterQuestions(b, 12, questions)
    {
      var end := StringSkip(buffer, size, offset);
      if end.None? {
        return [];
      }
      offset := end.value + 4;
    }
    var answers := RecordsParse(buffer, size, offset, answerCount);
    if |answers.reports| != answerCount {
      return answers.reports;
    }
    var authority := RecordsParse(buffer, size, answers.offset, authorityCount);
    if |authority.reports| != authorityCount {
      return answers.reports + authority.reports;
    }
    var additional := RecordsParse(buffer, size, authority.offset, additionalCount);
    reports := answers.reports + authority.reports + additional.reports;
  }

  // --- record data ---

  /** A PTR record's target name, empty when the record is malformed. */
  function ParsedPtr(b: bytes, r: Report, capacity: nat): (name: bytes)
  {
    if |b| >= r.recordOffset + r.recordLength && r.recordLength >= 2 then
      TextAt(b, r.recordOffset, capacity)
    else []
  }

  function TextAt(b: bytes, offset: nat, capacity: nat): (text: bytes)
  {
    var x := ExtractFrom(b, offset, None, [], capacity, 0);
    if x.Some? then x.value.text else []
  }

  datatype Service = Service(priority: nat, weight: nat, port: nat, name: bytes)

  function ParsedSrv(b: bytes, r: Report, capacity: nat): (s: Service)
  {
    if |b| >= r.recordOffset + r.recordLength && r.recordLength >= 8 then
      Service(N16(b, r.recordOffset), N16(b, r.recordOffset + 2), N16(b, r.recordOffset + 4),
              TextAt(b, r.recordOffset + 6, capacity))
    else Service(0, 0, 0, [])
  }

  /** An address of `size` bytes; `None` leaves the caller's zeroed address. */
  function ParsedAddress(b: bytes, r: Report, size: nat): (addr: Option<bytes>)
  {
    if |b| >= r.recordOffset + r.recordLength && r.recordLength == size then
      Some(b[r.recordOffset..r.recordOffset + size])
    else None
  }
}
