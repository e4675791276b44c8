/** TXT records (RFC 6763, section 6): length-prefixed strings that hold a key and a value. */
module DnsTxt {
  import opened Bytes
  import opened DnsNames
  import opened Common
  import opened DnsPackets

  const EQUALS: byte := 61

  /** A key and, behind the first equals sign, its value. */
  datatype Entry = Entry(key: bytes, value: Option<bytes>)

  /** Printable ASCII; the source compares signed characters, so bytes from 128 on are not. */
  predicate Printable(c: byte)
  {
    0x20 <= c <= 0x7E
  }

  /** Where the key ends, looking from `c` on; 0 for a string to be skipped. */
  function Separator(s: bytes, c: nat): (r: nat)
    requires c <= |s|
    ensures r <= |s|
    decreases |s| - c
  {
    if c == |s| then |s| else if !Printable(s[c]) then 0 else if s[c] == EQUALS then c else Separator(s, c + 1)
  }

  function EntryOf(s: bytes): (e: Option<Entry>)
  {
    var separator := Separator(s, 0);
    if separator == 0 then None
    else if separator < |s| then Some(Entry(s[..separator], Some(s[separator + 1..])))
    else Some(Entry(s, None))
  }

  /** The entries of a record's data; it ends early where a string does not fit in it. */
  function ParsedTxt(d: bytes, capacity: nat): (es: seq<Entry>)
    decreases |d|
  {
    if d == [] || capacity == 0 || d[0] >= |d| then [] else
      var n := d[0];
      match EntryOf(d[1..n + 1])
      case None => ParsedTxt(d[n + 1..], capacity)
      case Some(e) => [e] + ParsedTxt(d[n + 1..], capacity - 1)
  }

  /** The loop over one string's characters. */
  method FindSeparator(buffer: array<byte>, strdata: nat, sublength: nat) returns (separator: nat)
    requires strdata + sublength <= buffer.Length
    ensures separator == Separator(buffer[strdata..strdata + sublength], 0)
  {
    ghost var s := buffer[strdata..strdata + sublength];
    for c := 0 to sublength
      invariant Separator(s, 0) == Separator(s, c)
    {
      if !Printable(buffer[strdata + c]) {
        return 0;
      }
      if buffer[strdata + c] == EQUALS {
        return c;
      }
    }
    return sublength;
  }

  /** The entry of one string, none for a string to be skipped. */
  method ParseString(buffer: array<byte>, strdata: nat, sublength: nat) returns (e: Option<Entry>)
    requires strdata + sublength <= buffer.Length
    ensures e == EntryOf(buffer[strdata..strdata + sublength])
  {
    hide Separator;
    var separator := FindSeparator(buffer, strdata, sublength);
    ghost var s := buffer[strdata..strdata + sublength];
    EntryIs(s, separator);
    if separator == 0 {
      return None;
    }
    assert s[..separator] == buffer[strdata..strdata + separator];
    if separator < sublength {
      assert s[separator + 1..] == buffer[strdata + separator + 1..strdata + sublength];
      e := Some(Entry(buffer[strdata..strdata + separator],
                      Some(buffer[strdata + separator + 1..strdata + sublength])));
    } else {
      e := Some(Entry(buffer[strdata..strdata + sublength], None));
    }
  }

  /** One string at the front of the data. */
  lemma ParsedStep(d: bytes, capacity: nat)
    requires d != [] && capacity > 0
    ensures d[0] >= |d| ==> ParsedTxt(d, capacity) == []
    ensures d[0] < |d| ==>
              var e := EntryOf(d[1..d[0] + 1]);
              ParsedTxt(d, capacity) == if e.None? then ParsedTxt(d[d[0] + 1..], capacity)
                                        else [e.value] + ParsedTxt(d[d[0] + 1..], capacity - 1)
  {
    hide EntryOf;
  }

  method RecordParseTxt(buffer: array<byte>, size: nat, offset0: nat, length: nat, capacity: nat)
    returns (records: seq<Entry>)
    requires offset0 <= size <= buffer.Length
    ensures records == ParsedTxt(buffer[offset0..if size < offset0 + length then size else offset0 + length], capacity)
  {
    hide ParsedTxt, EntryOf;
    var end := if size < offset0 + length then size else offset0 + length;
    var offset := offset0;
    records := [];
    while offset < end && |records| < capacity
      invariant offset0 <= offset <= end && |records| <= capacity
      invariant ParsedTxt(buffer[offset0..end], capacity)
            == records + ParsedTxt(buffer[offset..end], capacity - |records|)
      decreases end - offset
    {
      ghost var d, left := buffer[offset..end], capacity - |records|;
      ParsedStep(d, left);
      var sublength := buffer[offset];
      assert d[0] == sublength && |d| == end - offset;
      if sublength >= end - offset {
        return;
      }
      var strdata := offset + 1;
      offset := offset + sublength + 1;
      assert d[1..sublength + 1] == buffer[strdata..offset] && d[sublength + 1..] == buffer[offset..end];
      var e := ParseString(buffer, strdata, sublength);
      if e.Some? {
        records := records + [e.value];
      }
    }
    NothingParsed(buffer[offset..end], capacity - |records|);
  }

  lemma NothingParsed(d: bytes, capacity: nat)
    requires d == [] || capacity == 0
    ensures ParsedTxt(d, capacity) == []
  {
  }

  lemma EntryIs(s: bytes, separator: nat)
    requires separator == Separator(s, 0)
    ensures separator <= |s|
    ensures EntryOf(s) == if separator == 0 then None
                          else if separator < |s| then Some(Entry(s[..separator], Some(s[separator + 1..])))
                          else Some(Entry(s, None))
  {
  }

  // --- reading back what was written ---

  /** A string that keeps to the rules: a printable key without equals sign, in 255 bytes at most. */
  predicate Proper(key: bytes, value: bytes)
  {
    && key != [] && |key| + 1 + |value| <= 255
    && forall c :: 0 <= c < |key| ==> Printable(key[c]) && key[c] != EQUALS
  }

  /** The data of a TXT record for the given records. */
  function TxtData(ts: seq<Record>): (d: bytes)
    requires AllTxt(ts)
  {
    if ts == [] then [] else TxtBytes(ts[0]) + TxtData(ts[1..])
  }

  function Entries(ts: seq<Record>): (es: seq<Entry>)
    requires AllTxt(ts)
    ensures |es| == |ts|
  {
    if ts == [] then [] else [Entry(ts[0].data.key, Some(ts[0].data.value))] + Entries(ts[1..])
  }

  lemma {:induction false} SeparatorAt(s: bytes, c: nat, at: nat)
    requires c <= at < |s| && s[at] == EQUALS
    requires forall i :: c <= i < at ==> Printable(s[i]) && s[i] != EQUALS
    ensures Separator(s, c) == at
    decreases at - c
  {
    if c < at {
      SeparatorAt(s, c + 1, at);
    }
  }

  lemma ProperEntry(key: bytes, value: bytes)
    requires Proper(key, value)
    ensures EntryOf(key + [EQUALS] + value) == Some(Entry(key, Some(value)))
  {
    hide Separator;
    var s := key + [EQUALS] + value;
    SeparatorAt(s, 0, |key|);
    assert s[..|key|] == key && s[|key| + 1..] == value;
  }

  lemma {:induction false} ProperReadsBack(ts: seq<Record>, capacity: nat)
    requires AllTxt(ts) && |ts| <= capacity
    requires AllProper(ts)
    ensures ParsedTxt(TxtData(ts), capacity) == Entries(ts)
    decreases |ts|
  {
    hide EntryOf, Proper, TxtBytes, ParsedTxt;
    if ts == [] {
      NothingParsed([], capacity);
    } else {
      assert Proper(ts[0].data.key, ts[0].data.value);
      ProperReadsBack(ts[1..], capacity - 1);
      FirstString(ts[0], TxtData(ts[1..]));
      ProperEntry(ts[0].data.key, ts[0].data.value);
      ParsedStep(TxtData(ts), capacity);
    }
  }

  lemma FirstString(r: Record, rest: bytes)
    requires r.data.Txt? && Proper(r.data.key, r.data.value)
    ensures var d, n := TxtBytes(r) + rest, |r.data.key| + |r.data.value| + 1;
      d[0] == n < |d| && d[1..n + 1] == r.data.key + [EQUALS] + r.data.value && d[n + 1..] == rest
  {
  }

  /** Whatever comes out with a value keeps to the rules. */
  lemma {:induction false} SeparatorProper(s: bytes, c: nat)
    requires c <= |s| <= 255 && forall i :: 0 <= i < c ==> Printable(s[i]) && s[i] != EQUALS
    ensures var at := Separator(s, c); 0 < at < |s| ==> Proper(s[..at], s[at + 1..])
    decreases |s| - c
  {
    if c < |s| && Printable(s[c]) && s[c] != EQUALS {
      SeparatorProper(s, c + 1);
    }
  }

  lemma {:induction false} ParsedProper(d: bytes, capacity: nat)
    ensures forall i :: 0 <= i < |ParsedTxt(d, capacity)| && ParsedTxt(d, capacity)[i].value.Some? ==>
              Proper(ParsedTxt(d, capacity)[i].key, ParsedTxt(d, capacity)[i].value.value)
    decreases |d|
  {
    hide Separator, Proper;
    if d != [] && capacity > 0 && d[0] < |d| {
      var n := d[0];
      SeparatorProper(d[1..n + 1], 0);
      ParsedProper(d[n + 1..], capacity);
      ParsedProper(d[n + 1..], capacity - 1);
    }
  }

  lemma {:induction false} EntryAt(ts: seq<Record>, i: nat)
    requires AllTxt(ts) && i < |ts|
    ensures Entries(ts)[i] == Entry(ts[i].data.key, Some(ts[i].data.value))
  {
    if i > 0 {
      EntryAt(ts[1..], i - 1);
    }
  }

  ghost predicate AllProper(ts: seq<Record>)
    requires AllTxt(ts)
  {
    forall i :: 0 <= i < |ts| ==> Proper(ts[i].data.key, ts[i].data.value)
  }

  /** The keys and values written into a TXT record are read back exactly when every string keeps to
      the rules; a longer string gets the wrong length byte. */
  lemma TxtReadsBackIff(ts: seq<Record>, capacity: nat)
    requires AllTxt(ts) && |ts| <= capacity
    ensures ParsedTxt(TxtData(ts), capacity) == Entries(ts) <==> AllProper(ts)
  {
    hide ParsedTxt, Proper, TxtData, Entries;
    ParsedProper(TxtData(ts), capacity);
    forall i | 0 <= i < |ts| ensures Entries(ts)[i] == Entry(ts[i].data.key, Some(ts[i].data.value)) {
      EntryAt(ts, i);
    }
    if AllProper(ts) {
      ProperReadsBack(ts, capacity);
    }
  }
}
