/** Names and their tables as they stand in a packet, byte for byte (sections 3.1 and 4.1 of RFC 1035). */
module DnsWire {
  import opened Bytes
  import opened Common
  import opened DnsNames
  import opened DnsNameEqual
  import opened DnsNameWriter
  import opened DnsNameRoundTrip
  import opened DnsPieces
  import opened DnsPackets
  import opened DnsPacketReader
  import opened DnsTxt

  // --- reading ---

  /** `k` pointers, one after the other, lead from `offset` to the label at `at`. A pointer has its two
      highest bits set, and the position in the other fourteen. */
  predicate Chain(b: bytes, offset: nat, k: nat, at: nat): (c: bool)
    ensures c ==> offset < |b| && at < |b|
    decreases k
  {
    if k == 0 then offset == at < |b| && b[at] < 0xC0
    else
      && offset + 1 < |b| && b[offset] >= 0xC0
      && Chain(b, (b[offset] as int - 0xC0) * 0x100 + b[offset + 1] as int, k - 1, at)
  }

  lemma {:induction false} DerefChains(b: bytes, offset: nat, followed: nat) returns (k: nat)
    requires offset < |b| && followed <= MAX_REFS && Deref(b, offset, followed).Some?
    ensures followed + k <= 16 && Chain(b, offset, k, Deref(b, offset, followed).value)
    decreases MAX_REFS - followed
  {
    k := 0;
    if IsStringRef(b[offset]) {
      PointerTarget(b, offset);
      var rest := DerefChains(b, RefTarget(b, offset), followed + 1);
      k := rest + 1;
    }
  }

  lemma {:induction false} ChainDerefs(b: bytes, offset: nat, k: nat, at: nat, followed: nat)
    requires Chain(b, offset, k, at) && followed + k <= 16
    ensures Deref(b, offset, followed) == Some(at)
    decreases k
  {
    if k > 0 {
      PointerTarget(b, offset);
      ChainDerefs(b, RefTarget(b, offset), k - 1, at, followed + 1);
    }
  }

  lemma PointerTarget(b: bytes, offset: nat)
    requires offset < |b| && IsStringRef(b[offset])
    ensures offset + 2 <= |b| ==> RefTarget(b, offset) == (b[offset] as int - 0xC0) * 0x100 + b[offset + 1] as int
  {
  }

  /** The label at the end of a chain, and whether there are pointers in it. */
  predicate LabelThrough(b: bytes, offset: nat, k: nat, at: nat, s: Substring)
  {
    Chain(b, offset, k, at) && at + 1 + b[at] <= |b| && s == Substring(at + 1, b[at], k > 0)
  }

  /** A label is found, where it stands or through up to sixteen pointers, if and only if it fits in the
      packet; a zero byte is the end of a name. */
  lemma LabelFoundIff(b: bytes, offset: nat, s: Substring)
    ensures NextSubstring(b, offset) == Some(s) <==>
              if offset < |b| && b[offset] == 0 then s == Substring(offset, 0, false)
              else exists k: nat, at: nat :: k <= 16 && LabelThrough(b, offset, k, at, s)
  {
    hide Deref;
    if offset < |b| && b[offset] != 0 {
      if NextSubstring(b, offset) == Some(s) {
        var k := DerefChains(b, offset, 0);
        assert k > 0 <==> IsStringRef(b[offset]);
        assert LabelThrough(b, offset, k, Deref(b, offset, 0).value, s);
      }
      if k: nat, at: nat :| k <= 16 && LabelThrough(b, offset, k, at, s) {
        ChainDerefs(b, offset, k, at, 0);
        assert k > 0 <==> IsStringRef(b[offset]);
      }
    }
  }

  /** A name is extracted if and only if it has at most 64 labels. */
  lemma {:induction false} ExtractedIff(b: bytes, offset: nat, ls: Name, end: Option<nat>, text: bytes, capacity: nat,
                                        counter: nat)
    requires Reads(b, offset, ls) && |text| <= capacity && counter <= 65
    ensures ExtractFrom(b, offset, end, text, capacity, counter).Some? <==> counter + |ls| <= 64
    decreases |ls|
  {
    hide NextSubstring, AppendLabel;
    if ls != [] && counter <= 64 {
      var s := NextSubstring(b, offset).value;
      var end' := if s.ref && end.None? then Some(offset + 2) else end;
      ExtractedIff(b, s.offset + s.length, ls[1..], end', AppendLabel(text, ls[0], capacity), capacity, counter + 1);
    }
  }

  /** How many labels of a name stand before its first pointer. */
  ghost function LabelsBefore(b: bytes, offset: nat, ls: Name): (n: nat)
    requires Reads(b, offset, ls)
    decreases |ls|
  {
    var s := NextSubstring(b, offset).value;
    if ls == [] || s.ref then 0 else 1 + LabelsBefore(b, s.offset + s.length, ls[1..])
  }

  /** A name is skipped if and only if at most 64 labels stand before its first pointer. */
  lemma {:induction false} SkippedIff(b: bytes, offset: nat, ls: Name, counter: nat)
    requires Reads(b, offset, ls) && counter <= 65
    ensures SkipFrom(b, offset, counter).Some? <==> counter + LabelsBefore(b, offset, ls) <= 64
    decreases |ls|
  {
    hide NextSubstring;
    if ls != [] && counter <= 64 && !NextSubstring(b, offset).value.ref {
      var s := NextSubstring(b, offset).value;
      SkippedIff(b, s.offset + s.length, ls[1..], counter + 1);
    }
  }

  /** Questions one after the other: a name, and four bytes for type and class. */
  ghost predicate QuestionsAt(b: bytes, offset: nat, names: seq<Name>, end: nat)
    decreases |names|
  {
    if names == [] then offset == end
    else
      && Reads(b, offset, names[0]) && |names[0]| <= 64
      && QuestionsAt(b, EndOf(b, offset, names[0]) + 4, names[1..], end)
  }

  /** The records are looked for right behind the questions. */
  lemma {:induction false} QuestionsSkipped(b: bytes, offset: nat, names: seq<Name>, end: nat)
    requires QuestionsAt(b, offset, names, end)
    ensures AfterQuestions(b, offset, |names|) == Some(end)
    decreases |names|
  {
    hide SkipFrom, Reads, EndOf;
    if names != [] {
      SkipReads(b, offset, names[0], 0);
      QuestionsSkipped(b, EndOf(b, offset, names[0]) + 4, names[1..], end);
    }
  }

  /** Data that does not fit in the packet, or is too short or of another size than its kind has, is read as
      nothing. */
  lemma MalformedData(b: bytes, r: Report, capacity: nat)
    ensures var short := |b| < r.recordOffset + r.recordLength;
      && (short || r.recordLength < 2 ==> ParsedPtr(b, r, capacity) == [])
      && (short || r.recordLength < 8 ==> ParsedSrv(b, r, capacity) == Service(0, 0, 0, []))
      && (short || r.recordLength != 4 ==> ParsedAddress(b, r, 4) == None)
      && (short || r.recordLength != 16 ==> ParsedAddress(b, r, 16) == None)
  {
  }

  // --- dots and letters ---

  /** In text, labels end with a dot; a name may have one at its end or not. */
  lemma DotsSeparate(l: bytes, ls: Name, name: bytes)
    ensures Dotted([l] + ls) == l + ['.' as int] + Dotted(ls)
    ensures name != [] && name[|name| - 1] != '.' as int ==> NameOf(name + ['.' as int]) == NameOf(name)
    ensures ls != [] ==> Joined([l] + ls) == l + ['.' as int] + Joined(ls)
    ensures '.' as int !in l ==> LabelsOf(l + ['.' as int] + name) == [l] + LabelsOf(name)
  {
    assert ([l] + ls)[0] == l && ([l] + ls)[1..] == ls;
    assert (name + ['.' as int])[..|name|] == name;
    var text := l + ['.' as int] + name;
    if '.' as int !in l {
      assert text[0..|l|] == l;
      FindByteIn(text, '.' as int, 0, |l|);
      assert text[..|l|] == l && text[|l| + 1..] == name;
    }
  }

  /** Bytes are compared as letters: equal, or the same letter once as a capital and once not. */
  lemma SameLetterIff(a: byte, c: byte)
    ensures Lower(a) == Lower(c) <==>
              || a == c
              || ('A' as int <= a <= 'Z' as int && c as int - a as int == 'a' as int - 'A' as int)
              || ('A' as int <= c <= 'Z' as int && a as int - c as int == 'a' as int - 'A' as int)
  {
  }

  // --- writing ---

  /** A name without pointers: every label behind its length, and a zero byte. */
  function WireOf(ls: Name): (s: bytes)
    requires WellFormed(ls)
  {
    if ls == [] then [0] else
      assert ls[0] in ls && forall l | l in ls[1..] :: l in ls;
      [|ls[0]|] + ls[0] + WireOf(ls[1..])
  }

  /** An entry before `pos`: the label behind its length. */
  predicate EntryBefore(b: bytes, e: nat, pos: nat, ls: Name)
  {
    e < pos <= |b| && 0 < b[e] < 0xC0 && e + 1 + b[e] <= pos && b[e + 1..e + 1 + b[e]] !in ls
  }

  /** All entries stand before `pos` and start with a label that is not in `ls`. */
  predicate OtherLabels(b: bytes, pos: nat, t: Ring, ls: Name)
    requires RingOk(t)
  {
    forall k :: 0 <= k < t.count ==> EntryBefore(b, t.offset[k], pos, ls)
  }

  lemma {:induction false} NothingFound(b: bytes, pos: nat, t: Ring, ls: Name, i: nat)
    requires RingOk(t) && ls != [] && OtherLabels(b, pos, t, ls)
    ensures FoundFrom(b, t, ls, i).None?
    decreases t.count - i
  {
    if i < t.count {
      NothingFound(b, pos, t, ls, i + 1);
      assert NextSubstring(b, t.offset[i]) == Some(Substring(t.offset[i] + 1, b[t.offset[i]], false));
    }
  }

  lemma EntryStays(b: bytes, b1: bytes, e: nat, pos: nat, end: nat, ls: Name)
    requires EntryBefore(b, e, pos, ls) && ls != [] && pos <= end <= |b1| == |b| && b1[..pos] == b[..pos]
    ensures EntryBefore(b1, e, end, ls[1..])
  {
    assert b1[e] == b1[..pos][e] == b[e];
    var stop := e + 1 + b[e];
    assert b1[e + 1..stop] == b1[..pos][e + 1..stop] == b[..pos][e + 1..stop] == b[e + 1..stop];
  }

  lemma NewEntry(b1: bytes, pos: nat, ls: Name)
    requires ls != [] && WellFormed(ls) && Distinct(ls) && pos + |ls[0]| + 1 <= |b1|
    requires b1[pos..pos + |ls[0]| + 1] == [|ls[0]| % 256] + ls[0]
    ensures |ls[0]| % 256 == |ls[0]| && EntryBefore(b1, pos, pos + |ls[0]| + 1, ls[1..])
  {
    assert ls[0] in ls && ls[0] !in ls[1..];
    var s := b1[pos..pos + |ls[0]| + 1];
    assert b1[pos] == s[0] && b1[pos + 1..pos + |ls[0]| + 1] == s[1..] == ls[0];
  }

  lemma OneMoreLabel(b: bytes, pos: nat, ls: Name, t: Ring)
    requires pos <= |b| && RingOk(t) && WellFormed(ls) && Distinct(ls) && ls != [] && OtherLabels(b, pos, t, ls)
    requires pos + |ls[0]| + 1 <= |b|
    ensures |ls[0]| % 256 == |ls[0]|
    ensures var b1, end := Spliced(b, pos, [|ls[0]| % 256] + ls[0]), pos + |ls[0]| + 1;
      && OtherLabels(b1, end, Added(t, pos), ls[1..])
      && b1[..end] == b[..pos] + ([|ls[0]|] + ls[0])
  {
    hide EntryBefore, WellFormed, Distinct;
    var b1, t1, end := Spliced(b, pos, [|ls[0]| % 256] + ls[0]), Added(t, pos), pos + |ls[0]| + 1;
    assert b1[..pos] == b[..pos] && b1[pos..end] == [|ls[0]| % 256] + ls[0];
    NewEntry(b1, pos, ls);
    forall k | 0 <= k < t1.count ensures EntryBefore(b1, t1.offset[k], end, ls[1..]) {
      if k != t.next {
        assert t.offset[k] == t1.offset[k] && EntryBefore(b, t.offset[k], pos, ls);
        EntryStays(b, b1, t.offset[k], pos, end, ls);
      }
    }
  }

  /** The first name of a packet, with no label twice, is written without pointers. */
  lemma {:induction false} FirstNameBytes(b: bytes, pos: nat, ls: Name, t: Ring)
    requires pos <= |b| && RingOk(t) && WellFormed(ls) && Distinct(ls) && OtherLabels(b, pos, t, ls)
    requires Written(b, pos, ls, t).Some?
    ensures var w := Written(b, pos, ls, t).value;
      w.b[..w.pos] == b[..pos] + WireOf(ls)
    decreases |ls|
  {
    hide FoundFrom, Added, RingOk, OtherLabels, Spliced, Written;
    WrittenUnfolds(b, pos, ls, t);
    if ls == [] {
      ZeroByte(b, pos);
    } else {
      NothingFound(b, pos, t, ls, 0);
      OneMoreLabel(b, pos, ls, t);
      var lab := [|ls[0]|] + ls[0];
      FirstNameBytes(Spliced(b, pos, lab), pos + |ls[0]| + 1, ls[1..], Added(t, pos));
      assert WireOf(ls) == lab + WireOf(ls[1..]);
      assert b[..pos] + lab + WireOf(ls[1..]) == b[..pos] + (lab + WireOf(ls[1..]));
    }
  }

  lemma ZeroByte(b: bytes, pos: nat)
    requires pos < |b|
    ensures Spliced(b, pos, [0])[..pos + 1] == b[..pos] + [0]
  {
  }

  /** Such a name is written if and only if there is room for all of it. */
  lemma {:induction false} FitsIff(b: bytes, pos: nat, ls: Name, t: Ring)
    requires pos <= |b| && RingOk(t) && WellFormed(ls) && Distinct(ls) && OtherLabels(b, pos, t, ls)
    ensures Written(b, pos, ls, t).Some? <==> pos + |WireOf(ls)| <= |b|
    decreases |ls|
  {
    hide FoundFrom, Added, RingOk, OtherLabels, Spliced, Written;
    WrittenUnfolds(b, pos, ls, t);
    if ls != [] {
      NothingFound(b, pos, t, ls, 0);
      WireSize(ls[1..]);
      if pos + |ls[0]| + 1 < |b| {
        OneMoreLabel(b, pos, ls, t);
        FitsIff(Spliced(b, pos, [|ls[0]|] + ls[0]), pos + |ls[0]| + 1, ls[1..], Added(t, pos));
      }
    }
  }

  lemma WireSize(ls: Name)
    requires WellFormed(ls)
    ensures |WireOf(ls)| >= 1
  {
  }

  /** The first name of a packet: it is written, as its labels, if and only if there is room. */
  lemma FirstName(b: bytes, pos: nat, ls: Name)
    requires pos <= |b| && WellFormed(ls) && Distinct(ls)
    ensures var w := Written(b, pos, ls, NewRing());
      && (w.Some? <==> pos + |WireOf(ls)| <= |b|)
      && (w.Some? ==> w.value.b[..w.value.pos] == b[..pos] + WireOf(ls))
  {
    hide Written, WireOf;
    NewTable(b, pos, ls);
    FitsIff(b, pos, ls, NewRing());
    if Written(b, pos, ls, NewRing()).Some? {
      FirstNameBytes(b, pos, ls, NewRing());
    }
  }

  lemma NewTable(b: bytes, pos: nat, ls: Name)
    ensures OtherLabels(b, pos, NewRing(), ls)
  {
  }

  /** Bytes are written if and only if there is room for them. */
  lemma RawFitsIff(b: bytes, pos: nat, s: bytes, t: Ring)
    requires pos <= |b| && RingOk(t)
    ensures RawWritten(b, pos, s, t).Some? <==> pos + |s| <= |b|
  {
  }

  /** A pointer: the two highest bits set, and the position in the others, high byte first. */
  lemma PointerIs(target: nat)
    requires target < 0x4000
    ensures PointerBytes(target) == [0xC0 + target / 0x100, target % 0x100]
  {
  }

  // --- the table ---

  function AddAll(t: Ring, ps: seq<nat>): (r: Ring)
    requires RingOk(t)
    ensures RingOk(r)
  {
    if ps == [] then t else Added(AddAll(t, ps[..|ps| - 1]), ps[|ps| - 1])
  }

  /** The table knows exactly the last sixteen positions. */
  lemma {:induction false} LastSixteen(ps: seq<nat>)
    ensures var t := AddAll(NewRing(), ps);
      && t.count == (if |ps| < 16 then |ps| else 16) && t.next == |ps| % 16
      && forall i :: 0 <= i < |ps| && |ps| - 16 <= i ==> t.offset[i % 16] == ps[i]
    decreases |ps|
  {
    if ps != [] {
      var front, last := ps[..|ps| - 1], |ps| - 1;
      LastSixteen(front);
      var before, t := AddAll(NewRing(), front), AddAll(NewRing(), ps);
      NextSlot(last);
      forall i | 0 <= i < |ps| && |ps| - 16 <= i ensures t.offset[i % 16] == ps[i] {
        if i < last {
          OtherSlot(i, last);
          assert before.offset[i % 16] == front[i];
        }
      }
    }
  }

  lemma NextSlot(n: nat)
    ensures (n + 1) % 16 == if n % 16 == 15 then 0 else n % 16 + 1
  {
  }

  lemma OtherSlot(i: nat, n: nat)
    requires i < n < i + 16
    ensures i % 16 != n % 16
  {
  }

  // --- TXT strings and sizes ---

  /** A string: its length in eight bits, the key, an equals sign, and the value. */
  lemma TxtStringBytes(r: Record)
    requires r.data.Txt?
    ensures var n := |r.data.key| + 1 + |r.data.value|;
      n < 0x100 ==> TxtBytes(r) == [n] + r.data.key + ['=' as int] + r.data.value
  {
  }

  /** A key takes part in the comparison as far as it is printable. */
  lemma PrintableIff(c: byte)
    ensures Printable(c) <==> ' ' as int <= c <= '~' as int
  {
  }

  /** An answer is built only where there is room for 48 bytes, and only from strings
      of less than 0x4000 bytes. */
  lemma AnswerNeeds(b: bytes, answer: Record, authority: seq<Record>, additional: seq<Record>, rclass: uint16,
                    ttl: uint32, r: Record)
    requires rclass == 1 || rclass == 0x8001
    requires AnswerWritten(b, answer, authority, additional, rclass, ttl).Some?
    ensures |b| >= 48
    ensures r.data.Txt? && (r in authority || r in additional) ==> |r.data.key| + 1 + |r.data.value| < 0x4000
  {
    hide PlainWritten, RecordWritten, AnswerHeader;
    if r.data.Txt? && r in authority {
      TxtIn(authority, r);
    }
    if r.data.Txt? && r in additional {
      TxtIn(additional, r);
    }
  }

  /** Room for 48 bytes is enough for an answer that is short enough. */
  lemma ShortAnswerFits(b: bytes, letter: byte, addr: bytes, rclass: uint16, ttl: uint32)
    requires rclass == 1 || rclass == 0x8001
    requires |b| >= 48 && |addr| == 4 && letter != '.' as int
    ensures AnswerWritten(b, Record([letter], A(addr), 0, 0), [], [], rclass, ttl).Some?
  {
    hide Fixed, Spliced, AnswerHeader, Updated;
    var r := Updated(Record([letter], A(addr), 0, 0), rclass, ttl);
    var start := Spliced(b, 0, AnswerHeader([], []));
    UpdatedKeeps(Record([letter], A(addr), 0, 0), rclass, ttl);
    assert NameOf([letter]) == [[letter]] by {
      OneLabel(letter);
    }
    ShortNameFits(start, 12, [letter], NewRing());
    TwoPieces(start, 12, Named([[letter]]), Raw(Fixed(r, 0)), NewRing());
    var head := PiecesWritten(start, 12, HeadPieces(r, 0), NewRing()).value;
    TwoPieces(head.b, head.pos, Raw(addr), Raw([]), head.table);
    assert RecordWritten(start, 12, r, DataPieces(A(addr)), NewRing()).Some?;
    var record := Record([letter], A(addr), 0, 0);
    assert [record][0] == record && [record][1..] == [];
    var w := RecordWritten(start, 12, r, DataPieces(A(addr)), NewRing()).value;
    assert PlainWritten(start, 12, [record], rclass, ttl, NewRing()) == Some(w);
    NothingMore(w.b, w.pos, rclass, ttl, w.table);
  }

  lemma NothingMore(b: bytes, pos: nat, rclass: uint16, ttl: uint32, t: Ring)
    requires rclass == 1 || rclass == 0x8001
    requires pos <= |b| && RingOk(t)
    ensures ListWritten(b, pos, [], rclass, ttl, t) == Some(Progress(b, pos, t))
  {
    assert TxtsOf([]) == [];
  }

  lemma OneLabel(letter: byte)
    requires letter != '.' as int
    ensures NameOf([letter]) == [[letter]]
  {
    assert FindByte([letter], DOT, 0) == FindByte([letter], DOT, 1);
  }

  lemma ShortNameFits(b: bytes, pos: nat, lab: bytes, t: Ring)
    requires RingOk(t) && t.count == 0 && pos + |lab| + 2 <= |b|
    ensures var w := Written(b, pos, [lab], t); w.Some? && w.value.pos == pos + |lab| + 2
  {
    WrittenUnfolds(b, pos, [lab], t);
    assert [lab][1..] == [];
    var b1 := Spliced(b, pos, [|lab| % 256] + lab);
    WrittenUnfolds(b1, pos + |lab| + 1, [], Added(t, pos));
  }

  lemma {:induction false} TxtIn(rs: seq<Record>, r: Record)
    requires r in rs && r.data.Txt?
    ensures r in TxtsOf(rs)
    decreases |rs|
  {
    if rs[0] != r {
      TxtIn(rs[1..], r);
    }
  }
}
