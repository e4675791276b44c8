/** Writing DNS names: a ring of 16 earlier label positions is searched for each suffix of
    the name, and the first suffix found there is written as a back pointer. */
module DnsNameWriter {
  import opened Bytes
  import opened DnsNames
  import opened Common

  const CAPACITY: nat := 16

  /** The string table: label positions, how many of the slots are in use, and which slot
      is overwritten next. */
  datatype Ring = Ring(offset: seq<nat>, count: nat, next: nat)

  ghost predicate RingOk(t: Ring)
  {
    && |t.offset| == CAPACITY && t.count <= CAPACITY && t.next < CAPACITY
    && (t.count < CAPACITY ==> t.next == t.count)
  }

  function Added(t: Ring, pos: nat): (t': Ring)
    requires RingOk(t)
    ensures RingOk(t')
  {
    Ring(t.offset[t.next := pos],
         if t.count + 1 > CAPACITY then CAPACITY else t.count + 1,
         if t.next + 1 >= CAPACITY then 0 else t.next + 1)
  }

  // --- dotted names ---

  function FindByte(str: bytes, c: byte, from: nat): (r: Option<nat>)
    ensures r.Some? ==> from <= r.value < |str| && str[r.value] == c && c !in str[from..r.value]
    ensures r.None? ==> from >= |str| || c !in str[from..]
    decreases |str| - from
  {
    if from >= |str| then None
    else if str[from] == c then Some(from)
    else FindByte(str, c, from + 1)
  }

  /** The labels of a dotted name; a dot at the very end opens no further label. */
  function LabelsOf(name: bytes): (ls: Name)
    decreases |name|
  {
    if name == [] then [] else
      var pos := FindByte(name, DOT, 0);
      if pos.None? then [name] else [name[..pos.value]] + LabelsOf(name[pos.value + 1..])
  }

  function WithoutFinalDot(name: bytes): (r: bytes)
  {
    if name != [] && name[|name| - 1] == DOT then name[..|name| - 1] else name
  }

  /** Labels joined by dots. */
  function Joined(ls: Name): (name: bytes)
  {
    if ls == [] then [] else if |ls| == 1 then ls[0] else ls[0] + [DOT] + Joined(ls[1..])
  }

  /** Labels as RFC 1035 section 3.1 has them: 1 to 63 bytes, no dots. */
  ghost predicate WellFormed(ls: Name)
  {
    forall l | l in ls :: 1 <= |l| <= 63 && DOT !in l
  }

  lemma FindByteIn(str: bytes, c: byte, from: nat, at: nat)
    requires from <= at < |str| && str[at] == c && c !in str[from..at]
    ensures FindByte(str, c, from) == Some(at)
    decreases at - from
  {
    if from < at {
      assert str[from] == str[from..at][0];
      assert str[from + 1..at] == str[from..at][1..];
      FindByteIn(str, c, from + 1, at);
    }
  }

  lemma FindByteNot(str: bytes, c: byte, from: nat)
    requires from > |str| || c !in str[from..]
    ensures FindByte(str, c, from) == None
    decreases |str| - from
  {
    if from < |str| {
      assert str[from] == str[from..][0];
      assert str[from + 1..] == str[from..][1..];
      FindByteNot(str, c, from + 1);
    }
  }

  /** Splitting undoes joining. */
  lemma {:induction false} LabelsOfJoined(ls: Name)
    requires WellFormed(ls)
    ensures LabelsOf(Joined(ls)) == ls
    decreases |ls|
  {
    if ls == [] {
    } else if |ls| == 1 {
      assert ls[0] in ls && ls == [ls[0]];
      assert ls[0][0..] == ls[0];
      FindByteNot(ls[0], DOT, 0);
    } else {
      assert ls[0] in ls;
      var name := Joined(ls);
      var n := |ls[0]|;
      assert name[0..n] == ls[0] && name[n] == DOT;
      FindByteIn(name, DOT, 0, n);
      assert name[n + 1..] == Joined(ls[1..]);
      LabelsOfJoined(ls[1..]);
      assert ls == [ls[0]] + ls[1..];
    }
  }

  // --- searching ---

  /** From `offset` on, the packet goes on with the labels `ls`, and perhaps more. */
  predicate GoesOnWith(b: bytes, offset: nat, ls: Name)
    decreases |ls|
  {
    if ls == [] then true else
      var sub := NextSubstring(b, offset);
      && sub.Some? && sub.value.length != 0 && sub.value.length == |ls[0]|
      && b[sub.value.offset..sub.value.offset + sub.value.length] == ls[0]
      && GoesOnWith(b, sub.value.offset + sub.value.length, ls[1..])
  }

  /** The position of the first slot from `i` on whose name starts with the labels `ls`. */
  function FoundFrom(b: bytes, t: Ring, ls: Name, i: nat): (r: Option<nat>)
    requires RingOk(t) && ls != []
    decreases t.count - i
  {
    if i >= t.count then None
    else if t.offset[i] < |b| && GoesOnWith(b, t.offset[i], ls) then Some(t.offset[i])
    else FoundFrom(b, t, ls, i + 1)
  }

  /** The search succeeds exactly when some slot matches, and then returns such a slot. */
  lemma {:induction false} FoundFromMeaning(b: bytes, t: Ring, ls: Name, i: nat)
    requires RingOk(t) && ls != []
    ensures var r := FoundFrom(b, t, ls, i);
            && (r.Some? ==> exists k :: i <= k < t.count && t.offset[k] == r.value < |b| && GoesOnWith(b, r.value, ls))
            && (r.None? ==> forall k :: i <= k < t.count && t.offset[k] < |b| ==> !GoesOnWith(b, t.offset[k], ls))
    decreases t.count - i
  {
    hide GoesOnWith;
    if i < t.count && !(t.offset[i] < |b| && GoesOnWith(b, t.offset[i], ls)) {
      FoundFromMeaning(b, t, ls, i + 1);
    }
  }

  // --- writing ---

  /** Packet, position behind what was written, and string table. */
  datatype Progress = Progress(b: bytes, pos: nat, table: Ring)

  function Spliced(b: bytes, pos: nat, s: bytes): (b': bytes)
    requires pos + |s| <= |b|
    ensures |b'| == |b|
  {
    b[..pos] + s + b[pos + |s|..]
  }

  function PointerBytes(target: nat): (s: bytes)
    ensures |s| == 2
  {
    var v := 0xC000 + target % 0x4000;
    [v / 256, v % 256]
  }

  /** What `mdns_string_make` leaves behind when it writes the labels `ls` at `pos`, or
      `None` when the packet has no room. */
  function Written(b: bytes, pos: nat, ls: Name, t: Ring): (r: Option<Progress>)
    requires pos <= |b| && RingOk(t)
    ensures r.Some? ==> |r.value.b| == |b| && pos < r.value.pos <= |b| && RingOk(r.value.table)
    decreases |ls|
  {
    if ls == [] then
      if pos == |b| then None else Some(Progress(Spliced(b, pos, [0]), pos + 1, t))
    else
      var found := FoundFrom(b, t, ls, 0);
      if found.Some? then
        if |b| - pos < 2 then None
        else Some(Progress(Spliced(b, pos, PointerBytes(found.value)), pos + 2, t))
      else if |b| - pos <= |ls[0]| + 1 then None
      else
        var b1 := Spliced(b, pos, [|ls[0]| % 256] + ls[0]);
        Written(b1, pos + |ls[0]| + 1, ls[1..], Added(t, pos))
  }

  // --- the writer ---

  class StringTable {
    const offset: array<nat>
    var count: nat
    var next: nat

    constructor ()
      ensures Valid() && fresh(offset) && State() == Ring(seq(CAPACITY, i => 0), 0, 0)
    {
      offset := new nat[CAPACITY](i => 0);
      count, next := 0, 0;
    }

    ghost function State(): Ring
      reads this, offset
    {
      Ring(offset[..], count, next)
    }

    ghost predicate Valid()
      reads this, offset
    {
      RingOk(State())
    }

    method Add(pos: nat)
      requires Valid()
      modifies this, offset
      ensures Valid() && State() == Added(old(State()), pos)
    {
      offset[next] := pos;
      count := count + 1;
      if count > CAPACITY {
        count := CAPACITY;
      }
      next := next + 1;
      if next >= CAPACITY {
        next := 0;
      }
    }

    method Find(buffer: array<byte>, str: bytes, firstLength: nat) returns (found: Option<nat>)
      requires Valid() && str != [] && firstLength == |LabelsOf(str)[0]|
      ensures found == FoundFrom(buffer[..], State(), LabelsOf(str), 0)
    {
      for istr := 0 to count
        invariant FoundFrom(buffer[..], State(), LabelsOf(str), istr)
              == FoundFrom(buffer[..], State(), LabelsOf(str), 0)
      {
        if offset[istr] < buffer.Length {
          var matches := MatchesEntry(buffer, offset[istr], str, firstLength);
          if matches {
            return Some(offset[istr]);
          }
        }
      }
      found := None;
    }
  }

  /** The labels of `str` from `offset` on. */
  function Rest(str: bytes, offset: nat): (ls: Name)
  {
    if offset >= |str| then [] else LabelsOf(str[offset..])
  }

  lemma Slices(s: bytes, i: nat, j: nat)
    requires i + j <= |s|
    ensures s[i..][j..] == s[i + j..] && s[i..][..j] == s[i..i + j] && s[i..][0..j] == s[i..i + j]
  {
  }

  /** Searching in a suffix finds what searching from its start finds. */
  lemma FindByteShift(str: bytes, offset: nat)
    requires offset <= |str|
    ensures var dot, inner := FindByte(str, DOT, offset), FindByte(str[offset..], DOT, 0);
            inner == if dot.Some? then Some(dot.value - offset) else None
  {
    hide FindByte;
    var dot := FindByte(str, DOT, offset);
    var tail := str[offset..];
    if dot.Some? {
      Slices(str, offset, dot.value - offset);
      FindByteIn(tail, DOT, 0, dot.value - offset);
    } else {
      assert tail[0..] == tail;
      FindByteNot(tail, DOT, 0);
    }
  }

  lemma RestUnfolds(str: bytes, offset: nat)
    requires offset < |str|
    ensures var dot := FindByte(str, DOT, offset);
            var dotPos := if dot.Some? then dot.value else |str|;
            Rest(str, offset) == [str[offset..dotPos]] + Rest(str, dotPos + 1)
  {
    hide FindByte;
    var dot := FindByte(str, DOT, offset);
    FindByteShift(str, offset);
    if dot.Some? {
      Slices(str, offset, dot.value - offset);
      Slices(str, offset, dot.value - offset + 1);
    } else {
      assert str[offset..|str|] == str[offset..];
    }
  }

  lemma RestBeyond(str: bytes, offset: nat)
    requires offset >= |str|
    ensures Rest(str, offset) == []
  {
  }

  lemma RestIs(str: bytes, offset: nat)
    requires offset < |str|
    ensures Rest(str, offset) == LabelsOf(str[offset..])
  {
  }

  lemma RestWhole(str: bytes)
    ensures Rest(str, 0) == LabelsOf(str)
  {
    assert str[0..] == str;
  }

  /** Whether the name at a table entry starts with all labels of `str`. */
  method MatchesEntry(buffer: array<byte>, entry: nat, str: bytes, firstLength: nat) returns (matches: bool)
    requires str != [] && firstLength == |LabelsOf(str)[0]|
    ensures matches == GoesOnWith(buffer[..], entry, LabelsOf(str))
  {
    hide NextSubstring, LabelsOf, FindByte, Rest;
    ghost var b := buffer[..];
    assert buffer[..buffer.Length] == b;
    RestWhole(str);
    RestUnfolds(str, 0);
    ghost var first := LabelsOf(str)[0];
    assert str[..firstLength] == first;
    var substring := GetNextSubstring(buffer, buffer.Length, entry);
    if substring.None? || substring.value.length == 0 || substring.value.length != firstLength {
      return false;
    }
    var sub := substring.value;
    assert b[sub.offset..sub.offset + sub.length] == buffer[sub.offset..sub.offset + sub.length];
    if buffer[sub.offset..sub.offset + sub.length] != str[..firstLength] {
      return false;
    }
    var offset := firstLength + 1;
    while offset < |str|
      invariant GoesOnWith(b, entry, LabelsOf(str)) == GoesOnWith(b, sub.offset + sub.length, Rest(str, offset))
      decreases |str| - offset
    {
      RestUnfolds(str, offset);
      var dot := FindByte(str, DOT, offset);
      var dotPos := if dot.Some? then dot.value else |str|;
      var currentLength := dotPos - offset;
      substring := GetNextSubstring(buffer, buffer.Length, sub.offset + sub.length);
      if substring.None? || substring.value.length == 0 || substring.value.length != currentLength {
        return false;
      }
      sub := substring.value;
      assert b[sub.offset..sub.offset + sub.length] == buffer[sub.offset..sub.offset + sub.length];
      if buffer[sub.offset..sub.offset + sub.length] != str[offset..dotPos] {
        return false;
      }
      offset := dotPos + 1;
    }
    RestBeyond(str, offset);
    matches := true;
  }

  method WriteBytes(buffer: array<byte>, pos: nat, s: bytes)
    requires pos + |s| <= buffer.Length
    modifies buffer
    ensures buffer[..] == Spliced(old(buffer[..]), pos, s)
  {
    for i := 0 to |s|
      invariant forall j :: 0 <= j < buffer.Length && !(pos <= j < pos + i) ==> buffer[j] == old(buffer[j])
      invariant forall j :: 0 <= j < i ==> buffer[pos + j] == s[j]
    {
      buffer[pos + i] := s[i];
    }
  }

  /** One round of writing a name that has labels left. */
  lemma WrittenUnfolds(b: bytes, pos: nat, ls: Name, t: Ring)
    requires pos <= |b| && RingOk(t)
    ensures ls == [] ==>
              Written(b, pos, ls, t) == if pos == |b| then None else Some(Progress(Spliced(b, pos, [0]), pos + 1, t))
    ensures ls != [] && FoundFrom(b, t, ls, 0).Some? ==>
              Written(b, pos, ls, t) == if |b| - pos < 2 then None
                else Some(Progress(Spliced(b, pos, PointerBytes(FoundFrom(b, t, ls, 0).value)), pos + 2, t))
    ensures ls != [] && FoundFrom(b, t, ls, 0).None? ==>
              Written(b, pos, ls, t) == if |b| - pos <= |ls[0]| + 1 then None
                else Written(Spliced(b, pos, [|ls[0]| % 256] + ls[0]), pos + |ls[0]| + 1, ls[1..], Added(t, pos))
  {
  }

  /** A length byte, the label, and its entry in the table. */
  method WriteLabel(buffer: array<byte>, pos: nat, lab: bytes, table: StringTable)
    requires pos + 1 + |lab| <= buffer.Length && table.Valid()
    modifies buffer, table, table.offset
    ensures table.Valid() && table.State() == Added(old(table.State()), pos)
    ensures buffer[..] == Spliced(old(buffer[..]), pos, [|lab| % 256] + lab)
  {
    WriteBytes(buffer, pos, [|lab| % 256] + lab);
    table.Add(pos);
  }

  /** A writer's outcome in the buffer: the position reached, packet and table; nothing is
      said about a packet that turned out too small. */
  ghost predicate Matches(r: Option<Progress>, end: Option<nat>, b: bytes, t: Ring)
  {
    match r
    case None => end == None
    case Some(w) => end == Some(w.pos) && b == w.b && t == w.table
  }

  /** `mdns_string_make`: the position behind the written name, or `None`. */
  method StringMake(buffer: array<byte>, data: nat, name: bytes, table: StringTable) returns (end: Option<nat>)
    requires data <= buffer.Length && name != [] && table.Valid()
    modifies buffer, table, table.offset
    ensures table.Valid()
    ensures Matches(Written(old(buffer[..]), data, LabelsOf(WithoutFinalDot(name)), old(table.State())),
                    end, buffer[..], table.State())
  {
    hide Written, FoundFrom, LabelsOf, FindByte, Rest, Spliced, Added, RingOk, PointerBytes;
    var length := if name[|name| - 1] == DOT then |name| - 1 else |name|;
    var str := name[..length];
    assert str == WithoutFinalDot(name);
    var pos: nat := data;
    var lastPos := 0;
    RestWhole(str);
    ghost var whole := Written(buffer[..], data, LabelsOf(str), table.State());
    while lastPos < length
      invariant table.Valid() && pos <= buffer.Length
      invariant Written(buffer[..], pos, Rest(str, lastPos), table.State()) == whole
      decreases length - lastPos
    {
      RestUnfolds(str, lastPos);
      RestIs(str, lastPos);
      WrittenUnfolds(buffer[..], pos, Rest(str, lastPos), table.State());
      var dot := FindByte(str, DOT, lastPos);
      var dotPos := if dot.Some? then dot.value else length;
      var subLength := dotPos - lastPos;
      var found := table.Find(buffer, str[lastPos..], subLength);
      if found.Some? {
        if buffer.Length - pos < 2 {
          return None;
        }
        WriteBytes(buffer, pos, PointerBytes(found.value));
        return Some(pos + 2);
      }
      if buffer.Length - pos <= subLength + 1 {
        return None;
      }
      WriteLabel(buffer, pos, str[lastPos..dotPos], table);
      pos := pos + subLength + 1;
      lastPos := dotPos + 1;
    }
    RestBeyond(str, lastPos);
    WrittenUnfolds(buffer[..], pos, [], table.State());
    if pos == buffer.Length {
      return None;
    }
    WriteBytes(buffer, pos, [0]);
    end := Some(pos + 1);
  }
}
