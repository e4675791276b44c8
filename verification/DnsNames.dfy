/** Reading DNS names with compression (RFC 1035, section 4.1.4): length-prefixed labels,
    back pointers, and the zero byte that ends a name. */
module DnsNames {
  import opened Bytes
  import opened Common

  /** One label found in a packet: where its bytes are, and whether a pointer led there. */
  datatype Substring = Substring(offset: nat, length: nat, ref: bool)

  const MAX_SUBSTRINGS: nat := 64
  const MAX_REFS: nat := 16

  predicate IsStringRef(val: byte)
  {
    val >= 0xC0
  }

  /** The 14-bit target of the pointer at `offset`. */
  function RefTarget(b: bytes, offset: nat): (target: nat)
    requires offset + 2 <= |b|
  {
    (b[offset] as int * 256 + b[offset + 1] as int) % 0x4000
  }

  /** Follows pointers from `offset`, of which `followed` have been followed already. */
  function Deref(b: bytes, offset: nat, followed: nat): (r: Option<nat>)
    requires offset < |b| && followed <= MAX_REFS
    ensures r.Some? ==> r.value < |b| && !IsStringRef(b[r.value])
    decreases MAX_REFS - followed
  {
    if !IsStringRef(b[offset]) then Some(offset)
    else if |b| < offset + 2 || RefTarget(b, offset) >= |b| || followed + 1 > MAX_REFS then None
    else Deref(b, RefTarget(b, offset), followed + 1)
  }

  /** The label at `offset`; the zero byte is a label of length 0. */
  function NextSubstring(b: bytes, offset: nat): (r: Option<Substring>)
    ensures r.Some? ==> r.value.offset + r.value.length <= |b|
  {
    if offset >= |b| then None
    else if b[offset] == 0 then Some(Substring(offset, 0, false))
    else
      var at := Deref(b, offset, 0);
      if at.None? || |b| < at.value + 1 + b[at.value] then None
      else Some(Substring(at.value + 1, b[at.value], IsStringRef(b[offset])))
  }

  /** One pointer followed. */
  lemma DerefStep(b: bytes, cur: nat, followed: nat)
    requires cur < |b| && followed <= MAX_REFS && IsStringRef(b[cur])
    ensures Deref(b, cur, followed)
         == if |b| < cur + 2 || RefTarget(b, cur) >= |b| || followed + 1 > MAX_REFS then None
            else Deref(b, RefTarget(b, cur), followed + 1)
  {
  }

  method GetNextSubstring(buffer: array<byte>, size: nat, offset: nat) returns (pair: Option<Substring>)
    requires size <= buffer.Length
    ensures pair == NextSubstring(buffer[..size], offset)
  {
    ghost var b := buffer[..size];
    if offset >= size {
      return None;
    }
    if buffer[offset] == 0 {
      return Some(Substring(offset, 0, false));
    }
    hide Deref, RefTarget;
    var cur: nat := offset;
    var recursion: nat := 0;
    while IsStringRef(buffer[cur])
      invariant cur < size && recursion <= MAX_REFS
      invariant Deref(b, cur, recursion) == Deref(b, offset, 0)
      invariant recursion == 0 ==> cur == offset
      invariant recursion > 0 ==> IsStringRef(b[offset])
      decreases MAX_REFS - recursion
    {
      DerefStep(b, cur, recursion);
      if size < cur + 2 {
        return None;
      }
      var target := Target(buffer, size, cur);
      if target >= size {
        return None;
      }
      recursion := recursion + 1;
      if recursion > MAX_REFS {
        return None;
      }
      cur := target;
    }
    DerefEnds(b, cur, recursion);
    var length := buffer[cur];
    if size < cur + 1 + length {
      return None;
    }
    pair := Some(Substring(cur + 1, length, recursion > 0));
  }

  /** The low 14 bits of a pointer. */
  method Target(buffer: array<byte>, size: nat, cur: nat) returns (target: nat)
    requires cur + 2 <= size <= buffer.Length
    ensures target == RefTarget(buffer[..size], cur)
  {
    target := (buffer[cur] as int * 256 + buffer[cur + 1] as int) % 0x4000;
  }

  lemma DerefEnds(b: bytes, cur: nat, followed: nat)
    requires cur < |b| && followed <= MAX_REFS && !IsStringRef(b[cur])
    ensures Deref(b, cur, followed) == Some(cur)
  {
  }

  // --- skipping and extracting ---

  /** Where a name ends when its reading has come to `cur` after `counter` labels. */
  function SkipFrom(b: bytes, cur: nat, counter: nat): (r: Option<nat>)
    decreases MAX_SUBSTRINGS + 1 - counter
  {
    var sub := NextSubstring(b, cur);
    if sub.None? || counter > MAX_SUBSTRINGS then None
    else if sub.value.ref then Some(cur + 2)
    else if sub.value.length == 0 then Some(sub.value.offset + 1)
    else SkipFrom(b, sub.value.offset + sub.value.length, counter + 1)
  }

  method StringSkip(buffer: array<byte>, size: nat, offset: nat) returns (end: Option<nat>)
    requires size <= buffer.Length
    ensures end == SkipFrom(buffer[..size], offset, 0)
  {
    ghost var b := buffer[..size];
    var cur: nat := offset;
    var counter: nat := 0;
    while true
      invariant counter <= MAX_SUBSTRINGS + 1
      invariant SkipFrom(b, cur, counter) == SkipFrom(b, offset, 0)
      decreases MAX_SUBSTRINGS + 1 - counter
    {
      var substr := GetNextSubstring(buffer, size, cur);
      if substr.None? || counter > MAX_SUBSTRINGS {
        return None;
      }
      if substr.value.ref {
        return Some(cur + 2);
      }
      cur := substr.value.offset + substr.value.length;
      counter := counter + 1;
      if substr.value.length == 0 {
        return Some(cur + 1);
      }
    }
  }

  /** What an extraction yields: the text and the offset behind the name. */
  datatype Extracted = Extracted(text: bytes, end: nat)

  const DOT: byte := 46

  /** `lab` and a dot appended to `text`, cut off at `capacity`. */
  function AppendLabel(text: bytes, lab: bytes, capacity: nat): (r: bytes)
    requires |text| <= capacity
    ensures |r| <= capacity
  {
    var room := capacity - |text|;
    var copied := text + if |lab| < room then lab else lab[..room];
    if |copied| < capacity then copied + [DOT] else copied
  }

  function ExtractFrom(b: bytes, cur: nat, end: Option<nat>, text: bytes, capacity: nat, counter: nat)
    : (r: Option<Extracted>)
    requires |text| <= capacity
    decreases MAX_SUBSTRINGS + 1 - counter
  {
    var sub := NextSubstring(b, cur);
    if sub.None? || counter > MAX_SUBSTRINGS then None
    else
      var s := sub.value;
      var end' := if s.ref && end.None? then Some(cur + 2) else end;
      if s.length == 0 then
        Some(Extracted(text, if end'.Some? then end'.value else s.offset + 1))
      else
        var text' := AppendLabel(text, b[s.offset..s.offset + s.length], capacity);
        ExtractFrom(b, s.offset + s.length, end', text', capacity, counter + 1)
  }

  /** Copies one label and its dot as far as `capacity` allows. */
  method CopyLabel(buffer: array<byte>, from: nat, length: nat, str: bytes, capacity: nat) returns (r: bytes)
    requires from + length <= buffer.Length && |str| <= capacity
    ensures r == AppendLabel(str, buffer[from..from + length], capacity)
  {
    var remain := capacity - |str|;
    var toCopy := if length < remain then length else remain;
    assert buffer[from..from + length][..toCopy] == buffer[from..from + toCopy];
    r := str + buffer[from..from + toCopy];
    remain := remain - toCopy;
    if remain != 0 {
      r := r + [DOT];
    }
  }

  method StringExtract(buffer: array<byte>, size: nat, offset: nat, capacity: nat) returns (r: Option<Extracted>)
    requires size <= buffer.Length
    ensures r == ExtractFrom(buffer[..size], offset, None, [], capacity, 0)
  {
    hide NextSubstring, AppendLabel;
    ghost var b := buffer[..size];
    var cur: nat := offset;
    var end: Option<nat> := None;
    var str: bytes := [];
    var counter: nat := 0;
    while true
      invariant counter <= MAX_SUBSTRINGS + 1
      invariant |str| <= capacity
      invariant ExtractFrom(b, cur, end, str, capacity, counter) == ExtractFrom(b, offset, None, [], capacity, 0)
      decreases MAX_SUBSTRINGS + 1 - counter
    {
      var substr := GetNextSubstring(buffer, size, cur);
      if substr.None? || counter > MAX_SUBSTRINGS {
        return None;
      }
      var sub := substr.value;
      if sub.ref && end.None? {
        end := Some(cur + 2);
      }
      if sub.length != 0 {
        assert b[sub.offset..sub.offset + sub.length] == buffer[sub.offset..sub.offset + sub.length];
        str := CopyLabel(buffer, sub.offset, sub.length, str, capacity);
      }
      cur := sub.offset + sub.length;
      counter := counter + 1;
      if sub.length == 0 {
        if end.None? {
          end := Some(cur + 1);
        }
        return Some(Extracted(str, end.value));
      }
    }
  }

  // --- what a name means ---

  type Name = seq<bytes>

  /** The bytes at `offset` read as the name `ls`, through whatever pointers. */
  ghost predicate Reads(b: bytes, offset: nat, ls: Name)
    decreases |ls|
  {
    var sub := NextSubstring(b, offset);
    && sub.Some?
    && var s := sub.value;
    if ls == [] then s == Substring(offset, 0, false)
    else
      && s.length == |ls[0]| > 0
      && b[s.offset..s.offset + s.length] == ls[0]
      && Reads(b, s.offset + s.length, ls[1..])
  }

  /** Where a name ends in the packet: behind its first pointer or its zero byte. */
  ghost function EndOf(b: bytes, offset: nat, ls: Name): (end: nat)
    requires Reads(b, offset, ls)
    decreases |ls|
  {
    var s := NextSubstring(b, offset).value;
    if ls == [] then offset + 1
    else if s.ref then offset + 2
    else EndOf(b, s.offset + s.length, ls[1..])
  }

  /** A position reads as at most one name. */
  lemma {:induction false} ReadsUnique(b: bytes, offset: nat, a: Name, c: Name)
    requires Reads(b, offset, a) && Reads(b, offset, c)
    ensures a == c
    decreases |a|
  {
    if a != [] && c != [] {
      var s := NextSubstring(b, offset).value;
      ReadsUnique(b, s.offset + s.length, a[1..], c[1..]);
      assert a == [a[0]] + a[1..] && c == [c[0]] + c[1..];
    }
  }

  /** Every label followed by a dot. */
  function Dotted(ls: Name): (text: bytes)
  {
    if ls == [] then [] else ls[0] + [DOT] + Dotted(ls[1..])
  }

  /** Skipping a name of at most 64 labels lands exactly behind it. */
  lemma {:induction false} SkipReads(b: bytes, offset: nat, ls: Name, counter: nat)
    requires Reads(b, offset, ls) && counter + |ls| <= MAX_SUBSTRINGS
    ensures SkipFrom(b, offset, counter) == Some(EndOf(b, offset, ls))
    decreases |ls|
  {
    if ls != [] {
      var s := NextSubstring(b, offset).value;
      if !s.ref {
        SkipReads(b, s.offset + s.length, ls[1..], counter + 1);
      }
    }
  }

  function Cut(text: bytes, capacity: nat): (r: bytes)
  {
    if |text| <= capacity then text else text[..capacity]
  }

  lemma AppendDotted(text: bytes, ls: Name, capacity: nat)
    requires |text| <= capacity && ls != []
    ensures Cut(AppendLabel(text, ls[0], capacity) + Dotted(ls[1..]), capacity) == Cut(text + Dotted(ls), capacity)
  {
    var full := text + ls[0] + [DOT];
    var all := text + Dotted(ls);
    assert all == full + Dotted(ls[1..]);
    var next := AppendLabel(text, ls[0], capacity);
    if |full| <= capacity {
      assert next == full;
    } else {
      assert |next| == capacity;
      assert next == full[..capacity] == all[..capacity];
    }
  }

  /** Extracting a name of at most 64 labels yields its labels, each followed by a dot,
      cut off at the capacity, and the same end as skipping it. */
  lemma {:induction false} ExtractReads(b: bytes, offset: nat, ls: Name, end: Option<nat>, text: bytes, capacity: nat,
                                        counter: nat)
    requires Reads(b, offset, ls) && counter + |ls| <= MAX_SUBSTRINGS && |text| <= capacity
    ensures ExtractFrom(b, offset, end, text, capacity, counter)
         == Some(Extracted(Cut(text + Dotted(ls), capacity), if end.Some? then end.value else EndOf(b, offset, ls)))
    decreases |ls|
  {
    hide AppendLabel, NextSubstring;
    if ls == [] {
      assert text + Dotted(ls) == text;
    } else {
      var s := NextSubstring(b, offset).value;
      var end' := if s.ref && end.None? then Some(offset + 2) else end;
      assert b[s.offset..s.offset + s.length] == ls[0];
      AppendDotted(text, ls, capacity);
      ExtractReads(b, s.offset + s.length, ls[1..], end', AppendLabel(text, ls[0], capacity), capacity, counter + 1);
    }
  }

  // --- growing packets ---

  lemma {:induction false} DerefExtends(b: bytes, more: bytes, offset: nat, followed: nat)
    requires offset < |b| && followed <= MAX_REFS && Deref(b, offset, followed).Some?
    ensures Deref(b + more, offset, followed) == Deref(b, offset, followed)
    decreases MAX_REFS - followed
  {
    if IsStringRef(b[offset]) {
      DerefExtends(b, more, RefTarget(b, offset), followed + 1);
    }
  }

  lemma NextSubstringExtends(b: bytes, more: bytes, offset: nat)
    requires NextSubstring(b, offset).Some?
    ensures NextSubstring(b + more, offset) == NextSubstring(b, offset)
  {
    if b[offset] != 0 {
      DerefExtends(b, more, offset, 0);
    }
  }

  /** What reads as a name goes on doing so when the packet grows. */
  lemma {:induction false} ReadsExtends(b: bytes, more: bytes, offset: nat, ls: Name)
    requires Reads(b, offset, ls)
    ensures Reads(b + more, offset, ls)
    ensures EndOf(b + more, offset, ls) == EndOf(b, offset, ls)
    decreases |ls|
  {
    NextSubstringExtends(b, more, offset);
    if ls != [] {
      var s := NextSubstring(b, offset).value;
      assert (b + more)[s.offset..s.offset + s.length] == b[s.offset..s.offset + s.length];
      ReadsExtends(b, more, s.offset + s.length, ls[1..]);
    }
  }
}
