/** The binary property-list writer: records are prepended to the object table, positions
    are stored as distances from the table's end, references are handed out downwards. */
module PlistWriter {
  import opened Bytes
  import opened PlistCodec

  /** A property-list value. `Real` holds the host's little-endian pattern of a double,
      `Date` the big-endian pattern of seconds since the Apple epoch. A dictionary lists
      its keys in map order beside the values they have. */
  datatype Value =
    | Bool(b: bool)
    | Int(i: int64)
    | Real(pattern: bytes)
    | Date(stamp: bytes)
    | Data(data: bytes)
    | Str(text: bytes)
    | Arr(elems: seq<Value>)
    | Dict(keys: seq<bytes>, vals: seq<Value>)

  /** The order of `std::string` keys in a `std::map`: bytewise, unsigned. */
  predicate KeyLess(a: bytes, b: bytes)
  {
    b != [] && (a == [] || a[0] < b[0] || (a[0] == b[0] && KeyLess(a[1..], b[1..])))
  }

  ghost predicate KeysAscend(keys: seq<bytes>)
  {
    forall i, j :: 0 <= i < j < |keys| ==> KeyLess(keys[i], keys[j])
  }

  /** What the C++ types guarantee: doubles have eight bytes, a map has one value per key. */
  ghost predicate Valid(v: Value)
  {
    match v
    case Real(p) => |p| == 8
    case Date(p) => |p| == 8
    case Arr(es) => AllValid(es)
    case Dict(ks, vs) => |ks| == |vs| && KeysAscend(ks) && AllValid(vs)
    case _ => true
  }

  ghost predicate AllValid(vs: seq<Value>)
  {
    forall v | v in vs :: Valid(v)
  }

  // --- counting ---

  function Count(v: Value): (n: nat)
    ensures n >= 1
  {
    match v
    case Arr(es) => 1 + TotalCount(es)
    case Dict(ks, vs) => 1 + |ks| + TotalCount(vs)
    case _ => 1
  }

  function TotalCount(vs: seq<Value>): (n: nat)
    ensures n >= |vs|
  {
    if vs == [] then 0 else Count(vs[0]) + TotalCount(vs[1..])
  }

  lemma {:induction false} TotalCountAppend(a: seq<Value>, b: seq<Value>)
    ensures TotalCount(a + b) == TotalCount(a) + TotalCount(b)
  {
    if a == [] {
      assert a + b == b;
    } else {
      assert (a + b)[1..] == a[1..] + b;
      TotalCountAppend(a[1..], b);
    }
  }

  method CountAny(message: Value) returns (count: int)
    requires Valid(message)
    ensures count == Count(message)
    decreases message
  {
    count := 0;
    match message
    case Dict(keys, vals) =>
      for i := 0 to |vals|
        invariant count == i + TotalCount(vals[..i])
      {
        var c := CountAny(vals[i]);
        count := count + 1 + c;
        assert vals[..i + 1] == vals[..i] + [vals[i]];
        TotalCountAppend(vals[..i], [vals[i]]);
      }
      assert vals[..|vals|] == vals;
      count := count + 1;
    case Arr(elems) =>
      for i := 0 to |elems|
        invariant count == TotalCount(elems[..i])
      {
        var c := CountAny(elems[i]);
        count := count + c;
        assert elems[..i + 1] == elems[..i] + [elems[i]];
        TotalCountAppend(elems[..i], [elems[i]]);
      }
      assert elems[..|elems|] == elems;
      count := count + 1;
    case _ =>
      count := count + 1;
  }

  function Strs(keys: seq<bytes>): (cs: seq<Value>)
    ensures |cs| == |keys|
    ensures forall i :: 0 <= i < |keys| ==> cs[i] == Str(keys[i])
  {
    seq(|keys|, i requires 0 <= i < |keys| => Str(keys[i]))
  }

  lemma {:induction false} StrsCount(keys: seq<bytes>)
    ensures TotalCount(Strs(keys)) == |keys|
  {
    if keys != [] {
      assert Strs(keys)[1..] == Strs(keys[1..]);
      StrsCount(keys[1..]);
    }
  }

  /** The objects a container refers to, in the order of its reference list. */
  function Children(v: Value): (cs: seq<Value>)
    requires v.Arr? || v.Dict?
    ensures TotalCount(cs) == Count(v) - 1
  {
    match v
    case Arr(es) => es
    case Dict(ks, vs) =>
      StrsCount(ks);
      TotalCountAppend(Strs(ks), vs);
      Strs(ks) + vs
  }

  // --- the written table as a function ---

  /** The same numbers in the order in which they are handed out: last member first. */
  function PushedRefs(cs: seq<Value>, ref: int): (refs: seq<int>)
    ensures |refs| == |cs|
  {
    if cs == [] then [] else PushedRefs(cs[1..], ref) + [ref - TotalCount(cs) + 1]
  }

  /** The list that grows at its front while references are taken in order. */
  function PushedBytes(refs: seq<int>, refSize: nat): (r: bytes)
  {
    if refs == [] then [] else RefBytes(refs[|refs| - 1], refSize) + PushedBytes(refs[..|refs| - 1], refSize)
  }

  /** Inserting at the front undoes the reversed order of writing. */
  lemma {:induction false} PushOrder(cs: seq<Value>, ref: int, refSize: nat)
    ensures PushedBytes(PushedRefs(cs, ref), refSize) == RefListBytes(RefsOf(cs, ref), refSize)
  {
    if cs != [] {
      var refs := PushedRefs(cs, ref);
      assert refs[..|refs| - 1] == PushedRefs(cs[1..], ref);
      PushOrder(cs[1..], ref, refSize);
    }
  }

  /** What the writer changes: the object table, the distances pushed so far, and the
      next free reference number. */
  datatype Progress = Progress(table: bytes, dists: seq<int>, ref: int)

  /** A record's first bytes: type nibble and element count. */
  function Header(tag: byte, n: nat): (h: bytes)
    requires tag <= 0xF0
    ensures h != []
  {
    if n < 15 then [tag + n] else [tag + 15] + IntRecord(n)
  }

  function RefBytes(ref: int, refSize: nat): (r: bytes)
  {
    Reversed(Regulated(Digits(ref, 4), refSize))
  }

  function RefListBytes(refs: seq<int>, refSize: nat): (r: bytes)
  {
    if refs == [] then [] else RefBytes(refs[0], refSize) + RefListBytes(refs[1..], refSize)
  }

  /** The reference numbers the members of `cs` get when `ref` is the next free one. */
  function RefsOf(cs: seq<Value>, ref: int): (refs: seq<int>)
    ensures |refs| == |cs|
  {
    if cs == [] then [] else [ref - TotalCount(cs) + 1] + RefsOf(cs[1..], ref)
  }

  ghost function LeafRecord(v: Value): (r: bytes)
    requires !v.Arr? && !v.Dict?
  {
    match v
    case Bool(b) => if b then [0x09] else [0x08]
    case Int(i) => IntRecord(i)
    case Real(p) => NumberRecord(0x20, LE(p), 4)
    case Date(p) => [0x33] + p
    case Data(d) => Header(0x40, |d|) + d
    case Str(s) => Header(0x50, |s|) + s
  }

  /** A container's own record: header, then the list of references. */
  ghost function ContainerRecord(v: Value, ref: int, refSize: nat): (r: bytes)
    requires (v.Arr? || v.Dict?)
  {
    var header := if v.Arr? then Header(0xA0, |v.elems|) else Header(0xD0, |v.keys|);
    header + RefListBytes(RefsOf(Children(v), ref), refSize)
  }

  /** A finished container member: its distance is pushed and its reference taken. */
  function Completed(w: Progress): (w': Progress)
  {
    Progress(w.table, w.dists + [|w.table|], w.ref - 1)
  }

  ghost function Written(v: Value, w: Progress, refSize: nat): (w': Progress)
    decreases Count(v), 0
  {
    if v.Arr? || v.Dict? then
      var w1 := WrittenAll(Children(v), w, refSize);
      Progress(ContainerRecord(v, w.ref, refSize) + w1.table, w1.dists, w1.ref)
    else
      Progress(LeafRecord(v) + w.table, w.dists, w.ref)
  }

  /** The members are written last to first, each followed by its distance. */
  ghost function WrittenAll(cs: seq<Value>, w: Progress, refSize: nat): (w': Progress)
    decreases TotalCount(cs), 1
  {
    if cs == [] then w else
      var w1 := WrittenAll(cs[1..], w, refSize);
      Completed(Written(cs[0], w1, refSize))
  }

  lemma WrittenRefs(v: Value, w: Progress, refSize: nat)
    ensures var w' := Written(v, w, refSize);
            w'.ref == w.ref - (Count(v) - 1) && |w'.dists| == |w.dists| + (Count(v) - 1)
    decreases Count(v), 0
  {
    if v.Arr? || v.Dict? {
      WrittenAllRefs(Children(v), w, refSize);
    }
  }

  lemma {:induction false} WrittenAllRefs(cs: seq<Value>, w: Progress, refSize: nat)
    ensures var w' := WrittenAll(cs, w, refSize);
            w'.ref == w.ref - TotalCount(cs) && |w'.dists| == |w.dists| + TotalCount(cs)
    decreases TotalCount(cs), 1
  {
    if cs != [] {
      WrittenAllRefs(cs[1..], w, refSize);
      WrittenRefs(cs[0], WrittenAll(cs[1..], w, refSize), refSize);
    }
  }

  lemma NextMember(v: Value, rest: seq<Value>, w: Progress, refSize: nat)
    ensures WrittenAll([v] + rest, w, refSize) == Completed(Written(v, WrittenAll(rest, w, refSize), refSize))
    ensures PushedRefs([v] + rest, w.ref)
         == PushedRefs(rest, w.ref) + [WrittenAll(rest, w, refSize).ref - Count(v) + 1]
  {
    hide Written;
    WrittenAllRefs(rest, w, refSize);
    assert ([v] + rest)[0] == v && ([v] + rest)[1..] == rest;
  }

  lemma CountMember(vs: seq<Value>, i: nat)
    requires i < |vs|
    ensures Count(vs[i]) <= TotalCount(vs)
  {
    if i > 0 {
      CountMember(vs[1..], i - 1);
    }
  }

  // --- the whole file as a function ---

  const MAGIC: bytes := [0x62, 0x70, 0x6C, 0x69, 0x73, 0x74, 0x30, 0x30]

  /** The number of bytes a non-negative 32-bit number is regulated to. */
  function ByteSize(n: int): (size: nat)
  {
    |Regulated(Digits(n, 4), 1)|
  }

  ghost function RefSize(v: Value): (size: nat)
  {
    ByteSize(Count(v) - 1)
  }

  ghost function Body(v: Value): (w: Progress)
  {
    Written(v, Progress([], [], Count(v) - 1), RefSize(v))
  }

  /** The object table: the magic number, then every record. */
  ghost function ObjectTable(v: Value): (t: bytes)
  {
    MAGIC + Body(v).table
  }

  /** Distances from the table's end in order of completion, the root last. */
  ghost function Distances(v: Value): (ds: seq<int>)
  {
    Body(v).dists + [|ObjectTable(v)| - 8]
  }

  /** The table of distances reversed, and every distance turned into an offset. */
  function Rebased(size: nat, dists: seq<int>): (os: seq<int>)
    ensures |os| == |dists|
    ensures forall r :: 0 <= r < |os| ==> os[r] == size - dists[|dists| - 1 - r]
  {
    seq(|dists|, r requires 0 <= r < |dists| => size - dists[|dists| - 1 - r])
  }

  /** The final offset of every reference number. */
  ghost function Offsets(v: Value): (os: seq<int>)
  {
    Rebased(|ObjectTable(v)|, Distances(v))
  }

  /** The width of an offset table entry is taken from the table size less 8. */
  ghost function OffsetByteSize(v: Value): (size: nat)
  {
    ByteSize(|ObjectTable(v)| - 8)
  }

  function OffsetTableBytes(offsets: seq<int>, size: nat): (r: bytes)
  {
    if offsets == [] then [] else RefBytes(offsets[0], size) + OffsetTableBytes(offsets[1..], size)
  }

  function WithTrailer(t: bytes, offsetByteSize: int, objRefSize: int, count: int, offsetTableOffset: int): (f: bytes)
    ensures |f| == |t| + 32
  {
    t + Zeros(6) + [offsetByteSize % 256] + [objRefSize % 256] + Reversed(Digits(count, 8))
    + Digits(0, 8) + Reversed(Digits(offsetTableOffset, 8))
  }

  ghost function File(v: Value): (f: bytes)
  {
    WithTrailer(ObjectTable(v) + OffsetTableBytes(Offsets(v), OffsetByteSize(v)),
                OffsetByteSize(v), RefSize(v), Count(v), |ObjectTable(v)|)
  }

  lemma {:induction false} OffsetTableBytesAppend(a: seq<int>, b: seq<int>, size: nat)
    ensures OffsetTableBytes(a + b, size) == OffsetTableBytes(a, size) + OffsetTableBytes(b, size)
  {
    if a == [] {
      assert a + b == b;
    } else {
      assert (a + b)[1..] == a[1..] + b;
      OffsetTableBytesAppend(a[1..], b, size);
    }
  }

  lemma OffsetTableBytesNext(offsets: seq<int>, i: nat, size: nat)
    requires i < |offsets|
    ensures OffsetTableBytes(offsets[..i + 1], size)
          == OffsetTableBytes(offsets[..i], size) + RefBytes(offsets[i], size)
  {
    assert offsets[..i + 1] == offsets[..i] + [offsets[i]];
    OffsetTableBytesAppend(offsets[..i], [offsets[i]], size);
  }

  lemma Suffixes<T>(s: seq<T>, t: seq<T>)
    ensures s[|s|..] + t == t && s[0..] + t == s + t
  {
  }

  lemma ConsSuffix<T>(s: seq<T>, i: nat, t: seq<T>)
    requires i < |s|
    ensures [s[i]] + (s[i + 1..] + t) == s[i..] + t
  {
  }

  // --- the writer ---

  class PlistHelperData {
    var objectTable: bytes
    var offsetTable: seq<int>
    var offsetByteSize: int
    var offsetTableOffset: int
    var objRefSize: nat
    var refCount: int

    constructor ()
      ensures objectTable == [] && offsetTable == []
    {
      objectTable, offsetTable := [], [];
      offsetByteSize, offsetTableOffset, objRefSize, refCount := 0, 0, 0, 0;
    }

    ghost function State(): Progress
      reads this
    {
      Progress(objectTable, offsetTable, refCount)
    }

    method WriteBinaryInteger(value: int, write: bool) returns (buffer: bytes)
      modifies this`objectTable
      ensures buffer == IntRecord(value)
      ensures objectTable == if write then buffer + old(objectTable) else old(objectTable)
    {
      buffer := EncodeInteger(value);
      if write {
        objectTable := buffer + objectTable;
      }
    }

    method WriteBinaryBool(value: bool) returns (buffer: bytes)
      modifies this`objectTable
      ensures buffer == LeafRecord(Bool(value))
      ensures objectTable == buffer + old(objectTable)
    {
      buffer := if value then [0x09] else [0x08];
      objectTable := buffer + objectTable;
    }

    method WriteBinaryDouble(pattern: bytes) returns (buffer: bytes)
      requires |pattern| == 8
      modifies this`objectTable
      ensures buffer == LeafRecord(Real(pattern))
      ensures objectTable == buffer + old(objectTable)
    {
      var regulated := RegulateNullBytes(pattern, 4);
      RegulatedMeaning(pattern, 4);
      LEBound(pattern);
      Pow256Values();
      buffer := PadAndReverse(0x20, LE(pattern), 4, regulated);
      objectTable := buffer + objectTable;
    }

    method WriteBinaryDate(stamp: bytes) returns (buffer: bytes)
      requires |stamp| == 8
      modifies this`objectTable
      ensures buffer == LeafRecord(Date(stamp))
      ensures objectTable == buffer + old(objectTable)
    {
      buffer := [0x33] + stamp;
      objectTable := buffer + objectTable;
    }

    method SizeHeader(tag: byte, n: nat) returns (header: bytes)
      requires tag <= 0xF0
      modifies this`objectTable
      ensures header == Header(tag, n)
      ensures objectTable == old(objectTable)
    {
      if n < 15 {
        header := [tag + n];
      } else {
        var theSize := WriteBinaryInteger(n, false);
        header := [tag + 15] + theSize;
      }
    }

    method WriteBinaryByteArray(byteArray: bytes) returns (buffer: bytes)
      modifies this`objectTable
      ensures buffer == LeafRecord(Data(byteArray))
      ensures objectTable == buffer + old(objectTable)
    {
      var header := SizeHeader(0x40, |byteArray|);
      buffer := header + byteArray;
      objectTable := buffer + objectTable;
    }

    method WriteBinaryString(value: bytes, head: bool) returns (buffer: bytes)
      modifies this`objectTable
      ensures buffer == if head then LeafRecord(Str(value)) else value
      ensures objectTable == buffer + old(objectTable)
    {
      buffer := value;
      if head {
        var header := SizeHeader(0x50, |value|);
        buffer := header + buffer;
      }
      objectTable := buffer + objectTable;
    }

    /** The reference list, built by inserting each reference at the front. */
    method WriteRefs(refs: seq<int>) returns (buffer: bytes)
      requires objRefSize >= 1
      ensures buffer == PushedBytes(refs, objRefSize)
    {
      buffer := [];
      for i := 0 to |refs|
        invariant buffer == PushedBytes(refs[..i], objRefSize)
      {
        var raw := IntToBytes(refs[i], 4);
        var refBuffer := RegulateNullBytes(raw, objRefSize);
        buffer := Reversed(refBuffer) + buffer;
        assert refs[..i + 1][..i] == refs[..i];
      }
      assert refs[..|refs|] == refs;
    }

    method WriteBinary(obj: Value) returns (value: bytes)
      requires Valid(obj) && objRefSize >= 1
      modifies this`objectTable, this`offsetTable, this`refCount
      ensures State() == Written(obj, old(State()), objRefSize)
      ensures value == if obj.Arr? || obj.Dict? then ContainerRecord(obj, old(refCount), objRefSize)
            else LeafRecord(obj)
      decreases Count(obj), 2
    {
      match obj
      case Int(i) => value := WriteBinaryInteger(i, true);
      case Dict(_, _) => value := WriteBinaryDictionary(obj);
      case Str(s) => value := WriteBinaryString(s, true);
      case Arr(_) => value := WriteBinaryArray(obj);
      case Data(d) => value := WriteBinaryByteArray(d);
      case Real(p) => value := WriteBinaryDouble(p);
      case Date(p) => value := WriteBinaryDate(p);
      case Bool(b) => value := WriteBinaryBool(b);
    }

    /** One container member: write it, push its distance, take its reference number. */
    method WriteMember(member: Value, refsBefore: seq<int>, ghost after: seq<Value>, ghost start: Progress)
      returns (refs: seq<int>)
      requires Valid(member) && objRefSize >= 1
      requires State() == WrittenAll(after, start, objRefSize) && refsBefore == PushedRefs(after, start.ref)
      modifies this`objectTable, this`offsetTable, this`refCount
      ensures State() == WrittenAll([member] + after, start, objRefSize)
      ensures refs == PushedRefs([member] + after, start.ref)
      decreases Count(member), 3
    {
      NextMember(member, after, start, objRefSize);
      WrittenRefs(member, State(), objRefSize);
      var _ := WriteBinary(member);
      offsetTable := offsetTable + [|objectTable|];
      refs := refsBefore + [refCount];
      refCount := refCount - 1;
    }

    /** One pass over container members, last first. `done` are the members that an
        earlier pass has written. */
    method WriteMembers(members: seq<Value>, refsBefore: seq<int>, ghost done: seq<Value>, ghost start: Progress)
      returns (refs: seq<int>)
      requires AllValid(members) && objRefSize >= 1
      requires State() == WrittenAll(done, start, objRefSize) && refsBefore == PushedRefs(done, start.ref)
      modifies this`objectTable, this`offsetTable, this`refCount
      ensures State() == WrittenAll(members + done, start, objRefSize)
      ensures refs == PushedRefs(members + done, start.ref)
      decreases TotalCount(members), 4
    {
      refs := refsBefore;
      var it := |members|;
      Suffixes(members, done);
      while it > 0
        invariant 0 <= it <= |members|
        invariant State() == WrittenAll(members[it..] + done, start, objRefSize)
        invariant refs == PushedRefs(members[it..] + done, start.ref)
      {
        it := it - 1;
        CountMember(members, it);
        ConsSuffix(members, it, done);
        refs := WriteMember(members[it], refs, members[it + 1..] + done, start);
      }
    }

    method WriteBinaryArray(obj: Value) returns (buffer: bytes)
      requires obj.Arr? && Valid(obj) && objRefSize >= 1
      modifies this`objectTable, this`offsetTable, this`refCount
      ensures State() == Written(obj, old(State()), objRefSize)
      ensures buffer == ContainerRecord(obj, old(refCount), objRefSize)
      decreases Count(obj), 1
    {
      ghost var start := State();
      var refs := WriteMembers(obj.elems, [], [], start);
      assert obj.elems + [] == Children(obj);
      var header := SizeHeader(0xA0, |obj.elems|);
      buffer := WriteRefs(refs);
      PushOrder(Children(obj), start.ref, objRefSize);
      buffer := header + buffer;
      objectTable := buffer + objectTable;
    }

    method WriteBinaryDictionary(obj: Value) returns (buffer: bytes)
      requires obj.Dict? && Valid(obj) && objRefSize >= 1
      modifies this`objectTable, this`offsetTable, this`refCount
      ensures State() == Written(obj, old(State()), objRefSize)
      ensures buffer == ContainerRecord(obj, old(refCount), objRefSize)
      decreases Count(obj), 1
    {
      ghost var start := State();
      var refs := WriteMembers(obj.vals, [], [], start);
      assert obj.vals + [] == obj.vals;
      StrsCount(obj.keys);
      refs := WriteMembers(Strs(obj.keys), refs, obj.vals, start);
      var header := SizeHeader(0xD0, |obj.keys|);
      buffer := WriteRefs(refs);
      PushOrder(Children(obj), start.ref, objRefSize);
      buffer := header + buffer;
      objectTable := buffer + objectTable;
    }

    /** The number of bytes that `n` is regulated to. */
    method SizeOf(n: int) returns (size: nat)
      ensures size == ByteSize(n) && 1 <= size <= 4
    {
      ByteSizeRange(n);
      var raw := IntToBytes(n, 4);
      raw := RegulateNullBytes(raw, 1);
      size := |raw|;
    }

    /** One entry of the offset table, in the chosen width. */
    method OffsetEntry(offset: int) returns (entry: bytes)
      requires offsetByteSize >= 1
      ensures entry == RefBytes(offset, offsetByteSize)
    {
      var raw := IntToBytes(offset, 4);
      var buffer := RegulateNullBytes(raw, offsetByteSize);
      entry := Reversed(buffer);
    }

    /** Reverses and rebases the offset table in place; returns its bytes. */
    method RebaseOffsets() returns (offsetBytes: bytes)
      requires offsetByteSize >= 1
      modifies this`offsetTable
      ensures offsetTable == Rebased(|objectTable|, old(offsetTable))
      ensures offsetBytes == OffsetTableBytes(offsetTable, offsetByteSize)
    {
      hide RefBytes, Rebased;
      ghost var offsets := Rebased(|objectTable|, offsetTable);
      offsetBytes := [];
      offsetTable := Reversed(offsetTable);
      for i := 0 to |offsetTable|
        invariant |offsetTable| == |offsets|
        invariant forall r :: 0 <= r < i ==> offsetTable[r] == offsets[r]
        invariant forall r :: i <= r < |offsetTable| ==> |objectTable| - offsetTable[r] == offsets[r]
        invariant offsetBytes == OffsetTableBytes(offsets[..i], offsetByteSize)
      {
        offsetTable := offsetTable[i := |objectTable| - offsetTable[i]];
        var entry := OffsetEntry(offsetTable[i]);
        offsetBytes := offsetBytes + entry;
        OffsetTableBytesNext(offsets, i, offsetByteSize);
      }
      assert offsets[..|offsets|] == offsets;
      assert offsetTable == offsets;
    }

    method AppendTrailer(totalRefs: int)
      modifies this`objectTable
      ensures objectTable == WithTrailer(old(objectTable), offsetByteSize, objRefSize, totalRefs + 1, offsetTableOffset)
    {
      objectTable := objectTable + Zeros(6);
      objectTable := objectTable + [offsetByteSize % 256];
      objectTable := objectTable + [objRefSize % 256];
      var temp := IntToBytes(totalRefs + 1, 8);
      objectTable := objectTable + Reversed(temp);
      temp := IntToBytes(0, 8);
      objectTable := objectTable + temp;
      temp := IntToBytes(offsetTableOffset, 8);
      objectTable := objectTable + Reversed(temp);
    }

    /** Every record, from the reference counter's start. */
    method WriteRecords(message: Value) returns (totalRefs: int)
      requires Valid(message)
      requires objectTable == [] && offsetTable == []
      modifies this
      ensures State() == Body(message)
      ensures totalRefs == Count(message) - 1 && objRefSize == RefSize(message)
    {
      hide Written, Count, ByteSize, Valid;
      totalRefs := CountAny(message);
      totalRefs := totalRefs - 1;
      refCount := totalRefs;
      objRefSize := SizeOf(refCount);
      var _ := WriteBinary(message);
    }

    /** Magic number and root distance complete the two tables. */
    method WriteObjects(message: Value) returns (totalRefs: int)
      requires Valid(message)
      requires objectTable == [] && offsetTable == []
      modifies this
      ensures objectTable == ObjectTable(message) && offsetTable == Distances(message)
      ensures totalRefs == Count(message) - 1 && objRefSize == RefSize(message)
      ensures offsetTableOffset == |objectTable|
      ensures offsetTable != [] && offsetTable[|offsetTable| - 1] == |objectTable| - 8
    {
      hide Body, RefSize, Count, Valid;
      totalRefs := WriteRecords(message);
      var _ := WriteBinaryString(MAGIC, false);
      offsetTableOffset := |objectTable|;
      offsetTable := offsetTable + [|objectTable| - 8];
    }

    method WritePlistBinary(message: Value)
      requires Valid(message)
      requires objectTable == [] && offsetTable == []
      modifies this
      ensures objectTable == File(message)
      ensures offsetTable == Offsets(message)
    {
      hide ObjectTable, Distances, WithTrailer, Rebased, RefSize;
      var totalRefs := WriteObjects(message);
      offsetByteSize := SizeOf(offsetTable[|offsetTable| - 1]);
      var offsetBytes := RebaseOffsets();
      objectTable := objectTable + offsetBytes;
      AppendTrailer(totalRefs);
    }
  }

  lemma ByteSizeRange(n: int)
    ensures 1 <= ByteSize(n) <= 4
    ensures 0 <= n < Pow256(4) ==> ByteSize(n) == Width(n)
  {
    var s := Digits(n, 4);
    RegulatedMeaning(s, 1);
    StrippedMeaning(s, 1);
    if 0 <= n < Pow256(4) {
      LEDigits(n, 4);
    }
  }
}
