/** The binary property-list reader: trailer, offset table, and objects that refer to one
    another by reference number. It is total over arbitrary bytes. */
module PlistReader {
  import opened Bytes
  import opened PlistCodec
  import opened PlistWriter

  /** `Undefined` stands for a read the source does not check; `TooDeep` for recursion
      beyond the stack the caller has. */
  datatype Error =
    | Empty
    | NotBinary
    | OutOfBounds
    | Unsupported
    | KeyNotString
    | BadBool
    | UnicodeString
    | Undefined
    | TooDeep

  datatype Result<+T> = Ok(value: T) | Err(error: Error) {
    predicate IsFailure() {
      Err?
    }

    function PropagateFailure<U>(): Result<U>
      requires Err?
    {
      Err(error)
    }

    function Extract(): T
      requires Ok?
    {
      value
    }
  }

  /** A list read so far, in front of what the rest of the read returns. */
  function Before<T>(read: seq<T>, rest: Result<seq<T>>): (r: Result<seq<T>>)
  {
    match rest
    case Ok(more) => Ok(read + more)
    case Err(e) => Err(e)
  }

  lemma BeforeNext<T>(read: seq<T>, next: T, rest: Result<seq<T>>)
    ensures Before(read, Before([next], rest)) == Before(read + [next], rest)
  {
    if rest.Ok? {
      assert read + ([next] + rest.value) == read + [next] + rest.value;
    }
  }

  lemma BeforeNone<T>(rest: Result<seq<T>>)
    ensures Before([], rest) == rest
  {
    if rest.Ok? {
      assert [] + rest.value == rest.value;
    }
  }

  /** The helper data the object parsers read but never change. */
  datatype Tables = Tables(objectTable: bytes, offsetTable: seq<int>, objRefSize: nat)

  // --- ranges and numbers ---

  /** The checked `getRange` over a vector. */
  function GetRange(orig: bytes, index: int, size: int): (r: Result<bytes>)
    ensures r.Ok? ==> |r.value| == size
  {
    if index + size > |orig| then Err(OutOfBounds)
    else if index < 0 || size < 0 then Err(Undefined)
    else Ok(orig[index..index + size])
  }

  /** The `getRange` over a raw pointer, which checks nothing. */
  function GetRawRange(orig: bytes, index: int, size: int): (r: Result<bytes>)
  {
    if index < 0 || size < 0 || index + size > |orig| then Err(Undefined)
    else Ok(orig[index..index + size])
  }

  function ByteAt(t: bytes, pos: int): (r: Result<byte>)
  {
    if 0 <= pos < |t| then Ok(t[pos]) else Err(Undefined)
  }

  function OffsetOf(d: Tables, objRef: int): (r: Result<int>)
  {
    if 0 <= objRef < |d.offsetTable| then Ok(d.offsetTable[objRef]) else Err(Undefined)
  }

  /** Big-endian bytes, at least one, as a host number of `size` bytes. */
  function Number(buffer: bytes, size: nat): (n: int)
    ensures size == 8 ==> -TWO63 <= n < TWO63
  {
    Pow256Values();
    var b := Regulated(Reversed(buffer), size);
    Signed(LE(if |b| >= size then b[..size] else b), size)
  }

  method ParseNumber(buffer: bytes, size: nat) returns (n: int)
    requires buffer != [] && size >= 1
    ensures n == Number(buffer, size)
  {
    var b := RegulateNullBytes(Reversed(buffer), size);
    n := BytesToInt(b, size);
  }

  /** The eight raw bytes behind the header of an integer or real, and their count. */
  function NumberBytes(t: bytes, pos: int): (r: Result<bytes>)
    ensures r.Ok? ==> r.value != []
  {
    var header :- ByteAt(t, pos);
    GetRange(t, pos + 1, Pow2(header % 16))
  }

  function ParseInt(t: bytes, pos: int): (r: Result<(int64, int)>)
  {
    var buffer :- NumberBytes(t, pos);
    Ok((Number(buffer, 8), |buffer|))
  }

  function ParseReal(t: bytes, pos: int): (r: Result<bytes>)
  {
    var buffer :- NumberBytes(t, pos);
    var b := Regulated(Reversed(buffer), 8);
    Ok(if |b| >= 8 then b[..8] else b)
  }

  function ParseDate(t: bytes, pos: int): (r: Result<bytes>)
  {
    GetRange(t, pos + 1, 8)
  }

  function ParseBool(header: byte): (r: Result<bool>)
  {
    if header == 0x09 then Ok(true) else if header == 0x08 then Ok(false) else Err(BadBool)
  }

  /** Element count, and where the elements start relative to the header. */
  function GetCount(t: bytes, pos: int, header: byte): (r: Result<(int, int)>)
    ensures r.Ok? ==> -0x8000_0000 <= r.value.0 < 0x8000_0000
  {
    Pow256Values();
    if header % 16 < 15 then Ok((header % 16, 1)) else
      var (n, size) :- ParseInt(t, pos + 1);
      Ok((Signed(n, 4), size + 2))
  }

  function ParseData(t: bytes, pos: int, header: byte): (r: Result<bytes>)
  {
    var (n, start) :- GetCount(t, pos, header);
    GetRawRange(t, pos + start, n)
  }

  function ParseString(t: bytes, pos: int, header: byte): (r: Result<bytes>)
  {
    var (n, start) :- GetCount(t, pos, header);
    GetRange(t, pos + start, n)
  }

  // --- reference lists ---

  function RefsBetween(d: Tables, i: int, end: int): (r: Result<seq<int>>)
    decreases end - i
  {
    if i >= end || d.objRefSize == 0 then Ok([]) else
      var refBuffer :- GetRange(d.objectTable, i, d.objRefSize);
      Before([Number(refBuffer, 4)], RefsBetween(d, i + d.objRefSize, end))
  }

  method ReadRefs(d: Tables, refStartPosition: int, end: int) returns (r: Result<seq<int>>)
    requires d.objRefSize == 0 ==> refStartPosition == end
    ensures r == RefsBetween(d, refStartPosition, end)
  {
    hide GetRange, Number;
    var refs := [];
    var i := refStartPosition;
    BeforeNone(RefsBetween(d, i, end));
    while i < end
      invariant d.objRefSize == 0 ==> i == end
      invariant Before(refs, RefsBetween(d, i, end)) == RefsBetween(d, refStartPosition, end)
      decreases end - i
    {
      var refBuffer :- GetRange(d.objectTable, i, d.objRefSize);
      var ref := ParseNumber(refBuffer, 4);
      i := i + d.objRefSize;
      BeforeNext(refs, ref, RefsBetween(d, i, end));
      refs := refs + [ref];
    }
    assert refs + [] == refs;
    r := Ok(refs);
  }

  /** How many references a container of `n` elements lists per element. */
  function RefsPerElement(header: byte): (m: int)
  {
    if header / 16 == 0xD then 2 else 1
  }

  function GetRefs(d: Tables, pos: int, header: byte): (r: Result<seq<int>>)
  {
    var (n, start) :- GetCount(d.objectTable, pos, header);
    RefsBetween(d, pos + start, pos + start + n * RefsPerElement(header) * d.objRefSize)
  }

  method GetRefsForContainers(d: Tables, pos: int, header: byte) returns (r: Result<seq<int>>)
    ensures r == GetRefs(d, pos, header)
  {
    hide RefsBetween, GetCount, RefsPerElement;
    var counted :- GetCount(d.objectTable, pos, header);
    var (refCount, start) := counted;
    r := ReadRefs(d, pos + start, pos + start + refCount * RefsPerElement(header) * d.objRefSize);
  }

  // --- objects ---

  /** `dict[key] = value` on a map kept in key order. */
  function Put(keys: seq<bytes>, vals: seq<Value>, key: bytes, value: Value): (r: (seq<bytes>, seq<Value>))
    requires |keys| == |vals|
    ensures |r.0| == |r.1|
  {
    if keys == [] || KeyLess(key, keys[0]) then ([key] + keys, [value] + vals)
    else if keys[0] == key then (keys, [value] + vals[1..])
    else
      var (ks, vs) := Put(keys[1..], vals[1..], key, value);
      ([keys[0]] + ks, [vals[0]] + vs)
  }

  /** An object whose record stands alone. */
  function ParsedLeaf(t: bytes, pos: int, header: byte): (r: Result<Value>)
  {
    match header / 16
    case 0x0 => var b :- ParseBool(header); Ok(Bool(b))
    case 0x1 => var (n, _) :- ParseInt(t, pos); Ok(Int(n))
    case 0x2 => var p :- ParseReal(t, pos); Ok(Real(p))
    case 0x3 => var p :- ParseDate(t, pos); Ok(Date(p))
    case 0x4 => var b :- ParseData(t, pos, header); Ok(Data(b))
    case 0x5 => var s :- ParseString(t, pos, header); Ok(Str(s))
    case 0x6 => Err(UnicodeString)
    case _ => Err(Unsupported)
  }

  /** What the recursive reader returns; `depth` bounds the recursion. */
  function Parsed(d: Tables, objRef: int, depth: nat): (r: Result<Value>)
    decreases depth, 0
  {
    if depth == 0 then Err(TooDeep) else
      var pos :- OffsetOf(d, objRef);
      var header :- ByteAt(d.objectTable, pos);
      if header / 16 == 0xA then
        var refs :- GetRefs(d, pos, header);
        var elems :- ParsedAll(d, refs, depth - 1);
        Ok(Arr(elems))
      else if header / 16 == 0xD then
        var refs :- GetRefs(d, pos, header);
        var (keys, vals) :- EntriesFrom(d, refs, 0, [], [], depth - 1);
        Ok(Dict(keys, vals))
      else
        ParsedLeaf(d.objectTable, pos, header)
  }

  function ParsedAll(d: Tables, refs: seq<int>, depth: nat): (r: Result<seq<Value>>)
    decreases depth, 1, |refs|
  {
    if refs == [] then Ok([]) else
      var first :- Parsed(d, refs[0], depth);
      Before([first], ParsedAll(d, refs[1..], depth))
  }

  /** The entries `keys`, `vals` extended by those from index `i` on. */
  function EntriesFrom(d: Tables, refs: seq<int>, i: nat, keys: seq<bytes>, vals: seq<Value>, depth: nat)
    : (r: Result<(seq<bytes>, seq<Value>)>)
    requires |keys| == |vals|
    decreases depth, 1, |refs| - i
  {
    if i >= |refs| / 2 then Ok((keys, vals)) else
      var key :- Parsed(d, refs[i], depth);
      if !key.Str? then Err(KeyNotString) else
        var value :- Parsed(d, refs[i + |refs| / 2], depth);
        var (ks, vs) := Put(keys, vals, key.text, value);
        EntriesFrom(d, refs, i + 1, ks, vs, depth)
  }

  method ParseBinaryLeaf(t: bytes, pos: int, header: byte) returns (r: Result<Value>)
    ensures r == ParsedLeaf(t, pos, header)
  {
    if header / 16 == 0x1 {
      var buffer :- NumberBytes(t, pos);
      var n := ParseNumber(buffer, 8);
      r := Ok(Int(n));
    } else {
      r := ParsedLeaf(t, pos, header);
    }
  }

  method ParseBinary(d: Tables, objRef: int, depth: nat) returns (r: Result<Value>)
    ensures r == Parsed(d, objRef, depth)
    decreases depth, 0
  {
    hide GetRefs, ParsedLeaf, ParsedAll, EntriesFrom;
    if depth == 0 {
      return Err(TooDeep);
    }
    var pos :- OffsetOf(d, objRef);
    var header :- ByteAt(d.objectTable, pos);
    match header / 16 {
      case 0xA =>
        var refs :- GetRefsForContainers(d, pos, header);
        var elems :- ParseBinaryArray(d, refs, depth - 1);
        r := Ok(Arr(elems));
      case 0xD =>
        var refs :- GetRefsForContainers(d, pos, header);
        var entries :- ParseBinaryDictionary(d, refs, depth - 1);
        r := Ok(Dict(entries.0, entries.1));
      case _ =>
        r := ParseBinaryLeaf(d.objectTable, pos, header);
    }
  }

  method ParseBinaryArray(d: Tables, refs: seq<int>, depth: nat) returns (r: Result<seq<Value>>)
    ensures r == ParsedAll(d, refs, depth)
    decreases depth, 1
  {
    var elems := [];
    BeforeNone(ParsedAll(d, refs, depth));
    for i := 0 to |refs|
      invariant Before(elems, ParsedAll(d, refs[i..], depth)) == ParsedAll(d, refs, depth)
    {
      var elem :- ParseBinary(d, refs[i], depth);
      assert refs[i..][1..] == refs[i + 1..];
      BeforeNext(elems, elem, ParsedAll(d, refs[i + 1..], depth));
      elems := elems + [elem];
    }
    assert elems + [] == elems;
    r := Ok(elems);
  }

  method ParseBinaryDictionary(d: Tables, refs: seq<int>, depth: nat) returns (r: Result<(seq<bytes>, seq<Value>)>)
    ensures r == EntriesFrom(d, refs, 0, [], [], depth)
    decreases depth, 1
  {
    hide Put, Parsed;
    var refCount := |refs| / 2;
    var keys, vals := [], [];
    for i := 0 to refCount
      invariant |keys| == |vals|
      invariant EntriesFrom(d, refs, i, keys, vals, depth) == EntriesFrom(d, refs, 0, [], [], depth)
    {
      var keyAny :- ParseBinary(d, refs[i], depth);
      if !keyAny.Str? {
        return Err(KeyNotString);
      }
      var value :- ParseBinary(d, refs[i + refCount], depth);
      var (ks, vs) := Put(keys, vals, keyAny.text, value);
      keys, vals := ks, vs;
    }
    r := Ok((keys, vals));
  }

  // --- trailer and offset table ---

  function OffsetsFrom(b: bytes, i: nat, size: nat): (r: Result<seq<int>>)
    decreases |b| - i
  {
    if i >= |b| then Ok([])
    else if size == 0 then Err(Undefined)
    else
      var temp :- GetRange(b, i, size);
      Before([Number(temp, 4)], OffsetsFrom(b, i + size, size))
  }

  method ParseOffsetTable(offsetTableBytes: bytes, offsetByteSize: nat) returns (r: Result<seq<int>>)
    ensures r == OffsetsFrom(offsetTableBytes, 0, offsetByteSize)
  {
    hide GetRange, Number;
    var offsetTable := [];
    var i := 0;
    BeforeNone(OffsetsFrom(offsetTableBytes, 0, offsetByteSize));
    while i < |offsetTableBytes|
      invariant Before(offsetTable, OffsetsFrom(offsetTableBytes, i, offsetByteSize))
             == OffsetsFrom(offsetTableBytes, 0, offsetByteSize)
      decreases |offsetTableBytes| - i
    {
      if offsetByteSize == 0 {
        return Err(Undefined);
      }
      var temp :- GetRange(offsetTableBytes, i, offsetByteSize);
      var offset := ParseNumber(temp, 4);
      i := i + offsetByteSize;
      BeforeNext(offsetTable, offset, OffsetsFrom(offsetTableBytes, i, offsetByteSize));
      offsetTable := offsetTable + [offset];
    }
    assert offsetTable + [] == offsetTable;
    r := Ok(offsetTable);
  }

  /** The trailer's fields as `parseTrailer` takes them: of the object count, the low half. */
  datatype Trailer = Trailer(offsetByteSize: nat, objRefSize: nat, refCount: int, offsetTableOffset: int)

  function TrailerFields(trailer: bytes): (f: Trailer)
    requires |trailer| == 32
  {
    Trailer(trailer[6], trailer[7], Number(trailer[12..16], 4), Number(trailer[24..], 8))
  }

  method ParseTrailer(trailer: bytes) returns (f: Trailer)
    requires |trailer| == 32
    ensures f == TrailerFields(trailer)
  {
    hide Number;
    var refCount := ParseNumber(trailer[12..16], 4);
    var offsetTableOffset := ParseNumber(trailer[24..], 8);
    f := Trailer(trailer[6], trailer[7], refCount, offsetTableOffset);
  }

  /** What `readPlist` returns for the bytes of a file. */
  function ReadFile(file: bytes, depth: nat): (r: Result<Value>)
  {
    if file == [] then Err(Empty)
    else if |file| < 8 then Err(Undefined)
    else if file[..8] != MAGIC then Err(NotBinary)
    else
      var trailer :- GetRawRange(file, |file| - 32, 32);
      var d := TrailerFields(trailer);
      var objectTable :- GetRawRange(file, 0, d.offsetTableOffset);
      var offsetTableBytes :- GetRawRange(file, d.offsetTableOffset, |file| - d.offsetTableOffset - 32);
      var offsetTable :- OffsetsFrom(offsetTableBytes, 0, d.offsetByteSize);
      Parsed(Tables(objectTable, offsetTable, d.objRefSize), 0, depth)
  }

  method ReadPlist(byteArray: bytes, depth: nat) returns (r: Result<Value>)
    ensures r == ReadFile(byteArray, depth)
  {
    if byteArray == [] {
      return Err(Empty);
    }
    if |byteArray| < 8 {
      return Err(Undefined);
    }
    if byteArray[..8] != MAGIC {
      return Err(NotBinary);
    }
    var trailer :- GetRawRange(byteArray, |byteArray| - 32, 32);
    var d := ParseTrailer(trailer);
    var objectTable :- GetRawRange(byteArray, 0, d.offsetTableOffset);
    var offsetTableBytes :- GetRawRange(byteArray, d.offsetTableOffset, |byteArray| - d.offsetTableOffset - 32);
    var offsetTable :- ParseOffsetTable(offsetTableBytes, d.offsetByteSize);
    r := ParseBinary(Tables(objectTable, offsetTable, d.objRefSize), 0, depth);
  }
}
