/** The connect packet's payload: a name that ends in NUL, a 16-bit number and the channels. */
module ConnectMessage {
  import opened Bytes
  import opened ClientDispatch
  import opened Common

  function Word(v: nat): (s: bytes)
    ensures |s| == 2
  {
    [v % 0x100, v / 0x100 % 0x100]
  }

  function Words(vs: seq<nat>): (s: bytes)
    ensures |s| == 2 * |vs|
  {
    if vs == [] then [] else Word(vs[0]) + Words(vs[1..])
  }

  /** The number of channels is stored in 16 bits, and as many channels are copied behind it. */
  function Serialized(clientid: bytes, channels: seq<nat>): (s: bytes)
  {
    var subscribers := |channels| % 0x1_0000;
    clientid + [0] + Word(subscribers) + Words(channels[..subscribers])
  }

  /** The bytes before the first NUL. */
  function CString(data: bytes): (s: bytes)
    ensures |s| <= |data| && 0 !in s
  {
    if data == [] || data[0] == 0 then [] else [data[0]] + CString(data[1..])
  }

  function ReadWord(data: bytes): (v: nat)
    requires |data| >= 2
  {
    data[0] as int + data[1] as int * 0x100
  }

  function ReadWords(data: bytes, n: nat): (vs: seq<nat>)
    requires 2 * n <= |data|
    ensures |vs| == n
    decreases n
  {
    if n == 0 then [] else [ReadWord(data)] + ReadWords(data[2..], n - 1)
  }

  /** None when the packet is shorter than it says. */
  function Deserialized(data: bytes): (r: Option<(bytes, seq<nat>)>)
  {
    var clientid := CString(data);
    if |data| < |clientid| + 3 then None else
      var subscribers := ReadWord(data[|clientid| + 1..]);
      var rest := data[|clientid| + 3..];
      if |rest| < 2 * subscribers then None else Some((clientid, ReadWords(rest, subscribers)))
  }

  lemma {:induction false} CStringEnds(s: bytes, rest: bytes)
    requires 0 !in s
    ensures CString(s + [0] + rest) == s
  {
    if s != [] {
      assert (s + [0] + rest)[1..] == s[1..] + [0] + rest;
      CStringEnds(s[1..], rest);
    }
  }

  lemma WordReads(v: nat, rest: bytes)
    requires v < 0x1_0000
    ensures ReadWord(Word(v) + rest) == v
  {
  }

  lemma {:induction false} WordsRead(vs: seq<nat>)
    requires forall i :: 0 <= i < |vs| ==> vs[i] < 0x1_0000
    ensures ReadWords(Words(vs), |vs|) == vs
  {
    if vs != [] {
      WordReads(vs[0], Words(vs[1..]));
      WordsRead(vs[1..]);
      assert (Word(vs[0]) + Words(vs[1..]))[2..] == Words(vs[1..]);
    }
  }

  /** A name without NUL arrives as it is, with the channels that a packet can carry. */
  lemma Arrives(clientid: bytes, channels: seq<nat>)
    requires 0 !in clientid && forall i :: 0 <= i < |channels| ==> channels[i] < 0x1_0000
    ensures Deserialized(Serialized(clientid, channels)) == Some((clientid, Carried(channels)))
  {
    hide Words, Word;
    var n := |channels| % 0x1_0000;
    var s := Serialized(clientid, channels);
    var tail := Word(n) + Words(channels[..n]);
    assert s == clientid + [0] + tail;
    CStringEnds(clientid, tail);
    assert s[|clientid| + 1..] == tail && s[|clientid| + 3..] == Words(channels[..n]);
    WordReads(n, Words(channels[..n]));
    WordsRead(channels[..n]);
  }

  /** The payload reads back as what was written exactly when the name holds no NUL and the channels
      can be counted in 16 bits. */
  lemma ReadsBackIff(clientid: bytes, channels: seq<nat>)
    requires forall i :: 0 <= i < |channels| ==> channels[i] < 0x1_0000
    ensures Deserialized(Serialized(clientid, channels)) == Some((clientid, channels))
       <==> 0 !in clientid && |channels| < 0x1_0000
  {
    hide Serialized, ReadWords, Carried;
    CarriedIff(channels);
    if 0 !in clientid {
      Arrives(clientid, channels);
    } else {
      assert 0 !in CString(Serialized(clientid, channels));
    }
  }

  lemma {:induction false} WordAt(vs: seq<nat>, j: nat)
    requires j < |vs|
    ensures Words(vs)[2 * j..2 * j + 2] == Word(vs[j])
    decreases j
  {
    hide Word;
    var rest := Words(vs[1..]);
    assert Words(vs)[2..] == rest;
    if j > 0 {
      WordAt(vs[1..], j - 1);
      assert Words(vs)[2 * j..2 * j + 2] == rest[2 * (j - 1)..2 * (j - 1) + 2];
    }
  }

  /** The payload byte for byte: the name and a NUL, how many channels follow, and the channels, all numbers
      in two bytes with the low one first. */
  lemma PayloadBytes(clientid: bytes, channels: seq<nat>, j: nat)
    requires |channels| < 0x1_0000 && j < |channels| && channels[j] < 0x1_0000
    ensures var s, n := Serialized(clientid, channels), |clientid|;
      && |s| == n + 3 + 2 * |channels| && s[..n] == clientid && s[n] == 0
      && s[n + 1] as int + 0x100 * s[n + 2] as int == |channels|
      && s[n + 3 + 2 * j] as int + 0x100 * s[n + 4 + 2 * j] as int == channels[j]
  {
    hide Words;
    var s, n := Serialized(clientid, channels), |clientid|;
    assert channels[..|channels|] == channels;
    WordAt(channels, j);
    var tail := Words(channels);
    assert s[n + 3..] == tail;
    assert s[n + 3 + 2 * j] == tail[2 * j] == Word(channels[j])[0];
    assert s[n + 4 + 2 * j] == tail[2 * j + 1] == Word(channels[j])[1];
  }
}
