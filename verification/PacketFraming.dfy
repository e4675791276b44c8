/** Packets on a stream socket: senders share a lock, the reader puts packets together from whatever
    chunks arrive. */
module PacketFraming {
  import opened Bytes
  import opened Common

  const HEADER_SIZE: nat := 16

  /** A packet as it is sent; nobody sets the tag, so it can be anything. */
  datatype Packet = Packet(protocol: nat, packetType: nat, tag: nat, payload: bytes)

  predicate Fits(p: Packet)
  {
    && p.protocol < 0x1_0000_0000 && p.packetType < 0x1_0000_0000 && p.tag < 0x1_0000_0000
    && HEADER_SIZE + |p.payload| < 0x1_0000_0000
  }

  /** The header in the sender's memory: four 32-bit fields, the low byte first. */
  function Header(p: Packet): (s: bytes)
    ensures |s| == HEADER_SIZE
  {
    Digits(HEADER_SIZE + |p.payload|, 4) + Digits(p.protocol, 4) + Digits(p.packetType, 4) + Digits(p.tag, 4)
  }

  function Framed(p: Packet): (s: bytes)
    ensures |s| == HEADER_SIZE + |p.payload|
  {
    Header(p) + p.payload
  }

  function Wire(ps: seq<Packet>): (s: bytes)
  {
    if ps == [] then [] else Framed(ps[0]) + Wire(ps[1..])
  }

  /** What the reader hands to its callback. */
  datatype Received = Received(length: nat, protocol: nat, packetType: nat, tag: nat, payload: bytes)

  function AsReceived(p: Packet): (r: Received)
  {
    Received(HEADER_SIZE + |p.payload|, p.protocol, p.packetType, p.tag, p.payload)
  }

  function AllReceived(ps: seq<Packet>): (rs: seq<Received>)
    ensures |rs| == |ps|
  {
    seq(|ps|, i requires 0 <= i < |ps| => AsReceived(ps[i]))
  }

  /** `byteArrayToUInt32`: four bytes, the low one first. */
  method ByteArrayToUInt32(data: bytes) returns (value: nat)
    requires |data| >= 4
    ensures value == LE(data[..4])
  {
    value := data[0] as int + data[1] as int * 0x100 + data[2] as int * 0x1_0000 + data[3] as int * 0x100_0000;
    FourBytes(data);
  }

  lemma FourBytes(data: bytes)
    requires |data| >= 4
    ensures LE(data[..4])
          == data[0] as int + data[1] as int * 0x100 + data[2] as int * 0x1_0000 + data[3] as int * 0x100_0000
  {
    var s := data[..4];
    assert s[1..][1..] == s[2..] && s[2..][1..] == s[3..] && s[3..][1..] == [];
    assert LE(s[3..]) == data[3];
    assert LE(s[2..]) == data[2] as int + 256 * data[3] as int;
    assert LE(s[1..]) == data[1] as int + 256 * LE(s[2..]);
  }

  /** The four bytes of a field, the low one first. */
  function FieldAt(s: bytes, i: nat): (value: nat)
    requires i + 4 <= |s|
  {
    s[i] as int + s[i + 1] as int * 0x100 + s[i + 2] as int * 0x1_0000 + s[i + 3] as int * 0x100_0000
  }

  lemma FourDigits(n: nat)
    requires n < 0x1_0000_0000
    ensures LE(Digits(n, 4)) == n
  {
    assert Pow256(4) == 0x1_0000_0000;
    LEDigits(n, 4);
  }

  lemma FieldIs(s: bytes, i: nat, value: nat)
    requires i + 4 <= |s| && value < 0x1_0000_0000 && s[i..i + 4] == Digits(value, 4)
    ensures FieldAt(s, i) == value
  {
    hide Digits, Pow256;
    FourBytes(s[i..i + 4]);
    assert s[i..i + 4][..4] == s[i..i + 4];
    FourDigits(value);
  }

  /** A packet on the wire, byte for byte: length of the whole, protocol, type and tag, then the payload. */
  lemma FramedBytes(p: Packet)
    requires Fits(p)
    ensures var f := Framed(p);
      && |f| == 16 + |p.payload| && FieldAt(f, 0) == |f| && FieldAt(f, 4) == p.protocol
      && FieldAt(f, 8) == p.packetType && FieldAt(f, 12) == p.tag && f[16..] == p.payload
  {
    hide Digits, FieldAt;
    var f := Framed(p);
    FieldIs(f, 0, |f|);
    FieldIs(f, 4, p.protocol);
    FieldIs(f, 8, p.packetType);
    FieldIs(f, 12, p.tag);
  }

  // --- the reader, on values ---

  /** How many bytes one `recv` gets: at least one and at most what was asked for and is there; the
      plan says how many are in the chunk, and its end closes the connection. */
  function Chunk(rest: bytes, plan: seq<nat>, want: nat): (n: nat)
    ensures n <= want && n <= |rest|
  {
    if rest == [] || plan == [] || want == 0 then 0
    else
      var n := if plan[0] == 0 then 1 else plan[0];
      if n <= want && n <= |rest| then n else if want <= |rest| then want else |rest|
  }

  /** What is left of the stream and of the plan after some reading. */
  datatype Read = Read(data: bytes, rest: bytes, plan: seq<nat>)

  /** `listen`: asks again for what is missing, until nothing comes. */
  function Listened(rest: bytes, plan: seq<nat>, size: nat): (r: Read)
    decreases size
  {
    var n := Chunk(rest, plan, size);
    if n == 0 then Read([], rest, plan)
    else if n == size then Read(rest[..n], rest[n..], plan[1..])
    else
      var more := Listened(rest[n..], plan[1..], size - n);
      Read(rest[..n] + more.data, more.rest, more.plan)
  }

  /** The length a prefix stands for; a prefix that comes in pieces never becomes a length. */
  datatype Prefix = Prefix(value: nat, rest: bytes, plan: seq<nat>)

  function MessageSize(rest: bytes, plan: seq<nat>, want: nat): (r: Prefix)
    requires want <= 4
    decreases |plan|
  {
    var n := Chunk(rest, plan, want);
    if n == 0 then Prefix(0, rest, plan)
    else if n != 4 then MessageSize(rest[n..], plan[1..], 4 - n)
    else Prefix(LE(rest[..4]), rest[4..], plan[1..])
  }

  /** Everything the reader delivers from a stream. Nobody sends a length below the header's own. */
  function Delivered(rest: bytes, plan: seq<nat>): (rs: seq<Received>)
    decreases |plan|
  {
    var prefix := MessageSize(rest, plan, 4);
    PlanShrinks(rest, plan, 4);
    if prefix.value < HEADER_SIZE then [] else
      var body := Listened(prefix.rest, prefix.plan, prefix.value - 4);
      ListenShrinks(prefix.rest, prefix.plan, prefix.value - 4);
      if |body.data| != prefix.value - 4 then [] else
        [Received(prefix.value, LE(body.data[..4]), LE(body.data[4..8]), LE(body.data[8..12]), body.data[12..])]
        + Delivered(body.rest, body.plan)
  }

  lemma {:induction false} PlanShrinks(rest: bytes, plan: seq<nat>, want: nat)
    requires want <= 4
    ensures |MessageSize(rest, plan, want).plan| <= |plan|
    ensures MessageSize(rest, plan, want).value > 0 ==> |MessageSize(rest, plan, want).plan| < |plan|
    ensures want < 4 ==> MessageSize(rest, plan, want).value == 0
    decreases |plan|
  {
    var n := Chunk(rest, plan, want);
    if n != 0 && n != 4 {
      PlanShrinks(rest[n..], plan[1..], 4 - n);
    }
  }

  lemma {:induction false} ListenShrinks(rest: bytes, plan: seq<nat>, size: nat)
    ensures |Listened(rest, plan, size).plan| <= |plan| && |Listened(rest, plan, size).data| <= size
    decreases size
  {
    var n := Chunk(rest, plan, size);
    if n != 0 && n != size {
      ListenShrinks(rest[n..], plan[1..], size - n);
    }
  }

  // --- any chunks ---

  /** The plan behind `size` bytes. */
  function PlanAfter(plan: seq<nat>, size: nat): (r: seq<nat>)
    decreases size
  {
    if size == 0 || plan == [] then plan else
      var n := if plan[0] == 0 then 1 else plan[0];
      PlanAfter(plan[1..], if n < size then size - n else 0)
  }

  /** With enough of the stream to come, `listen` gets exactly what it asks for. */
  lemma {:induction false} ListenGetsAll(rest: bytes, plan: seq<nat>, size: nat)
    requires size <= |rest| <= |plan|
    ensures Listened(rest, plan, size) == Read(rest[..size], rest[size..], PlanAfter(plan, size))
    ensures |rest| - size <= |PlanAfter(plan, size)|
    decreases size
  {
    var n := Chunk(rest, plan, size);
    if size > 0 && n != size {
      ListenGetsAll(rest[n..], plan[1..], size - n);
      assert rest[..n] + rest[n..][..size - n] == rest[..size];
      assert rest[n..][size - n..] == rest[size..];
    } else if size == 0 {
      assert rest[..0] == [] && rest[0..] == rest;
    } else {
      assert PlanAfter(plan, size) == PlanAfter(plan[1..], 0);
    }
  }

  /** How many packets come before the first whose length prefix arrives in pieces. */
  function WholePrefixes(ps: seq<Packet>, plan: seq<nat>): (n: nat)
    ensures n <= |ps|
  {
    if ps == [] || plan == [] || plan[0] < 4 then 0
    else 1 + WholePrefixes(ps[1..], PlanAfter(plan[1..], 12 + |ps[0].payload|))
  }

  lemma HeaderFields(p: Packet, rest: bytes)
    requires Fits(p)
    ensures var s := Framed(p) + rest;
      && LE(s[..4]) == HEADER_SIZE + |p.payload|
      && LE(s[4..8]) == p.protocol && LE(s[8..12]) == p.packetType && LE(s[12..16]) == p.tag
      && s[16..16 + |p.payload|] == p.payload && s[16 + |p.payload|..] == rest
  {
    hide LE, Digits;
    var s := Framed(p) + rest;
    FourDigits(HEADER_SIZE + |p.payload|);
    FourDigits(p.protocol);
    FourDigits(p.packetType);
    FourDigits(p.tag);
    assert s[..4] == Digits(HEADER_SIZE + |p.payload|, 4);
    assert s[4..8] == Digits(p.protocol, 4);
    assert s[8..12] == Digits(p.packetType, 4);
    assert s[12..16] == Digits(p.tag, 4);
  }

  /** The body behind a whole prefix. */
  lemma BodyParts(s: bytes, n: nat)
    requires 12 <= n && 4 + n <= |s|
    ensures var body := s[4..][..n];
      && body[..4] == s[4..8] && body[4..8] == s[8..12] && body[8..12] == s[12..16] && body[12..] == s[16..4 + n]
      && s[4..][n..] == s[4 + n..]
  {
  }

  /** One packet whose prefix arrives whole. */
  lemma DeliveredFirst(p: Packet, rest: bytes, plan: seq<nat>)
    requires Fits(p) && |Framed(p) + rest| <= |plan| && plan[0] >= 4
    ensures |rest| <= |PlanAfter(plan[1..], 12 + |p.payload|)|
    ensures Delivered(Framed(p) + rest, plan)
          == [AsReceived(p)] + Delivered(rest, PlanAfter(plan[1..], 12 + |p.payload|))
  {
    hide LE, Framed, Listened, PlanAfter;
    var s, n := Framed(p) + rest, 12 + |p.payload|;
    HeaderFields(p, rest);
    assert Chunk(s, plan, 4) == 4;
    assert MessageSize(s, plan, 4) == Prefix(LE(s[..4]), s[4..], plan[1..]);
    ListenGetsAll(s[4..], plan[1..], n);
    BodyParts(s, n);
  }

  lemma NothingDelivered(plan: seq<nat>)
    ensures Delivered([], plan) == []
  {
  }

  lemma SplitPrefix(rest: bytes, plan: seq<nat>)
    requires plan == [] || plan[0] < 4
    ensures Delivered(rest, plan) == []
  {
    var n := Chunk(rest, plan, 4);
    if n != 0 {
      PlanShrinks(rest[n..], plan[1..], 4 - n);
    }
  }

  /** The reader delivers, whole and in order, exactly the packets before the first one whose
      prefix arrives in pieces. */
  lemma {:induction false} DeliversInOrder(ps: seq<Packet>, plan: seq<nat>)
    requires (forall i :: 0 <= i < |ps| ==> Fits(ps[i])) && |Wire(ps)| <= |plan|
    ensures Delivered(Wire(ps), plan) == AllReceived(ps[..WholePrefixes(ps, plan)])
    decreases |ps|
  {
    hide Delivered, Framed, PlanAfter;
    if ps == [] {
      NothingDelivered(plan);
    } else if plan == [] || plan[0] < 4 {
      SplitPrefix(Wire(ps), plan);
    } else {
      var after := PlanAfter(plan[1..], 12 + |ps[0].payload|);
      DeliveredFirst(ps[0], Wire(ps[1..]), plan);
      DeliversInOrder(ps[1..], after);
      var n := WholePrefixes(ps[1..], after);
      assert ps[..1 + n] == [ps[0]] + ps[1..][..n];
      assert AllReceived(ps[..1 + n]) == [AsReceived(ps[0])] + AllReceived(ps[1..][..n]);
    }
  }

  /** All packets are delivered if and only if every length prefix arrives in one piece. */
  lemma DeliversAllIff(ps: seq<Packet>, plan: seq<nat>)
    requires (forall i :: 0 <= i < |ps| ==> Fits(ps[i])) && |Wire(ps)| <= |plan|
    ensures Delivered(Wire(ps), plan) == AllReceived(ps) <==> WholePrefixes(ps, plan) == |ps|
  {
    hide Delivered, WholePrefixes, AllReceived;
    DeliversInOrder(ps, plan);
    assert ps[..|ps|] == ps;
  }

  // --- the socket client ---

  class SocketClient {
    /** What arrives on the socket, and in which chunks. */
    var rest: bytes
    var plan: seq<nat>
    /** What has gone out. */
    var sent: bytes
    var buffer: bytes
    var dataBuffer: array<byte>
    var dataBufferCapacity: nat
    var callbacks: seq<Received>

    ghost predicate Valid()
      reads this
    {
      dataBufferCapacity == dataBuffer.Length
    }

    constructor (rest: bytes, plan: seq<nat>)
      ensures Valid() && this.rest == rest && this.plan == plan && sent == [] && callbacks == []
      ensures fresh(dataBuffer)
    {
      this.rest, this.plan, sent, buffer, callbacks := rest, plan, [], [0, 0, 0, 0], [];
      dataBuffer, dataBufferCapacity := new byte[0], 0;
    }

    method Recv(want: nat) returns (chunk: bytes)
      modifies this`rest, this`plan
      ensures chunk == old(rest)[..Chunk(old(rest), old(plan), want)] && rest == old(rest)[|chunk|..]
      ensures plan == if chunk == [] then old(plan) else old(plan)[1..]
    {
      var n := Chunk(rest, plan, want);
      chunk := rest[..n];
      if n > 0 {
        rest, plan := rest[n..], plan[1..];
      }
    }

    /** Only the length; a piece of a prefix makes it ask for the rest as if for another one. */
    method RecieveMessageSize(sizeToRecieve: nat) returns (size: nat)
      requires sizeToRecieve <= 4
      modifies this`rest, this`plan, this`buffer
      ensures Prefix(size, rest, plan) == MessageSize(old(rest), old(plan), sizeToRecieve)
      decreases |plan|
    {
      var chunk := Recv(sizeToRecieve);
      if |chunk| == 0 {
        return 0;
      } else if |chunk| != 4 {
        size := RecieveMessageSize(4 - |chunk|);
      } else {
        buffer := chunk;
        size := ByteArrayToUInt32(buffer);
        assert buffer[..4] == old(rest)[..4];
      }
    }

    /** `recv` writes at `at`; what is before stays. */
    method Store(at: nat, chunk: bytes)
      requires at + |chunk| <= dataBuffer.Length
      modifies dataBuffer
      ensures dataBuffer[..at + |chunk|] == old(dataBuffer[..at]) + chunk
    {
      forall i | at <= i < at + |chunk| {
        dataBuffer[i] := chunk[i - at];
      }
    }

    /** Reads into the data buffer from `at` on, and again for what is missing. */
    method Listen(at: nat, size: nat) returns (received: nat)
      requires at + size <= dataBuffer.Length
      modifies this`rest, this`plan, dataBuffer
      ensures var r := Listened(old(rest), old(plan), size);
        && received == |r.data| <= size && rest == r.rest && plan == r.plan
        && dataBuffer[..at + received] == old(dataBuffer[..at]) + r.data
      decreases size
    {
      hide Chunk;
      ghost var before := dataBuffer[..at];
      var chunk := Recv(size);
      var n := |chunk|;
      Store(at, chunk);
      if n == 0 || n == size {
        return n;
      }
      ListenShrinks(rest, plan, size - n);
      ghost var tail := Listened(rest, plan, size - n).data;
      var more := Listen(at + n, size - n);
      assert (before + chunk) + tail == before + (chunk + tail);
      return n + more;
    }

    /** Reads packets until the connection ends. */
    method ListenLoop()
      requires Valid()
      modifies this, dataBuffer
      ensures callbacks == old(callbacks) + Delivered(old(rest), old(plan))
    {
      hide Delivered;
      ghost var all := callbacks + Delivered(rest, plan);
      while true
        invariant Valid() && all == callbacks + Delivered(rest, plan)
        invariant dataBuffer == old(dataBuffer) || fresh(dataBuffer)
        decreases |plan|
      {
        ghost var none := Delivered(rest, plan);
        var more := ReadPacket();
        if !more {
          assert callbacks + none == callbacks;
          break;
        }
      }
    }

    /** One pass of the loop; false where it breaks. */
    method ReadPacket() returns (more: bool)
      requires Valid()
      modifies this, dataBuffer
      ensures Valid() && (dataBuffer == old(dataBuffer) || fresh(dataBuffer))
      ensures more ==> |plan| < |old(plan)|
      ensures more ==> callbacks + Delivered(rest, plan) == old(callbacks) + Delivered(old(rest), old(plan))
      ensures !more ==> callbacks == old(callbacks) && Delivered(old(rest), old(plan)) == []
    {
      hide MessageSize, Listened, LE, Delivered;
      DeliveredUnfolds(rest, plan);
      PlanShrinks(rest, plan, 4);
      var dataSize := RecieveMessageSize(4);
      if dataSize < HEADER_SIZE {
        return false;
      }
      if dataSize - 4 > dataBufferCapacity {
        dataBuffer := new byte[dataSize - 4];
        dataBufferCapacity := dataSize - 4;
      }
      ghost var r := Listened(rest, plan, dataSize - 4);
      ListenShrinks(rest, plan, dataSize - 4);
      var received := Listen(0, dataSize - 4);
      if received != dataSize - 4 {
        return false;
      }
      assert dataBuffer[..received] == r.data;
      Callback(dataSize, dataBuffer[..received]);
      return true;
    }

    /** The header's fields, and the payload behind them, go to the callback. */
    method Callback(dataSize: nat, body: bytes)
      requires |body| >= 12
      modifies this`callbacks
      ensures callbacks == old(callbacks)
            + [Received(dataSize, LE(body[..4]), LE(body[4..8]), LE(body[8..12]), body[12..])]
    {
      var protocol := ByteArrayToUInt32(body);
      var packetType := ByteArrayToUInt32(body[4..]);
      var tag := ByteArrayToUInt32(body[8..]);
      assert body[4..][..4] == body[4..8] && body[8..][..4] == body[8..12];
      callbacks := callbacks + [Received(dataSize, protocol, packetType, tag, body[12..])];
    }

    // --- sending, with the lock held ---

    method Send(p: Packet)
      modifies this`sent
      ensures sent == old(sent) + Framed(p)
    {
      sent := sent + Header(p);
      if |p.payload| > 0 {
        sent := sent + p.payload;
      }
    }

    /** The payload in two buffers. */
    method Send2(p: Packet, data1: bytes, data2: bytes)
      requires p.payload == data1 + data2
      modifies this`sent
      ensures sent == old(sent) + Framed(p)
    {
      sent := sent + Header(p);
      if |data1| > 0 {
        sent := sent + data1;
      }
      if |data2| > 0 {
        sent := sent + data2;
      }
    }
  }

  lemma DeliveredUnfolds(rest: bytes, plan: seq<nat>)
    ensures var prefix := MessageSize(rest, plan, 4);
      if prefix.value < HEADER_SIZE then Delivered(rest, plan) == []
      else
        var body := Listened(prefix.rest, prefix.plan, prefix.value - 4);
        Delivered(rest, plan) ==
          if |body.data| != prefix.value - 4 then []
          else
            [Received(prefix.value, LE(body.data[..4]), LE(body.data[4..8]), LE(body.data[8..12]), body.data[12..])]
            + Delivered(body.rest, body.plan)
  {
    hide MessageSize, Listened, LE;
  }

  // --- many senders ---

  /** One buffer at a time goes to the socket: the header, then what there is of the payload. */
  datatype Sending = Sending(sender: nat, packet: Packet, pieces: seq<bytes>)

  datatype State = State(wire: bytes, holder: Option<Sending>, locked: seq<Packet>)

  datatype Event =
    | Lock(sender: nat, packet: Packet, data1: bytes)
    | Write(sender: nat)
    | Unlock(sender: nat)

  const INITIAL: State := State([], None, [])

  /** The buffers of a packet whose payload is given in two parts; empty ones are not sent. */
  function Pieces(p: Packet, data1: bytes): (s: seq<bytes>)
    requires data1 <= p.payload
  {
    var data2 := p.payload[|data1|..];
    [Header(p)] + (if data1 == [] then [] else [data1]) + (if data2 == [] then [] else [data2])
  }

  function Flat(s: seq<bytes>): (f: bytes)
  {
    if s == [] then [] else s[0] + Flat(s[1..])
  }

  predicate Enabled(s: State, e: Event)
  {
    match e
    case Lock(_, packet, data1) => s.holder.None? && data1 <= packet.payload
    case Write(sender) => s.holder.Some? && s.holder.value.sender == sender && s.holder.value.pieces != []
    case Unlock(sender) => s.holder.Some? && s.holder.value.sender == sender && s.holder.value.pieces == []
  }

  function Apply(s: State, e: Event): (t: State)
    requires Enabled(s, e)
  {
    match e
    case Lock(sender, packet, data1) =>
      s.(holder := Some(Sending(sender, packet, Pieces(packet, data1))), locked := s.locked + [packet])
    case Write(_) =>
      var h := s.holder.value;
      s.(wire := s.wire + h.pieces[0], holder := Some(h.(pieces := h.pieces[1..])))
    case Unlock(_) => s.(holder := None)
  }

  function After(es: seq<Event>): (s: Option<State>)
  {
    if es == [] then Some(INITIAL) else
      match After(es[..|es| - 1])
      case None => None
      case Some(s) => if Enabled(s, es[|es| - 1]) then Some(Apply(s, es[|es| - 1])) else None
  }

  /** What is on the wire and what the lock's holder still has to write make up the packets in the
      order in which the lock was taken. */
  ghost predicate InLockOrder(s: State)
  {
    s.wire + (if s.holder.Some? then Flat(s.holder.value.pieces) else []) == Wire(s.locked)
  }

  lemma {:induction false} WireAppend(ps: seq<Packet>, p: Packet)
    ensures Wire(ps + [p]) == Wire(ps) + Framed(p)
  {
    hide Framed;
    if ps == [] {
      assert [p][1..] == [];
    } else {
      assert (ps + [p])[1..] == ps[1..] + [p];
      WireAppend(ps[1..], p);
    }
  }

  lemma PiecesFlat(p: Packet, data1: bytes)
    requires data1 <= p.payload
    ensures Flat(Pieces(p, data1)) == Framed(p)
  {
    hide Header;
    var data2 := p.payload[|data1|..];
    assert p.payload == data1 + data2;
    var h, none: seq<bytes> := Header(p), [];
    assert [h, data1, data2][1..] == [data1, data2] && [data1, data2][1..] == [data2] && [data2][1..] == none;
    assert [h, data1][1..] == [data1] && [data1][1..] == none && [h, data2][1..] == [data2] && [h][1..] == none;
    assert Pieces(p, data1) == if data1 == [] then (if data2 == [] then [h] else [h, data2])
                               else if data2 == [] then [h, data1] else [h, data1, data2];
    assert Flat(none) == [] && Flat([data1]) == data1 && Flat([data2]) == data2;
    assert Flat([data1, data2]) == data1 + data2;
  }

  lemma StepKeepsOrder(s: State, e: Event)
    requires InLockOrder(s) && Enabled(s, e)
    ensures InLockOrder(Apply(s, e))
  {
    hide Pieces, Framed, Wire;
    match e {
      case Lock(_, packet, data1) =>
        PiecesFlat(packet, data1);
        WireAppend(s.locked, packet);
      case Write(_) =>
        var pieces := s.holder.value.pieces;
        assert s.wire + (pieces[0] + Flat(pieces[1..])) == s.wire + pieces[0] + Flat(pieces[1..]);
      case Unlock(_) =>
    }
  }

  lemma {:induction false} EveryRun(es: seq<Event>)
    requires After(es).Some?
    ensures InLockOrder(After(es).value)
  {
    hide InLockOrder, Apply, Enabled;
    if es == [] {
      EmptyWire();
    } else {
      EveryRun(es[..|es| - 1]);
      StepKeepsOrder(After(es[..|es| - 1]).value, es[|es| - 1]);
    }
  }

  lemma EmptyWire()
    ensures InLockOrder(INITIAL)
  {
  }

  lemma AfterNext(es: seq<Event>, e: Event)
    requires After(es).Some? && Enabled(After(es).value, e)
    ensures After(es + [e]) == Some(Apply(After(es).value, e))
  {
    assert (es + [e])[..|es|] == es;
  }

  function Writes(sender: nat, n: nat): (es: seq<Event>)
  {
    if n == 0 then [] else [Write(sender)] + Writes(sender, n - 1)
  }

  lemma {:induction false} WritesOut(es: seq<Event>, sender: nat, n: nat)
    requires After(es).Some? && After(es).value.holder.Some?
    requires var h := After(es).value.holder.value; h.sender == sender && |h.pieces| == n
    ensures var s := After(es).value;
      After(es + Writes(sender, n))
        == Some(s.(wire := s.wire + Flat(s.holder.value.pieces), holder := Some(s.holder.value.(pieces := []))))
    decreases n
  {
    hide After;
    var s := After(es).value;
    var pieces := s.holder.value.pieces;
    if n == 0 {
      assert es + Writes(sender, 0) == es && pieces == [] && s.wire + [] == s.wire;
    } else {
      AfterNext(es, Write(sender));
      WritesOut(es + [Write(sender)], sender, n - 1);
      assert es + [Write(sender)] + Writes(sender, n - 1) == es + Writes(sender, n);
      assert s.wire + pieces[0] + Flat(pieces[1..]) == s.wire + (pieces[0] + Flat(pieces[1..]));
    }
  }

  /** Whoever gets the lock can put the whole packet on the wire, and the lock is free again. */
  lemma SendGoesOut(es: seq<Event>, sender: nat, packet: Packet, data1: bytes)
    requires After(es).Some? && After(es).value.holder.None? && data1 <= packet.payload
    ensures var s := After(es).value;
      After(es + [Lock(sender, packet, data1)] + Writes(sender, |Pieces(packet, data1)|) + [Unlock(sender)])
        == Some(State(s.wire + Framed(packet), None, s.locked + [packet]))
  {
    hide After, Pieces, Flat, Writes;
    AfterNext(es, Lock(sender, packet, data1));
    var locked := es + [Lock(sender, packet, data1)];
    WritesOut(locked, sender, |Pieces(packet, data1)|);
    PiecesFlat(packet, data1);
    AfterNext(locked + Writes(sender, |Pieces(packet, data1)|), Unlock(sender));
  }

  /** For any order in which senders get the lock and any chunks that keep the length prefixes whole,
      the reader delivers exactly the packets sent, in lock order. */
  lemma SentIsDelivered(es: seq<Event>, plan: seq<nat>)
    requires After(es).Some? && After(es).value.holder.None?
    requires forall i :: 0 <= i < |After(es).value.locked| ==> Fits(After(es).value.locked[i])
    requires |After(es).value.wire| <= |plan| && WholePrefixes(After(es).value.locked, plan) == |After(es).value.locked|
    ensures Delivered(After(es).value.wire, plan) == AllReceived(After(es).value.locked)
  {
    hide Delivered, WholePrefixes, Wire, After;
    EveryRun(es);
    var s := After(es).value;
    assert s.wire + [] == s.wire;
    DeliversAllIff(s.locked, plan);
  }
}
