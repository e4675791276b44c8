/** Two ends tell each other their subscriptions: with a connect packet or its answer, and with one
    request for each later subscription. The links deliver in order. When a link is lost, both ends
    keep the device, and the next link may get any number at either end. */
module SubscriptionExchange {
  import opened ClientDispatch
  import opened Common

  datatype Side = Left | Right

  function Other(side: Side): (o: Side)
  {
    if side.Left? then Right else Left
  }

  /** The link: its device's number at both ends, and how many packets have arrived there. */
  datatype Link = Link(left: nat, right: nat, toLeft: nat, toRight: nat)

  datatype State = State(left: End, right: End, link: Option<Link>)

  function EndOf(s: State, side: Side): (e: End)
  {
    if side.Left? then s.left else s.right
  }

  function With(s: State, side: Side, e: End): (t: State)
  {
    if side.Left? then s.(left := e) else s.(right := e)
  }

  /** The number of the link's device at an end. */
  function NumberAt(l: Link, side: Side): (d: nat)
  {
    if side.Left? then l.left else l.right
  }

  function Arrived(l: Link, side: Side): (n: nat)
  {
    if side.Left? then l.toLeft else l.toRight
  }

  function ArrivedNext(l: Link, side: Side): (m: Link)
  {
    if side.Left? then l.(toLeft := l.toLeft + 1) else l.(toRight := l.toRight + 1)
  }

  /** The link is up at an end: its device is there and connected. */
  predicate UpAt(s: State, side: Side)
  {
    s.link.Some? &&
    var d := NumberAt(s.link.value, side);
    d in EndOf(s, side).devices && EndOf(s, side).devices[d].status.Connected?
  }

  /** The device through which an end sees the other one. */
  function DeviceAt(s: State, side: Side): (device: Device)
    requires UpAt(s, side)
  {
    EndOf(s, side).devices[NumberAt(s.link.value, side)]
  }

  /** What is on the way to an end: what the other end's device has let through, but for what has
      arrived. */
  function OnTheWay(s: State, side: Side): (packets: seq<Packet>)
  {
    if UpAt(s, Other(side)) && Arrived(s.link.value, side) <= |DeviceAt(s, Other(side)).sent| then
      DeviceAt(s, Other(side)).sent[Arrived(s.link.value, side)..]
    else []
  }

  datatype Event =
    | Up(left: nat, right: nat)
    | Down
    | Subscribe(side: Side, channel: nat)
    | Hello(side: Side)
    | Chat(side: Side, packet: Packet)
    | Deliver(side: Side, now: int)

  predicate IsHandshake(p: Packet)
  {
    p.Connect? || p.ConnectAck?
  }

  predicate Enabled(s: State, e: Event)
  {
    match e
    case Up(_, _) => s.link.None?
    case Down => UpAt(s, Left) && UpAt(s, Right)
    case Subscribe(_, _) => true
    case Hello(side) => UpAt(s, side)
    case Chat(side, packet) => UpAt(s, side) && !IsHandshake(packet) && !packet.SubscribeRequest?
    case Deliver(side, _) => UpAt(s, side) && OnTheWay(s, side) != []
  }

  /** A new device takes the number, whatever had it before. */
  function Attached(e: End, d: nat): (f: End)
  {
    e.(devices := Answered(Created(e.devices, d, true), d, true))
  }

  function Detached(e: End, d: nat): (f: End)
    requires d in e.devices
  {
    e.(devices := Ended(e.devices, d))
  }

  function Apply(s: State, e: Event): (t: State)
    requires Enabled(s, e)
  {
    match e
    case Up(l, r) => State(Attached(s.left, l), Attached(s.right, r), Some(Link(l, r, 0, 0)))
    case Down => State(Detached(s.left, s.link.value.left), Detached(s.right, s.link.value.right), None)
    case Subscribe(side, channel) => With(s, side, Subscribed(EndOf(s, side), channel))
    case Hello(side) => With(s, side, Greeted(EndOf(s, side), NumberAt(s.link.value, side)))
    case Chat(side, packet) =>
      var f := EndOf(s, side);
      With(s, side, f.(devices := SentTo(f.devices, NumberAt(s.link.value, side), packet)))
    case Deliver(side, now) =>
      var f := Handled(EndOf(s, side), NumberAt(s.link.value, side), OnTheWay(s, side)[0], now);
      With(s, side, f).(link := Some(ArrivedNext(s.link.value, side)))
  }

  /** A run between two ends of the given names. */
  function After(left: string, right: string, es: seq<Event>): (s: Option<State>)
  {
    if es == [] then Some(Initial(left, right)) else
      match After(left, right, es[..|es| - 1])
      case None => None
      case Some(s) => if Enabled(s, es[|es| - 1]) then Some(Apply(s, es[|es| - 1])) else None
  }

  function Initial(left: string, right: string): (s: State)
  {
    State(End(left, [], map[], map[]), End(right, [], map[], map[]), None)
  }

  // --- one direction ---

  /** What an end knows of its peer's subscriptions. */
  function Copy(e: End, peer: string): (channels: seq<nat>)
  {
    Known(e.clients, peer).subscriptions
  }

  /** Receiving the link's packets one after the other, the copy always agrees with what a connect
      packet says and ends up as the peer's own list, once the peer has been named. */
  predicate Consistent(peer: string, named: bool, copy: seq<nat>, link: seq<Packet>, own: seq<nat>)
    decreases |link|
  {
    if link == [] then named ==> copy == own
    else if IsHandshake(link[0]) then
      && link[0].name == peer && (named ==> link[0].channels == copy)
      && Consistent(peer, true, link[0].channels, link[1..], own)
    else if link[0].SubscribeRequest? then
      Consistent(peer, named, if named then copy + [link[0].channel] else copy, link[1..], own)
    else Consistent(peer, named, copy, link[1..], own)
  }

  lemma {:induction false} ConsistentRequest(peer: string, named: bool, copy: seq<nat>, link: seq<Packet>,
                                             own: seq<nat>, channel: nat)
    requires Consistent(peer, named, copy, link, own)
    ensures Consistent(peer, named, copy, link + [SubscribeRequest(channel)], own + [channel])
    decreases |link|
  {
    var p := SubscribeRequest(channel);
    if link == [] {
      assert [p][1..] == [];
    } else {
      assert (link + [p])[1..] == link[1..] + [p];
      if IsHandshake(link[0]) {
        ConsistentRequest(peer, true, link[0].channels, link[1..], own, channel);
      } else if link[0].SubscribeRequest? {
        ConsistentRequest(peer, named, if named then copy + [link[0].channel] else copy, link[1..], own, channel);
      } else {
        ConsistentRequest(peer, named, copy, link[1..], own, channel);
      }
    }
  }

  /** A connect packet with the whole list, or a packet that says nothing about subscriptions. */
  lemma {:induction false} ConsistentOther(peer: string, named: bool, copy: seq<nat>, link: seq<Packet>, own: seq<nat>,
                                           p: Packet)
    requires Consistent(peer, named, copy, link, own) && !p.SubscribeRequest?
    requires IsHandshake(p) ==> p.name == peer && p.channels == own
    ensures Consistent(peer, named, copy, link + [p], own)
    decreases |link|
  {
    if link == [] {
      assert [p][1..] == [];
    } else {
      assert (link + [p])[1..] == link[1..] + [p];
      if IsHandshake(link[0]) {
        ConsistentOther(peer, true, link[0].channels, link[1..], own, p);
      } else if link[0].SubscribeRequest? {
        ConsistentOther(peer, named, if named then copy + [link[0].channel] else copy, link[1..], own, p);
      } else {
        ConsistentOther(peer, named, copy, link[1..], own, p);
      }
    }
  }

  /** A named peer's copy is a prefix of its own list. */
  lemma {:induction false} CopyIsPrefix(peer: string, copy: seq<nat>, link: seq<Packet>, own: seq<nat>)
    requires Consistent(peer, true, copy, link, own)
    ensures copy <= own
    decreases |link|
  {
    if link != [] {
      if IsHandshake(link[0]) {
        CopyIsPrefix(peer, link[0].channels, link[1..], own);
      } else if link[0].SubscribeRequest? {
        CopyIsPrefix(peer, copy + [link[0].channel], link[1..], own);
      } else {
        CopyIsPrefix(peer, copy, link[1..], own);
      }
    }
  }

  /** The channels of the requests on the way, behind the last connect packet if there is one. */
  function InFlight(link: seq<Packet>): (channels: seq<nat>)
  {
    if link == [] then [] else
      var last := link[|link| - 1];
      if IsHandshake(last) then []
      else InFlight(link[..|link| - 1]) + if last.SubscribeRequest? then [last.channel] else []
  }

  predicate HasHandshake(link: seq<Packet>)
  {
    exists k :: 0 <= k < |link| && IsHandshake(link[k])
  }

  lemma {:induction false} InFlightFront(p: Packet, link: seq<Packet>)
    ensures InFlight([p] + link)
          == (if HasHandshake(link) || IsHandshake(p) || !p.SubscribeRequest? then [] else [p.channel])
                                    + InFlight(link)
    decreases |link|
  {
    if link == [] {
      assert [p][..0] == [];
      assert [p] + link == [p];
    } else {
      var last, rest := link[|link| - 1], link[..|link| - 1];
      assert ([p] + link)[..|link|] == [p] + rest;
      InFlightFront(p, rest);
      if IsHandshake(last) {
        assert HasHandshake(link);
      } else {
        HandshakeBefore(link);
      }
    }
  }

  lemma HandshakeBefore(link: seq<Packet>)
    requires link != [] && !IsHandshake(link[|link| - 1])
    ensures HasHandshake(link) <==> HasHandshake(link[..|link| - 1])
  {
    var rest := link[..|link| - 1];
    if HasHandshake(link) {
      var k :| 0 <= k < |link| && IsHandshake(link[k]);
      assert rest[k] == link[k];
    }
    if HasHandshake(rest) {
      var k :| 0 <= k < |rest| && IsHandshake(rest[k]);
      assert link[k] == rest[k];
    }
  }

  /** With no connect packet on the way, the copy and the requests in flight make up the list. */
  lemma {:induction false} CopyAndInFlight(peer: string, copy: seq<nat>, link: seq<Packet>, own: seq<nat>)
    requires Consistent(peer, true, copy, link, own) && !HasHandshake(link)
    ensures copy + InFlight(link) == own
    decreases |link|
  {
    if link == [] {
      assert copy + [] == copy;
    } else {
      assert !IsHandshake(link[0]);
      assert forall k :: 0 <= k < |link[1..]| ==> link[1..][k] == link[k + 1];
      assert link == [link[0]] + link[1..];
      InFlightFront(link[0], link[1..]);
      if link[0].SubscribeRequest? {
        CopyAndInFlight(peer, copy + [link[0].channel], link[1..], own);
      } else {
        CopyAndInFlight(peer, copy, link[1..], own);
      }
    }
  }

  /** With one on the way, what it says and the requests behind it make up the list. */
  lemma {:induction false} HandshakeCompletes(peer: string, named: bool, copy: seq<nat>, link: seq<Packet>,
                                              own: seq<nat>, k: nat)
    requires Consistent(peer, named, copy, link, own) && k < |link| && IsHandshake(link[k])
    requires forall i :: k < i < |link| ==> !IsHandshake(link[i])
    ensures link[k].channels + InFlight(link) == own
    decreases |link|
  {
    hide InFlight;
    assert link == [link[0]] + link[1..];
    InFlightFront(link[0], link[1..]);
    if k == 0 {
      CopyAndInFlight(peer, link[0].channels, link[1..], own);
    } else {
      assert link[1..][k - 1] == link[k];
      assert HasHandshake(link[1..]);
      if IsHandshake(link[0]) {
        HandshakeCompletes(peer, true, link[0].channels, link[1..], own, k - 1);
      } else if link[0].SubscribeRequest? {
        HandshakeCompletes(peer, named, if named then copy + [link[0].channel] else copy, link[1..], own, k - 1);
      } else {
        HandshakeCompletes(peer, named, copy, link[1..], own, k - 1);
      }
    }
  }

  /** Connect packets on the way bear the peer's name. */
  lemma {:induction false} HandshakeNames(peer: string, named: bool, copy: seq<nat>, link: seq<Packet>, own: seq<nat>,
                                          k: nat)
    requires Consistent(peer, named, copy, link, own) && k < |link| && IsHandshake(link[k])
    ensures link[k].name == peer
    decreases |link|
  {
    if k > 0 {
      if IsHandshake(link[0]) {
        HandshakeNames(peer, true, link[0].channels, link[1..], own, k - 1);
      } else if link[0].SubscribeRequest? {
        HandshakeNames(peer, named, if named then copy + [link[0].channel] else copy, link[1..], own, k - 1);
      } else {
        HandshakeNames(peer, named, copy, link[1..], own, k - 1);
      }
    }
  }

  // --- both directions ---

  /** What one end knows of the other: its own device for the other one, and what is on the way. */
  ghost predicate Knows(e: End, d: nat, peer: End, coming: seq<Packet>)
  {
    && d in e.devices && e.devices[d].status.Connected?
    && (e.devices[d].name == peer.name || e.devices[d].name == "")
    && Consistent(peer.name, e.devices[d].name == peer.name, Copy(e, peer.name), coming, peer.own)
  }

  /** How a step changes one end's device on the link: it may let one more packet through, and a
      packet about subscriptions says what it should. */
  ghost predicate Steps(e: End, f: End, d: nat, more: seq<Packet>)
  {
    && d in e.devices && d in f.devices && e.devices[d].status.Connected? && f.devices[d].status.Connected?
    && f.name == e.name && f.devices[d].sent == e.devices[d].sent + more && |more| <= 1
    && if more != [] && more[0].SubscribeRequest? then f.own == e.own + [more[0].channel]
       else
         && f.own == e.own
         && (more != [] && IsHandshake(more[0]) ==> more[0].name == e.name && more[0].channels == e.own)
  }

  ghost predicate Linked(s: State)
  {
    && UpAt(s, Left) && UpAt(s, Right)
    && (forall side: Side :: Arrived(s.link.value, side) <= |DeviceAt(s, Other(side)).sent|)
    && (forall side: Side :: KnowsAt(s, side))
  }

  ghost predicate KnowsAt(s: State, side: Side)
  {
    s.link.Some? && Knows(EndOf(s, side), NumberAt(s.link.value, side), EndOf(s, Other(side)), OnTheWay(s, side))
  }

  ghost predicate Invariant(s: State)
  {
    && s.left.name != "" && s.right.name != ""
    && (forall side: Side :: CopyFits(s, side))
    && (s.link.Some? ==> Linked(s))
  }

  /** What an end has noted of the other's subscriptions is a prefix of them. */
  predicate CopyFits(s: State, side: Side)
  {
    Copy(EndOf(s, side), EndOf(s, Other(side)).name) <= EndOf(s, Other(side)).own
  }

  /** A step of the peer, seen from the other end. */
  lemma KnowsPeerStep(e: End, d: nat, peer: End, after: End, coming: seq<Packet>, c: nat, more: seq<Packet>)
    requires Knows(e, d, peer, coming) && Steps(peer, after, c, more)
    ensures Knows(e, d, after, coming + more)
  {
    hide Consistent;
    var named, copy := e.devices[d].name == peer.name, Copy(e, peer.name);
    if more == [] {
      assert coming + more == coming;
    } else {
      assert more == [more[0]];
      if more[0].SubscribeRequest? {
        ConsistentRequest(peer.name, named, copy, coming, peer.own, more[0].channel);
      } else {
        ConsistentOther(peer.name, named, copy, coming, peer.own, more[0]);
      }
    }
  }

  /** A step of an end that notes nothing leaves what it knows. */
  lemma KnowsOwnStep(e: End, f: End, d: nat, peer: End, coming: seq<Packet>)
    requires Knows(e, d, peer, coming) && d in f.devices && f.devices[d].status.Connected?
    requires f.devices[d].name == e.devices[d].name && f.clients == e.clients
    ensures Knows(f, d, peer, coming)
  {
  }

  /** Receiving a packet moves the agreement along. */
  lemma KnowsDeliver(e: End, d: nat, peer: End, coming: seq<Packet>, now: int)
    requires Knows(e, d, peer, coming) && coming != [] && peer.name != "" && Copy(e, peer.name) <= peer.own
    ensures var f := Handled(e, d, coming[0], now);
      Knows(f, d, peer, coming[1..]) && Copy(f, peer.name) <= peer.own
  {
    hide SentByName;
    var named, copy := e.devices[d].name == peer.name, Copy(e, peer.name);
    HandledDevice(e, d, coming[0], now);
    if IsHandshake(coming[0]) {
      CopyIsPrefix(peer.name, coming[0].channels, coming[1..], peer.own);
    } else if coming[0].SubscribeRequest? && named {
      CopyIsPrefix(peer.name, copy + [coming[0].channel], coming[1..], peer.own);
    }
  }

  /** What a packet leaves of the device it came from: a connect packet names it, and one answer at
      most goes through it. */
  lemma HandledDevice(e: End, d: nat, packet: Packet, now: int)
    requires d in e.devices && e.devices[d].status.Connected?
    ensures var f := Handled(e, d, packet, now);
      && f.name == e.name && f.own == e.own
      && d in f.devices && f.devices[d].status.Connected?
      && f.devices[d].name == (if IsHandshake(packet) then packet.name else e.devices[d].name)
      && (f.devices[d].sent == e.devices[d].sent
          || f.devices[d].sent == e.devices[d].sent + [KeepAliveResponse]
          || f.devices[d].sent == e.devices[d].sent + [ConnectAck(e.name, Carried(e.own))])
  {
    hide DeviceFor;
    if packet.Connect? {
      var f := Met(e, d, packet.name, packet.channels, now);
      SentByNameIs(f.devices, packet.name, ConnectAck(e.name, Carried(e.own)));
    } else if packet.KeepAliveRequest? {
      SentByNameIs(e.devices, e.devices[d].name, KeepAliveResponse);
    }
  }

  lemma HandledSteps(e: End, d: nat, packet: Packet, now: int) returns (more: seq<Packet>)
    requires d in e.devices && e.devices[d].status.Connected? && |e.own| < 0x1_0000
    ensures Steps(e, Handled(e, d, packet, now), d, more)
  {
    hide Handled;
    HandledDevice(e, d, packet, now);
    CarriedIff(e.own);
    var f := Handled(e, d, packet, now);
    more := f.devices[d].sent[|e.devices[d].sent|..];
    assert e.devices[d].sent + [] == e.devices[d].sent;
  }

  /** One end takes a step, the other one stays as it is. */
  lemma LinkedStep(s: State, side: Side, f: End, more: seq<Packet>)
    requires Linked(s)
    requires var d := NumberAt(s.link.value, side);
      && Steps(EndOf(s, side), f, d, more) && f.clients == EndOf(s, side).clients
      && f.devices[d].name == EndOf(s, side).devices[d].name
    ensures Linked(With(s, side, f))
  {
    hide Knows, Consistent;
    var t, d := With(s, side, f), NumberAt(s.link.value, side);
    var o := Other(side);
    assert KnowsAt(s, side) && KnowsAt(s, o);
    assert Arrived(s.link.value, side) <= |DeviceAt(s, o).sent| && Arrived(s.link.value, o) <= |DeviceAt(s, side).sent|;
    assert OnTheWay(t, o) == OnTheWay(s, o) + more;
    KnowsPeerStep(EndOf(s, o), NumberAt(s.link.value, o), EndOf(s, side), f, OnTheWay(s, o), d, more);
    KnowsStaysOwn(s, side, f, more);
    assert KnowsAt(t, side) && KnowsAt(t, o);
    BothSides(t);
  }

  lemma KnowsStaysOwn(s: State, side: Side, f: End, more: seq<Packet>)
    requires Linked(s)
    requires var d := NumberAt(s.link.value, side);
      && Steps(EndOf(s, side), f, d, more) && f.clients == EndOf(s, side).clients
      && f.devices[d].name == EndOf(s, side).devices[d].name
    ensures KnowsAt(With(s, side, f), side)
  {
    hide Consistent;
    assert KnowsAt(s, side);
    assert OnTheWay(With(s, side, f), side) == OnTheWay(s, side);
    KnowsOwnStep(EndOf(s, side), f, NumberAt(s.link.value, side), EndOf(s, Other(side)), OnTheWay(s, side));
  }

  lemma BothSides(t: State)
    requires UpAt(t, Left) && UpAt(t, Right) && KnowsAt(t, Left) && KnowsAt(t, Right)
    requires Arrived(t.link.value, Left) <= |DeviceAt(t, Right).sent|
    requires Arrived(t.link.value, Right) <= |DeviceAt(t, Left).sent|
    ensures Linked(t)
  {
    hide KnowsAt;
    forall side: Side ensures KnowsAt(t, side) && Arrived(t.link.value, side) <= |DeviceAt(t, Other(side)).sent| {
      if side.Left? {
      } else {
      }
    }
  }

  lemma SubscribeKeeps(s: State, side: Side, channel: nat)
    requires Invariant(s)
    ensures Invariant(Apply(s, Subscribe(side, channel)))
  {
    hide Knows, Consistent;
    var e, f := EndOf(s, side), Subscribed(EndOf(s, side), channel);
    assert CopyFits(s, Left) && CopyFits(s, Right);
    if s.link.Some? {
      var d := NumberAt(s.link.value, side);
      assert UpAt(s, side);
      assert Steps(e, f, d, [SubscribeRequest(channel)]);
      LinkedStep(s, side, f, [SubscribeRequest(channel)]);
    }
  }

  /** A packet to the other end that notes nothing at this one. */
  lemma SendKeeps(s: State, side: Side, packet: Packet)
    requires Invariant(s) && UpAt(s, side) && !packet.SubscribeRequest?
    requires IsHandshake(packet) ==> packet.name == EndOf(s, side).name && packet.channels == EndOf(s, side).own
    ensures var e := EndOf(s, side);
      Invariant(With(s, side, e.(devices := SentTo(e.devices, NumberAt(s.link.value, side), packet))))
  {
    hide Knows, Consistent;
    var e, d := EndOf(s, side), NumberAt(s.link.value, side);
    var f := e.(devices := SentTo(e.devices, d, packet));
    assert CopyFits(s, Left) && CopyFits(s, Right);
    assert Steps(e, f, d, [packet]);
    LinkedStep(s, side, f, [packet]);
  }

  lemma DeliverKeeps(s: State, side: Side, now: int)
    requires Invariant(s) && Enabled(s, Deliver(side, now)) && |EndOf(s, side).own| < 0x1_0000
    ensures Invariant(Apply(s, Deliver(side, now)))
  {
    hide Knows, Consistent, Handled, Copy;
    var o, e, d, coming := Other(side), EndOf(s, side), NumberAt(s.link.value, side), OnTheWay(s, side);
    var peer, t := EndOf(s, o), Apply(s, Deliver(side, now));
    assert CopyFits(s, Left) && CopyFits(s, Right) && KnowsAt(s, side) && KnowsAt(s, o);
    assert Arrived(s.link.value, o) <= |DeviceAt(s, side).sent|;
    KnowsDeliver(e, d, peer, coming, now);
    var more := HandledSteps(e, d, coming[0], now);
    var f := Handled(e, d, coming[0], now);
    KnowsPeerStep(peer, NumberAt(s.link.value, o), e, f, OnTheWay(s, o), d, more);
    assert OnTheWay(t, side) == coming[1..] && OnTheWay(t, o) == OnTheWay(s, o) + more;
    assert KnowsAt(t, side) && KnowsAt(t, o);
    HandledDevice(e, d, coming[0], now);
    BothSides(t);
  }

  lemma UpKeeps(s: State, l: nat, r: nat)
    requires Invariant(s) && s.link.None?
    ensures Invariant(Apply(s, Up(l, r)))
  {
    var t := Apply(s, Up(l, r));
    assert CopyFits(s, Left) && CopyFits(s, Right);
    assert OnTheWay(t, Left) == [] && OnTheWay(t, Right) == [];
    assert KnowsAt(t, Left) && KnowsAt(t, Right);
    BothSides(t);
  }

  lemma DownKeeps(s: State)
    requires Invariant(s) && Enabled(s, Down)
    ensures Invariant(Apply(s, Down))
  {
    assert CopyFits(s, Left) && CopyFits(s, Right);
  }

  lemma StepKeeps(s: State, e: Event)
    requires Invariant(s) && Enabled(s, e)
    requires |s.left.own| < 0x1_0000 && |s.right.own| < 0x1_0000
    ensures Invariant(Apply(s, e))
  {
    hide Invariant;
    match e {
      case Up(l, r) => UpKeeps(s, l, r);
      case Down => DownKeeps(s);
      case Subscribe(side, channel) => SubscribeKeeps(s, side, channel);
      case Hello(side) =>
        CarriedIff(EndOf(s, side).own);
        SendKeeps(s, side, Connect(EndOf(s, side).name, Carried(EndOf(s, side).own)));
      case Chat(side, packet) => SendKeeps(s, side, packet);
      case Deliver(side, now) => DeliverKeeps(s, side, now);
    }
  }

  lemma OwnGrows(s: State, e: Event)
    requires Enabled(s, e)
    ensures s.left.own <= Apply(s, e).left.own && s.right.own <= Apply(s, e).right.own
    ensures Apply(s, e).left.name == s.left.name && Apply(s, e).right.name == s.right.name
  {
    hide SentByName, Known;
  }

  /** In every run between ends whose lists a connect packet can carry, however often the link is
      lost and comes up again, under whatever numbers. */
  lemma {:induction false} EveryRun(left: string, right: string, es: seq<Event>)
    requires left != "" && right != "" && After(left, right, es).Some?
    requires |After(left, right, es).value.left.own| < 0x1_0000 && |After(left, right, es).value.right.own| < 0x1_0000
    ensures Invariant(After(left, right, es).value)
    ensures After(left, right, es).value.left.name == left && After(left, right, es).value.right.name == right
  {
    hide Invariant, Apply, Enabled;
    if es == [] {
      InitialHolds(left, right);
    } else {
      var before, e := es[..|es| - 1], es[|es| - 1];
      OwnGrows(After(left, right, before).value, e);
      EveryRun(left, right, before);
      StepKeeps(After(left, right, before).value, e);
    }
  }

  lemma InitialHolds(left: string, right: string)
    requires left != "" && right != ""
    ensures Invariant(Initial(left, right))
  {
  }

  /** The end's device has been named on this link. */
  predicate Named(s: State, side: Side)
  {
    UpAt(s, side) && DeviceAt(s, side).name == EndOf(s, Other(side)).name
  }

  /** A prefix always; up to date but for what is on the way while the link is up and the peer named. */
  lemma CopiesAgree(left: string, right: string, es: seq<Event>, side: Side)
    requires left != "" && right != "" && After(left, right, es).Some?
    requires |After(left, right, es).value.left.own| < 0x1_0000 && |After(left, right, es).value.right.own| < 0x1_0000
    ensures var s := After(left, right, es).value;
      var e, peer, coming := EndOf(s, side), EndOf(s, Other(side)), OnTheWay(s, side);
      && Copy(e, peer.name) <= peer.own
      && (Named(s, side) && !HasHandshake(coming) ==> Copy(e, peer.name) + InFlight(coming) == peer.own)
  {
    hide After, Consistent, InFlight, HasHandshake, OnTheWay;
    EveryRun(left, right, es);
    var s := After(left, right, es).value;
    var e, peer, coming := EndOf(s, side), EndOf(s, Other(side)), OnTheWay(s, side);
    assert CopyFits(s, side);
    if Named(s, side) && !HasHandshake(coming) {
      assert KnowsAt(s, side);
      CopyAndInFlight(peer.name, Copy(e, peer.name), coming, peer.own);
    }
  }

  /** With a connect packet on the way in any run, what the last one says and the requests
      behind it make up the peer's list, whatever the copy is until then. */
  lemma HandshakeAndInFlight(left: string, right: string, es: seq<Event>, side: Side, k: nat)
    requires left != "" && right != "" && After(left, right, es).Some?
    requires |After(left, right, es).value.left.own| < 0x1_0000 && |After(left, right, es).value.right.own| < 0x1_0000
    requires var coming := OnTheWay(After(left, right, es).value, side);
      k < |coming| && IsHandshake(coming[k]) && forall i :: k < i < |coming| ==> !IsHandshake(coming[i])
    ensures var s := After(left, right, es).value;
      var peer, coming := EndOf(s, Other(side)), OnTheWay(s, side);
      UpAt(s, side) && coming[k].name == peer.name && coming[k].channels + InFlight(coming) == peer.own
  {
    hide After, Consistent, InFlight, HasHandshake;
    EveryRun(left, right, es);
    var s := After(left, right, es).value;
    var e, peer, coming := EndOf(s, side), EndOf(s, Other(side)), OnTheWay(s, side);
    assert KnowsAt(s, side);
    var named := DeviceAt(s, side).name == peer.name;
    HandshakeCompletes(peer.name, named, Copy(e, peer.name), coming, peer.own, k);
    HandshakeNames(peer.name, named, Copy(e, peer.name), coming, peer.own, k);
  }

  // --- what is connected ---

  /** A device is connected exactly while it is the one of the link. */
  predicate OnlyTheLink(s: State, side: Side)
  {
    forall d :: d in EndOf(s, side).devices ==>
      (EndOf(s, side).devices[d].status.Connected? <==> s.link.Some? && d == NumberAt(s.link.value, side))
  }

  /** In every run, whatever the names: the devices of lost links stay in the table and are never connected
      again, so that with the link down nothing is sent at all. */
  lemma {:induction false} OnlyTheLinkSends(left: string, right: string, es: seq<Event>, side: Side)
    requires After(left, right, es).Some?
    ensures OnlyTheLink(After(left, right, es).value, side)
    decreases |es|
  {
    hide OnlyTheLink, Apply, Enabled;
    if es == [] {
      NothingConnected(left, right, side);
    } else {
      OnlyTheLinkSends(left, right, es[..|es| - 1], side);
      OnlyTheLinkStep(After(left, right, es[..|es| - 1]).value, es[|es| - 1], side);
    }
  }

  lemma NothingConnected(left: string, right: string, side: Side)
    ensures OnlyTheLink(Initial(left, right), side)
  {
  }

  lemma OnlyTheLinkStep(s: State, e: Event, side: Side)
    requires Enabled(s, e) && OnlyTheLink(s, side)
    ensures OnlyTheLink(Apply(s, e), side)
  {
    hide Handled, OnTheWay;
    var before, t := EndOf(s, side), Apply(s, e);
    if e.Deliver? {
      HandledAnswers(EndOf(s, e.side), NumberAt(s.link.value, e.side), OnTheWay(s, e.side)[0], e.now);
    }
    forall d | d in EndOf(t, side).devices
      ensures EndOf(t, side).devices[d].status.Connected? <==> t.link.Some? && d == NumberAt(t.link.value, side)
    {
      assert d in before.devices ==>
          (before.devices[d].status.Connected? <==> s.link.Some? && d == NumberAt(s.link.value, side));
    }
  }

  // --- where messages go ---

  /** With nothing on the way, a message goes to the peer once for each of its subscriptions if its
      device is the lowest-numbered one of its name, and otherwise not at all. */
  lemma RoutedToSubscribers(left: string, right: string, es: seq<Event>, side: Side, channel: nat)
    requires left != "" && right != "" && After(left, right, es).Some?
    requires |After(left, right, es).value.left.own| < 0x1_0000 && |After(left, right, es).value.right.own| < 0x1_0000
    requires var s := After(left, right, es).value; Named(s, side) && OnTheWay(s, side) == []
    ensures var s := After(left, right, es).value;
      var e, d := EndOf(s, side), NumberAt(s.link.value, side);
      Routed(e, d, channel) == if Shadowed(e.devices, d) then 0 else Count(EndOf(s, Other(side)).own, channel)
  {
    hide After, Count, OnTheWay;
    EveryRun(left, right, es);
    var s := After(left, right, es).value;
    FoundIff(EndOf(s, side).devices, NumberAt(s.link.value, side));
    assert KnowsAt(s, side);
    NoneCounted(channel);
  }

  lemma NoneCounted(channel: nat)
    ensures Count([], channel) == 0
  {
  }

  lemma AfterNext(left: string, right: string, es: seq<Event>, e: Event)
    requires After(left, right, es).Some? && Enabled(After(left, right, es).value, e)
    ensures After(left, right, es + [e]) == Some(Apply(After(left, right, es).value, e))
  {
    assert (es + [e])[..|es|] == es;
  }

  /** The right end comes up under some numbers and introduces itself. */
  function Meeting(l: nat, r: nat, now: int): (es: seq<Event>)
  {
    [Up(l, r)] + [Hello(Right)] + [Deliver(Left, now)]
  }

  /** What the left end makes of it: the peer is a client with all its channels, and its device, new
      under this number, bears its name. */
  ghost predicate Introduced(s: State, t: State, l: nat, r: nat, now: int)
  {
    && t.link.Some? && t.link.value.left == l && t.link.value.right == r && UpAt(t, Left) && UpAt(t, Right)
    && t.left.clients == s.left.clients[s.right.name := ExternalClient(now, s.right.own)]
    && t.left.devices.Keys == s.left.devices.Keys + {l}
    && (forall d :: d in t.left.devices ==>
          t.left.devices[d].name == if d == l then s.right.name else s.left.devices[d].name)
    && t.right.own == s.right.own && t.right.name == s.right.name && OnTheWay(t, Left) == []
  }

  lemma HelloSent(s: State, l: nat, r: nat)
    requires s.link.None? && |s.right.own| < 0x1_0000
    ensures Enabled(Apply(s, Up(l, r)), Hello(Right))
    ensures var u := Apply(Apply(s, Up(l, r)), Hello(Right));
      && UpAt(u, Left) && UpAt(u, Right) && u.link == Some(Link(l, r, 0, 0)) && u.left == Attached(s.left, l)
      && u.right.name == s.right.name && u.right.own == s.right.own
      && OnTheWay(u, Left) == [Connect(s.right.name, s.right.own)]
  {
    CarriedIff(s.right.own);
  }

  lemma HelloTaken(s: State, u: State, l: nat, r: nat, now: int)
    requires UpAt(u, Left) && UpAt(u, Right) && u.link == Some(Link(l, r, 0, 0)) && u.left == Attached(s.left, l)
    requires u.right.name == s.right.name && u.right.own == s.right.own
    requires OnTheWay(u, Left) == [Connect(s.right.name, s.right.own)]
    ensures Introduced(s, Apply(u, Deliver(Left, now)), l, r, now)
  {
    hide Handled;
    HelloHandled(s.left, l, s.right.name, s.right.own, now);
  }

  lemma HelloHandled(e: End, l: nat, name: string, channels: seq<nat>, now: int)
    ensures var f := Handled(Attached(e, l), l, Connect(name, channels), now);
      && f.clients == e.clients[name := ExternalClient(now, channels)] && f.devices.Keys == e.devices.Keys + {l}
      && f.devices[l].status.Connected?
      && forall d :: d in f.devices ==> f.devices[d].name == if d == l then name else e.devices[d].name
  {
    hide DeviceFor, SentByName;
    var u := Attached(e, l);
    SentByNameIs(Met(u, l, name, channels, now).devices, name, ConnectAck(u.name, Carried(u.own)));
  }

  lemma AfterMeeting(left: string, right: string, es: seq<Event>, l: nat, r: nat, now: int)
    requires After(left, right, es).Some? && After(left, right, es).value.link.None?
    requires |After(left, right, es).value.right.own| < 0x1_0000
    ensures var t := After(left, right, es + Meeting(l, r, now));
      t.Some? && Introduced(After(left, right, es).value, t.value, l, r, now)
  {
    hide After, Apply, Introduced;
    var s := After(left, right, es).value;
    HelloSent(s, l, r);
    HelloTaken(s, Apply(Apply(s, Up(l, r)), Hello(Right)), l, r, now);
    AfterNext(left, right, es, Up(l, r));
    AfterNext(left, right, es + [Up(l, r)], Hello(Right));
    AfterNext(left, right, es + [Up(l, r)] + [Hello(Right)], Deliver(Left, now));
    assert es + Meeting(l, r, now) == es + [Up(l, r)] + [Hello(Right)] + [Deliver(Left, now)];
  }

  /** The same peer, attached again under another number: messages to it go out if and only if its
      new number is not greater than the old one. With a greater one they are dropped for good at
      the device that is gone. */
  lemma ReattachedIff(left: string, right: string, channel: nat, l1: nat, r1: nat, l2: nat, r2: nat, now: int)
    ensures var es := [Subscribe(Right, channel)] + Meeting(l1, r1, now) + [Down] + Meeting(l2, r2, now);
      var s := After(left, right, es);
      && s.Some? && Named(s.value, Left) && OnTheWay(s.value, Left) == []
      && s.value.right.own == [channel] && s.value.link.value.left == l2
      && Copy(s.value.left, right) == [channel]
      && Routed(s.value.left, l2, channel) == if l2 <= l1 then 1 else 0
  {
    hide After, OnTheWay, Meeting;
    var e0 := [Subscribe(Right, channel)];
    AfterNothing(left, right);
    AfterNext(left, right, [], Subscribe(Right, channel));
    assert [] + e0 == e0;
    AfterMeeting(left, right, e0, l1, r1, now);
    var e1 := e0 + Meeting(l1, r1, now);
    AfterNext(left, right, e1, Down);
    AfterMeeting(left, right, e1 + [Down], l2, r2, now);
    var s := After(left, right, e1 + [Down] + Meeting(l2, r2, now)).value;
    FoundIff(s.left.devices, l2);
    assert l1 in s.left.devices && s.left.devices[l1].name == right;
    assert Shadowed(s.left.devices, l2) <==> l1 < l2;
    assert Count([channel], channel) == 1 + Count([channel][1..], channel);
  }

  lemma AfterNothing(left: string, right: string)
    ensures After(left, right, []) == Some(Initial(left, right))
  {
  }

  // --- names and lists the exchange is not made for ---

  /** An end without a name counts as already met when a link comes up: with nothing on the way, the
      other end's copy is not its list. */
  lemma EmptyNameFails(left: string, right: string, side: Side, channel: nat, l: nat, r: nat)
    requires EndOf(Initial(left, right), side).name == ""
    ensures var s := After(left, right, [Subscribe(side, channel)] + [Up(l, r)]);
      && s.Some? && Named(s.value, Other(side)) && OnTheWay(s.value, Other(side)) == []
      && Copy(EndOf(s.value, Other(side)), "") != EndOf(s.value, side).own
  {
    hide After;
    AfterNothing(left, right);
    AfterNext(left, right, [], Subscribe(side, channel));
    assert [] + [Subscribe(side, channel)] == [Subscribe(side, channel)];
    AfterNext(left, right, [Subscribe(side, channel)], Up(l, r));
  }

  function Subscribes(side: Side, channels: seq<nat>): (es: seq<Event>)
  {
    seq(|channels|, i requires 0 <= i < |channels| => Subscribe(side, channels[i]))
  }

  function Prepared(left: string, right: string, side: Side, channels: seq<nat>): (s: State)
  {
    With(Initial(left, right), side, EndOf(Initial(left, right), side).(own := channels))
  }

  lemma {:induction false} AfterSubscribes(left: string, right: string, side: Side, channels: seq<nat>)
    ensures After(left, right, Subscribes(side, channels)) == Some(Prepared(left, right, side, channels))
    decreases |channels|
  {
    if channels != [] {
      hide Apply, Prepared;
      var before, es := channels[..|channels| - 1], Subscribes(side, channels);
      assert es[..|es| - 1] == Subscribes(side, before);
      AfterSubscribes(left, right, side, before);
      assert before + [channels[|channels| - 1]] == channels;
      SubscribeIdle(left, right, side, before, channels[|channels| - 1]);
    }
  }

  /** Before the link is up a subscription is only recorded. */
  lemma SubscribeIdle(left: string, right: string, side: Side, channels: seq<nat>, channel: nat)
    ensures var s := Prepared(left, right, side, channels);
      Apply(s, Subscribe(side, channel)) == Prepared(left, right, side, channels + [channel])
  {
    var none: map<nat, Device> := map[];
    assert SentToAll(none, SubscribeRequest(channel)) == none;
  }

  /** The bound on lists is the real one: an end that makes any 65536 subscriptions or more and then
      connects leaves a wrong copy with the peer, with nothing on the way to correct it. */
  lemma TooLong(left: string, right: string, side: Side, channels: seq<nat>, l: nat, r: nat, now: int)
    requires |channels| >= 0x1_0000
    ensures var s :=
              After(left, right, Subscribes(side, channels) + [Up(l, r)] + [Hello(side)] + [Deliver(Other(side), now)]);
      && s.Some? && Named(s.value, Other(side)) && OnTheWay(s.value, Other(side)) == []
      && EndOf(s.value, side).own == channels
      && Copy(EndOf(s.value, Other(side)), EndOf(s.value, side).name) != channels
  {
    hide After;
    var es := Subscribes(side, channels);
    AfterSubscribes(left, right, side, channels);
    AfterNext(left, right, es, Up(l, r));
    AfterNext(left, right, es + [Up(l, r)], Hello(side));
    AfterNext(left, right, es + [Up(l, r)] + [Hello(side)], Deliver(Other(side), now));
    CutWhenSent(Apply(Prepared(left, right, side, channels), Up(l, r)), side, now);
  }

  lemma CutWhenSent(s: State, side: Side, now: int)
    requires UpAt(s, Left) && UpAt(s, Right) && |EndOf(s, side).own| >= 0x1_0000
    requires DeviceAt(s, side).sent == [] && Arrived(s.link.value, Other(side)) == 0
    ensures Enabled(Apply(s, Hello(side)), Deliver(Other(side), now))
    ensures var t := Apply(Apply(s, Hello(side)), Deliver(Other(side), now));
      && EndOf(t, side).own == EndOf(s, side).own && EndOf(t, side).name == EndOf(s, side).name
      && Named(t, Other(side)) && OnTheWay(t, Other(side)) == []
      && Copy(EndOf(t, Other(side)), EndOf(s, side).name) != EndOf(s, side).own
  {
    var o, e := Other(side), EndOf(s, side);
    var u := Apply(s, Hello(side));
    CarriedIff(e.own);
    assert OnTheWay(u, o) == [Connect(e.name, Carried(e.own))];
    var met := Met(EndOf(u, o), NumberAt(s.link.value, o), e.name, Carried(e.own), now);
    SentByNameIs(met.devices, e.name, ConnectAck(EndOf(u, o).name, Carried(EndOf(u, o).own)));
  }
}
