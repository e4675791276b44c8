/** The client dispatcher and the table of devices it reaches its peers through: which channels a
    peer wants, when it was last heard of, and what is sent to whom. */
module ClientDispatch {
  import opened Common

  const KEEP_ALIVE_WAITING_TIME: nat := 1000
  const KEEP_ALIVE_CHECK_TIMER: nat := 300
  const KEEP_ALIVE_TIMEOUT: nat := 2000
  const KEEP_ALIVE_TIMER_RANDOM_OFFSET_MAX: nat := 300

  datatype ExternalClient = ExternalClient(lastKeepAliveResponse: int, subscriptions: seq<nat>)

  datatype Packet =
    | Connect(name: string, channels: seq<nat>)
    | ConnectAck(name: string, channels: seq<nat>)
    | SubscribeRequest(channel: nat)
    | KeepAliveRequest
    | KeepAliveResponse
    | Message(channel: nat, content: int)

  datatype Status = Idle | WantingConnection | Connecting | Connected

  /** A connection: its status, the name its peer has given, and all packets it has let through. */
  datatype Device = Device(status: Status, name: string, sent: seq<Packet>)

  /** One end: its own subscriptions, its clients by name, and its devices by number. A device that
      is gone keeps its place and its name. */
  datatype End = End(name: string, own: seq<nat>, clients: map<string, ExternalClient>, devices: map<nat, Device>)

  // --- the table of devices ---

  /** The lowest-numbered device that bears the name. */
  predicate IsDeviceFor(devices: map<nat, Device>, id: string, d: nat)
  {
    && d in devices && devices[d].name == id
    && forall c :: c in devices && devices[c].name == id ==> d <= c
  }

  lemma {:induction false} LeastOf(numbers: set<nat>) returns (d: nat)
    requires numbers != {}
    ensures d in numbers && forall c :: c in numbers ==> d <= c
    decreases numbers
  {
    var c :| c in numbers;
    if numbers == {c} {
      d := c;
    } else {
      var least := LeastOf(numbers - {c});
      d := if c < least then c else least;
      assert numbers == (numbers - {c}) + {c};
    }
  }

  lemma BearerExists(devices: map<nat, Device>, id: string, c: nat)
    requires c in devices && devices[c].name == id
    ensures exists d :: IsDeviceFor(devices, id, d)
  {
    var bearers := set d | d in devices && devices[d].name == id;
    assert c in bearers;
    var d := LeastOf(bearers);
    assert forall b :: b in devices && devices[b].name == id ==> b in bearers;
    assert IsDeviceFor(devices, id, d);
  }

  /** `getDeviceIDForClientID`. */
  function DeviceFor(devices: map<nat, Device>, id: string): (r: Option<nat>)
    ensures r.Some? ==> IsDeviceFor(devices, id, r.value)
    ensures r.None? ==> forall d :: d in devices ==> devices[d].name != id
  {
    if c :| c in devices && devices[c].name == id then
      BearerExists(devices, id, c);
      var d :| d in devices && IsDeviceFor(devices, id, d);
      Some(d)
    else None
  }

  lemma DeviceForIs(devices: map<nat, Device>, id: string, d: nat)
    requires IsDeviceFor(devices, id, d)
    ensures DeviceFor(devices, id) == Some(d)
  {
  }

  /** The lookup sees names only. */
  lemma SameLookup(devices: map<nat, Device>, others: map<nat, Device>, id: string)
    requires devices.Keys == others.Keys && forall d :: d in devices ==> others[d].name == devices[d].name
    ensures DeviceFor(others, id) == DeviceFor(devices, id)
  {
    if DeviceFor(devices, id).Some? {
      assert IsDeviceFor(others, id, DeviceFor(devices, id).value);
      DeviceForIs(others, id, DeviceFor(devices, id).value);
    }
  }

  /** Another device with a lower number bears this device's name. */
  predicate Shadowed(devices: map<nat, Device>, d: nat)
    requires d in devices
  {
    exists c :: c in devices && c < d && devices[c].name == devices[d].name
  }

  /** A device is found by its name if and only if no lower-numbered one bears it too. */
  lemma FoundIff(devices: map<nat, Device>, d: nat)
    requires d in devices
    ensures DeviceFor(devices, devices[d].name) == Some(d) <==> !Shadowed(devices, d)
  {
    if !Shadowed(devices, d) {
      DeviceForIs(devices, devices[d].name, d);
    }
  }

  /** The connection lets packets through only when it is connected. */
  function Passed(device: Device, packet: Packet): (after: Device)
  {
    if device.status.Connected? then device.(sent := device.sent + [packet]) else device
  }

  function SentTo(devices: map<nat, Device>, d: nat, packet: Packet): (after: map<nat, Device>)
    requires d in devices
  {
    devices[d := Passed(devices[d], packet)]
  }

  /** By name a packet goes to the lowest-numbered device that bears it, whatever its status. */
  function SentByName(devices: map<nat, Device>, id: string, packet: Packet): (after: map<nat, Device>)
  {
    match DeviceFor(devices, id)
    case None => devices
    case Some(d) => SentTo(devices, d, packet)
  }

  function SentToAll(devices: map<nat, Device>, packet: Packet): (after: map<nat, Device>)
  {
    map d | d in devices :: Passed(devices[d], packet)
  }

  lemma SentByNameIs(devices: map<nat, Device>, id: string, packet: Packet)
    ensures var after := SentByName(devices, id, packet);
      && after.Keys == devices.Keys
      && forall d :: d in devices ==>
           after[d] == if DeviceFor(devices, id) == Some(d) then Passed(devices[d], packet) else devices[d]
  {
    hide Passed, IsDeviceFor;
  }

  /** Whether a packet sent by this name gets anywhere. */
  predicate Reachable(devices: map<nat, Device>, id: string)
  {
    DeviceFor(devices, id).Some? && devices[DeviceFor(devices, id).value].status.Connected?
  }

  /** A packet sent by name reaches a connected device of that name if and only if the
      lowest-numbered device that bears the name is connected; no other device gets anything. */
  lemma ReachesIff(devices: map<nat, Device>, id: string, packet: Packet)
    ensures var after := SentByName(devices, id, packet);
      && after.Keys == devices.Keys
      && ((exists d :: d in devices && devices[d].name == id && after[d].sent == devices[d].sent + [packet])
          <==> exists d :: IsDeviceFor(devices, id, d) && devices[d].status.Connected?)
      && (forall d :: d in devices && after[d] != devices[d] ==> IsDeviceFor(devices, id, d))
      && (Reachable(devices, id) <==> after != devices)
  {
    var after := SentByName(devices, id, packet);
    if d :| IsDeviceFor(devices, id, d) {
      DeviceForIs(devices, id, d);
    }
    if Reachable(devices, id) {
      var d := DeviceFor(devices, id).value;
      assert |after[d].sent| > |devices[d].sent|;
    } else if DeviceFor(devices, id).Some? {
      assert after == devices;
    }
  }

  // --- devices that come and go ---

  /** A new connection takes the number, whatever had it before, and knows no name yet. */
  function Created(devices: map<nat, Device>, d: nat, asked: bool): (after: map<nat, Device>)
  {
    devices[d := Device(if asked then Connecting else WantingConnection, "", [])]
  }

  /** The multiplexer's answer to the request for a connection. */
  function Answered(devices: map<nat, Device>, d: nat, accepted: bool): (after: map<nat, Device>)
    requires d in devices
  {
    devices[d := devices[d].(status := if accepted then Connected else WantingConnection)]
  }

  /** The connection is ended; number and name stay. */
  function Ended(devices: map<nat, Device>, d: nat): (after: map<nat, Device>)
    requires d in devices
  {
    devices[d := devices[d].(status := Idle)]
  }

  // --- what the handlers do ---

  /** `clients[id]`, which makes an entry when there is none. */
  function Known(clients: map<string, ExternalClient>, id: string): (c: ExternalClient)
  {
    if id in clients then clients[id] else ExternalClient(0, [])
  }

  /** The channels that a connect packet can carry: their number is sent in 16 bits. */
  function Carried(own: seq<nat>): (channels: seq<nat>)
  {
    own[..|own| % 0x1_0000]
  }

  lemma CarriedIff(own: seq<nat>)
    ensures Carried(own) == own <==> |own| < 0x1_0000
  {
    if |own| >= 0x1_0000 {
      assert |Carried(own)| < |own|;
    }
  }

  /** One more own channel: all devices are asked for it. */
  function Subscribed(e: End, channel: nat): (f: End)
  {
    e.(own := e.own + [channel], devices := SentToAll(e.devices, SubscribeRequest(channel)))
  }

  /** When a device gets connected, by its number. */
  function Greeted(e: End, d: nat): (f: End)
    requires d in e.devices
  {
    e.(devices := SentTo(e.devices, d, Connect(e.name, Carried(e.own))))
  }

  /** What a packet from a device leaves of this end. The connection takes the name from a connect
      packet first; answers are sent by name. */
  function Handled(e: End, d: nat, packet: Packet, now: int): (f: End)
    requires d in e.devices
  {
    var id := e.devices[d].name;
    match packet
    case Connect(name, channels) =>
      var f := Met(e, d, name, channels, now);
      f.(devices := SentByName(f.devices, name, ConnectAck(e.name, Carried(e.own))))
    case ConnectAck(name, channels) => Met(e, d, name, channels, now)
    case SubscribeRequest(channel) =>
      var c := Known(e.clients, id);
      e.(clients := e.clients[id := c.(subscriptions := c.subscriptions + [channel])])
    case KeepAliveRequest => Heard(e, id, now).(devices := SentByName(e.devices, id, KeepAliveResponse))
    case KeepAliveResponse => Heard(e, id, now)
    case Message(_, _) => Heard(e, id, now)
  }

  /** A connect packet or its answer names the device and replaces what was known of the peer. */
  function Met(e: End, d: nat, name: string, channels: seq<nat>, now: int): (f: End)
    requires d in e.devices
  {
    e.(devices := e.devices[d := e.devices[d].(name := name)],
      clients := e.clients[name := ExternalClient(now, channels)])
  }

  function Heard(e: End, id: string, now: int): (f: End)
  {
    e.(clients := e.clients[id := Known(e.clients, id).(lastKeepAliveResponse := now)])
  }

  /** What goes out in answer to a packet, and nothing else does: a keep-alive request is answered at the
      device that the lookup finds for the sender's name, and a connect packet, with this end's name and
      channels, at the one it finds for the new name. Each answer is let through if that is connected. */
  lemma HandledAnswers(e: End, d: nat, packet: Packet, now: int)
    requires d in e.devices
    ensures var f := Handled(e, d, packet, now);
      && f.devices.Keys == e.devices.Keys && f.own == e.own && f.name == e.name
      && var id := if packet.Connect? || packet.ConnectAck? then packet.name else e.devices[d].name;
         && f.devices[d].name == id
         && forall c :: c in e.devices ==>
              && f.devices[c].status == e.devices[c].status
              && (c != d ==> f.devices[c].name == e.devices[c].name)
              && f.devices[c].sent == e.devices[c].sent
                   + if e.devices[c].status == Connected && IsDeviceFor(f.devices, id, c) then
                       if packet == KeepAliveRequest then [KeepAliveResponse]
                       else if packet.Connect? then [ConnectAck(e.name, Carried(e.own))] else []
                     else []
  {
    hide SentByName, DeviceFor;
    var f := Handled(e, d, packet, now);
    var id := if packet.Connect? || packet.ConnectAck? then packet.name else e.devices[d].name;
    var answer := if packet.Connect? then ConnectAck(e.name, Carried(e.own)) else KeepAliveResponse;
    var g := if packet.Connect? || packet.ConnectAck? then Met(e, d, packet.name, packet.channels, now) else e;
    SentByNameIs(g.devices, id, answer);
    SameLookup(g.devices, f.devices, id);
    forall c | c in e.devices ensures e.devices[c].sent + [] == e.devices[c].sent {
    }
    forall c | c in f.devices ensures IsDeviceFor(f.devices, id, c) <==> DeviceFor(f.devices, id) == Some(c) {
      if IsDeviceFor(f.devices, id, c) {
        DeviceForIs(f.devices, id, c);
      }
    }
  }

  /** What is noted of the sender, by its name, and of nobody else: every packet but a subscribe request is
      a sign of life, a connect packet and its answer replace the channels, and a subscribe request adds
      one. */
  lemma HandledNotes(e: End, d: nat, packet: Packet, now: int)
    requires d in e.devices
    ensures var f := Handled(e, d, packet, now);
      var id := if packet.Connect? || packet.ConnectAck? then packet.name else e.devices[d].name;
      && f.clients.Keys == e.clients.Keys + {id}
      && (forall c :: c in e.clients && c != id ==> f.clients[c] == e.clients[c])
      && f.clients[id].lastKeepAliveResponse
         == (if packet.SubscribeRequest? then Known(e.clients, id).lastKeepAliveResponse else now)
      && f.clients[id].subscriptions
         == if packet.Connect? || packet.ConnectAck? then packet.channels
            else Known(e.clients, id).subscriptions + if packet.SubscribeRequest? then [packet.channel] else []
  {
    hide SentByName;
    assert Known(e.clients, e.devices[d].name).subscriptions + [] == Known(e.clients, e.devices[d].name).subscriptions;
  }

  /** The last sign of life is more than the timeout ago. */
  predicate TimedOut(c: ExternalClient, now: int)
  {
    c.lastKeepAliveResponse + KEEP_ALIVE_TIMEOUT < now
  }

  /** A client asked for a sign of life. */
  function Asked(e: End, client: string): (f: End)
  {
    e.(devices := SentByName(e.devices, client, KeepAliveRequest))
  }

  /** The look at a client after the waiting time, and the device whose connection it ends, if any.
      Asking about an unknown client makes an entry for it. */
  function Rechecked(e: End, client: string, now: int): (r: (End, Option<nat>))
  {
    var c := Known(e.clients, client);
    var f := e.(clients := e.clients[client := c]);
    match DeviceFor(e.devices, client)
    case None => (f, None)
    case Some(d) =>
      if TimedOut(c, now) && !e.devices[d].status.Idle? then
        (f.(devices := Ended(e.devices, d)), Some(d))
      else (f, None)
  }

  /** A client is disconnected if and only if it timed out and the lowest-numbered device of its name
      has a connection left to end; other devices of its name stay. */
  lemma RecheckedIff(e: End, client: string, now: int)
    ensures var (f, ended) := Rechecked(e, client, now);
      && (ended.Some? <==> TimedOut(Known(e.clients, client), now)
                           && exists d :: IsDeviceFor(e.devices, client, d) && !e.devices[d].status.Idle?)
      && f.clients == e.clients[client := Known(e.clients, client)]
      && f.devices.Keys == e.devices.Keys
      && (forall d :: d in e.devices ==>
            f.devices[d] == if ended == Some(d) then e.devices[d].(status := Idle) else e.devices[d])
      && (ended.Some? ==> IsDeviceFor(e.devices, client, ended.value))
  {
    if d :| IsDeviceFor(e.devices, client, d) {
      DeviceForIs(e.devices, client, d);
    }
  }

  function Count<T(==)>(s: seq<T>, x: T): (n: nat)
  {
    if s == [] then 0 else (if s[0] == x then 1 else 0) + Count(s[1..], x)
  }

  lemma {:induction false} CountAppend<T>(s: seq<T>, x: T, y: T)
    ensures Count(s + [y], x) == Count(s, x) + if y == x then 1 else 0
  {
    if s == [] {
      assert [y][1..] == [];
    } else {
      assert (s + [y])[1..] == s[1..] + [y];
      CountAppend(s[1..], x, y);
    }
  }

  /** How often a message goes to a device: once for each time the client of its name subscribed to
      the channel, if the lookup by name finds this device and it is connected. */
  function Routed(e: End, d: nat, channel: nat): (n: nat)
    requires d in e.devices
  {
    var id := e.devices[d].name;
    if e.devices[d].status.Connected? && DeviceFor(e.devices, id) == Some(d) && id in e.clients then
      Count(e.clients[id].subscriptions, channel)
    else 0
  }

  /** What a message leaves of the devices when it has gone to the clients in `done`. */
  function RoutedBy(e: End, done: set<string>, channel: nat, content: int): (after: map<nat, Device>)
  {
    map d | d in e.devices ::
      if e.devices[d].name in done then
        e.devices[d].(sent := e.devices[d].sent + Copies(Message(channel, content), Routed(e, d, channel)))
      else e.devices[d]
  }

  function Copies(packet: Packet, n: nat): (ps: seq<Packet>)
  {
    seq(n, i => packet)
  }

  /** A packet sent by name several times. */
  function SentTimes(devices: map<nat, Device>, id: string, packet: Packet, n: nat): (after: map<nat, Device>)
  {
    if n == 0 then devices else SentByName(SentTimes(devices, id, packet, n - 1), id, packet)
  }

  lemma {:induction false} SentTimesIs(devices: map<nat, Device>, id: string, packet: Packet, n: nat)
    ensures var after := SentTimes(devices, id, packet, n);
      && after.Keys == devices.Keys
      && forall d :: d in devices ==>
           after[d] == if DeviceFor(devices, id) == Some(d) && devices[d].status.Connected?
                       then devices[d].(sent := devices[d].sent + Copies(packet, n)) else devices[d]
  {
    if n == 0 {
      assert forall d :: d in devices ==> devices[d].sent + Copies(packet, 0) == devices[d].sent;
    } else {
      hide SentByName, DeviceFor, IsDeviceFor, SentTimes, Copies;
      var before := SentTimes(devices, id, packet, n - 1);
      SentTimesIs(devices, id, packet, n - 1);
      SameLookup(devices, before, id);
      SentByNameIs(before, id, packet);
      SentOnceMore(devices, id, packet, n);
      forall d | d in devices {
        OneMoreCopy(devices[d].sent, packet, n);
      }
    }
  }

  lemma SentOnceMore(devices: map<nat, Device>, id: string, packet: Packet, n: nat)
    requires n > 0
    ensures SentTimes(devices, id, packet, n) == SentByName(SentTimes(devices, id, packet, n - 1), id, packet)
  {
  }

  lemma OneMoreCopy(sent: seq<Packet>, packet: Packet, n: nat)
    requires n > 0
    ensures sent + Copies(packet, n - 1) + [packet] == sent + Copies(packet, n)
  {
    assert Copies(packet, n - 1) + [packet] == Copies(packet, n);
  }

  /** One more client served. */
  lemma RoutedStep(e: End, done: set<string>, id: string, channel: nat, content: int)
    requires id in e.clients && id !in done
    ensures SentTimes(RoutedBy(e, done, channel, content), id, Message(channel, content),
                      Count(e.clients[id].subscriptions, channel))
         == RoutedBy(e, done + {id}, channel, content)
  {
    hide SentTimes, DeviceFor, Copies;
    var before := RoutedBy(e, done, channel, content);
    SameLookup(e.devices, before, id);
    SentTimesIs(before, id, Message(channel, content), Count(e.clients[id].subscriptions, channel));
    forall d | d in e.devices && e.devices[d].name == id && Routed(e, d, channel) == 0
      ensures e.devices[d].sent + Copies(Message(channel, content), 0) == e.devices[d].sent
    {
      NoCopies(Message(channel, content));
    }
  }

  lemma NoCopies(packet: Packet)
    ensures Copies(packet, 0) == []
  {
  }

  /** What a keep-alive check sends to a device. */
  function AskedOf(e: End, d: nat, now: int): (ps: seq<Packet>)
    requires d in e.devices
  {
    var id := e.devices[d].name;
    if e.devices[d].status.Connected? && DeviceFor(e.devices, id) == Some(d) && id in e.clients
      && TimedOut(e.clients[id], now)
    then [KeepAliveRequest] else []
  }

  /** What the check leaves of the devices when it has come to the clients in `done`. */
  function AskedBy(e: End, done: set<string>, now: int): (after: map<nat, Device>)
  {
    map d | d in e.devices ::
      if e.devices[d].name in done then e.devices[d].(sent := e.devices[d].sent + AskedOf(e, d, now)) else e.devices[d]
  }

  lemma NobodyAsked(e: End, now: int)
    ensures AskedBy(e, {}, now) == e.devices
  {
  }

  lemma NobodyServed(e: End, channel: nat, content: int)
    ensures RoutedBy(e, {}, channel, content) == e.devices
  {
  }

  lemma AskedStep(e: End, done: set<string>, id: string, now: int)
    requires id in e.clients && id !in done
    ensures AskedBy(e, done + {id}, now)
         == if TimedOut(e.clients[id], now) then SentByName(AskedBy(e, done, now), id, KeepAliveRequest)
           else AskedBy(e, done, now)
  {
    hide SentByName, DeviceFor;
    var before, after := AskedBy(e, done, now), AskedBy(e, done + {id}, now);
    SameLookup(e.devices, before, id);
    SentByNameIs(before, id, KeepAliveRequest);
    forall d | d in e.devices
      ensures after[d] == if TimedOut(e.clients[id], now) && DeviceFor(before, id) == Some(d)
                          then Passed(before[d], KeepAliveRequest) else before[d]
    {
      assert e.devices[d].sent + [] == e.devices[d].sent;
    }
  }

  // --- the objects ---

  class Connection {
    var status: Status
    var name: string
    var sent: seq<Packet>

    constructor ()
      ensures status == Idle && name == "" && sent == []
    {
      status, name, sent := Idle, "", [];
    }

    function View(): (device: Device)
      reads this
    {
      Device(status, name, sent)
    }

    /** The multiplexer is asked for a connection; it may not be there to be asked. */
    method StartConnection(asked: bool)
      modifies this`status
      ensures status == if asked then Connecting else WantingConnection
    {
      status := WantingConnection;
      if asked {
        status := Connecting;
      }
    }

    /** The multiplexer's answer. */
    method Replied(accepted: bool)
      modifies this`status
      ensures status == if accepted then Connected else WantingConnection
    {
      status := if accepted then Connected else WantingConnection;
    }

    method Send(packet: Packet)
      modifies this`sent
      ensures View() == Passed(old(View()), packet)
    {
      if status.Connected? {
        sent := sent + [packet];
      }
    }

    method Disconnect()
      modifies this`status
      ensures View() == old(View()).(status := Idle)
    {
      if status != Idle {
        status := Connected;
      }
      status := Idle;
    }
  }

  /** The devices by number. Nothing ever leaves the table. */
  class USBHub {
    var devices: map<nat, Connection>

    ghost predicate Valid()
      reads this
    {
      forall c, d :: c in devices && d in devices && devices[c] == devices[d] ==> c == d
    }

    function View(): (v: map<nat, Device>)
      reads this, devices.Values
    {
      map d | d in devices :: devices[d].View()
    }

    constructor ()
      ensures Valid() && devices == map[]
    {
      devices := map[];
    }

    method CreateDevice(number: nat, asked: bool)
      requires Valid()
      modifies this
      ensures Valid()
      ensures View() == Created(old(View()), number, asked)
    {
      var device := new Connection();
      device.StartConnection(asked);
      devices := devices[number := device];
    }

    /** A connect packet names the connection. */
    method NameDevice(number: nat, name: string)
      requires Valid() && number in devices
      modifies devices.Values`name
      ensures View() == old(View())[number := old(View())[number].(name := name)]
    {
      devices[number].name := name;
    }

    method RemoveDevice(number: nat)
      requires Valid() && number in devices
      modifies devices.Values`status
      ensures View() == Ended(old(View()), number)
    {
      devices[number].Disconnect();
    }

    /** Goes through the table in the order of the numbers. */
    method GetDeviceIDForClientID(clientid: string) returns (r: Option<nat>)
      ensures r == DeviceFor(View(), clientid)
    {
      var left := devices.Keys;
      while left != {}
        invariant left <= devices.Keys
        invariant forall d :: d in devices && d !in left ==> devices[d].name != clientid
        decreases left
      {
        ghost var least := LeastOf(left);
        var d :| d in left && forall c :: c in left ==> d <= c;
        if devices[d].name == clientid {
          assert IsDeviceFor(View(), clientid, d);
          DeviceForIs(View(), clientid, d);
          return Some(d);
        }
        left := left - {d};
      }
      return None;
    }

    method SendPacketTo(number: nat, packet: Packet)
      requires Valid() && number in devices
      modifies devices.Values`sent
      ensures View() == SentTo(old(View()), number, packet)
    {
      devices[number].Send(packet);
    }

    method SendPacket(clientid: string, packet: Packet)
      requires Valid()
      modifies devices.Values`sent
      ensures View() == SentByName(old(View()), clientid, packet)
    {
      var number := GetDeviceIDForClientID(clientid);
      if number.Some? {
        SendPacketTo(number.value, packet);
      }
    }

    method SendPacketToAll(packet: Packet)
      requires Valid()
      modifies devices.Values`sent
      ensures View() == SentToAll(old(View()), packet)
    {
      var left := devices.Keys;
      while left != {}
        invariant left <= devices.Keys
        invariant forall d :: d in devices ==>
          devices[d].View() == if d in left then old(devices[d].View()) else Passed(old(devices[d].View()), packet)
        decreases left
      {
        var d :| d in left;
        left := left - {d};
        devices[d].Send(packet);
      }
    }

    /** The device whose connection was ended, if any. */
    method Disconnect(clientid: string) returns (ended: Option<nat>)
      requires Valid()
      modifies devices.Values`status
      ensures var d := DeviceFor(old(View()), clientid);
        && ended == (if d.Some? && !old(View())[d.value].status.Idle? then d else None)
        && View() == match ended
                     case None => old(View())
                     case Some(n) => Ended(old(View()), n)
    {
      var number := GetDeviceIDForClientID(clientid);
      ended := None;
      if number.Some? {
        if devices[number.value].status != Idle {
          ended := number;
        }
        devices[number.value].Disconnect();
      }
    }
  }

  class ClientDispatcher {
    const globalServiceName: string
    const hub: USBHub
    var clientChannelSubscriptions: seq<nat>
    var clients: map<string, ExternalClient>

    constructor (name: string, hub: USBHub)
      ensures globalServiceName == name && this.hub == hub
      ensures View() == End(name, [], map[], hub.View())
    {
      globalServiceName, this.hub, clientChannelSubscriptions, clients := name, hub, [], map[];
    }

    function View(): (e: End)
      reads this, hub, hub.devices.Values
    {
      End(globalServiceName, clientChannelSubscriptions, clients, hub.View())
    }

    method SubscribeChannel(channel: nat)
      requires hub.Valid()
      modifies this`clientChannelSubscriptions, hub.devices.Values`sent
      ensures View() == Subscribed(old(View()), channel)
    {
      clientChannelSubscriptions := clientChannelSubscriptions + [channel];
      hub.SendPacketToAll(SubscribeRequest(channel));
    }

    /** When a device gets connected. */
    method SendConnectForUnknownDevice(number: nat)
      requires hub.Valid() && number in hub.devices
      modifies hub.devices.Values`sent
      ensures View() == Greeted(old(View()), number)
    {
      hub.SendPacketTo(number, Connect(globalServiceName, Carried(clientChannelSubscriptions)));
    }

    method UpdateKeepAliveTime(clientid: string, now: int)
      modifies this`clients
      ensures View() == Heard(old(View()), clientid, now)
    {
      clients := clients[clientid := Known(clients, clientid).(lastKeepAliveResponse := now)];
    }

    method HandleConnectAck(clientid: string, channels: seq<nat>, now: int)
      modifies this`clients
      ensures clients == old(clients)[clientid := ExternalClient(now, channels)]
    {
      clients := clients[clientid := ExternalClient(now, channels)];
    }

    method HandleConnect(clientid: string, channels: seq<nat>, now: int)
      requires hub.Valid()
      modifies this`clients, hub.devices.Values`sent
      ensures clients == old(clients)[clientid := ExternalClient(now, channels)]
      ensures hub.View()
            == SentByName(old(hub.View()), clientid,
                          ConnectAck(globalServiceName, Carried(clientChannelSubscriptions)))
    {
      HandleConnectAck(clientid, channels, now);
      hub.SendPacket(clientid, ConnectAck(globalServiceName, Carried(clientChannelSubscriptions)));
    }

    method HandleSubscribeRequest(clientid: string, channel: nat)
      modifies this`clients
      ensures var c := Known(old(clients), clientid);
        clients == old(clients)[clientid := c.(subscriptions := c.subscriptions + [channel])]
    {
      var c := Known(clients, clientid);
      clients := clients[clientid := c.(subscriptions := c.subscriptions + [channel])];
    }

    method HandleKeepAliveRequest(clientid: string, now: int)
      requires hub.Valid()
      modifies this`clients, hub.devices.Values`sent
      ensures View()
            == Heard(old(View()), clientid, now).(devices := SentByName(old(hub.View()), clientid, KeepAliveResponse))
    {
      UpdateKeepAliveTime(clientid, now);
      hub.SendPacket(clientid, KeepAliveResponse);
    }

    /** `Connection::messageReceived` and the dispatcher's switch behind it. */
    method MessageReceived(number: nat, packet: Packet, now: int)
      requires hub.Valid() && number in hub.devices
      modifies this`clients, hub.devices.Values`name, hub.devices.Values`sent
      ensures View() == Handled(old(View()), number, packet, now)
    {
      hide SentByName;
      if packet.Connect? || packet.ConnectAck? {
        hub.NameDevice(number, packet.name);
      }
      var clientid := hub.devices[number].name;
      match packet {
        case Message(_, _) => UpdateKeepAliveTime(clientid, now);
        case SubscribeRequest(channel) => HandleSubscribeRequest(clientid, channel);
        case KeepAliveRequest => HandleKeepAliveRequest(clientid, now);
        case KeepAliveResponse => UpdateKeepAliveTime(clientid, now);
        case Connect(_, channels) => HandleConnect(clientid, channels, now);
        case ConnectAck(_, channels) => HandleConnectAck(clientid, channels, now);
      }
    }

    /** Two seconds without a sign of life; asking about an unknown client makes an entry for it. */
    method IsTimedOut(clientid: string, now: int) returns (r: bool)
      modifies this`clients
      ensures clients == old(clients)[clientid := Known(old(clients), clientid)]
      ensures r <==> TimedOut(Known(old(clients), clientid), now)
    {
      clients := clients[clientid := Known(clients, clientid)];
      return clients[clientid].lastKeepAliveResponse + KEEP_ALIVE_TIMEOUT < now;
    }

    /** One client in a pass of the keep-alive check: not heard of for too long, it is asked for a
        sign of life. */
    method CheckClient(clientid: string, now: int) returns (timedOut: bool)
      requires hub.Valid() && clientid in clients
      modifies this`clients, hub.devices.Values`sent
      ensures timedOut <==> TimedOut(old(clients)[clientid], now)
      ensures View() == if timedOut then Asked(old(View()), clientid) else old(View())
    {
      timedOut := IsTimedOut(clientid, now);
      if timedOut {
        hub.SendPacket(clientid, KeepAliveRequest);
      }
    }

    /** One pass of the keep-alive check over all clients. Those asked are looked at again when the
        waiting time is over; the result gives the deadlines. */
    method CheckClients(now: int) returns (rechecks: map<string, int>)
      requires hub.Valid()
      modifies this`clients, hub.devices.Values`sent
      ensures forall id :: id in rechecks <==> id in old(clients) && TimedOut(old(clients)[id], now)
      ensures forall id :: id in rechecks ==> rechecks[id] == now + KEEP_ALIVE_WAITING_TIME
      ensures View() == old(View()).(devices := AskedBy(old(View()), old(clients).Keys, now))
    {
      hide SentByName, AskedBy, AskedOf;
      ghost var e, done := View(), {};
      NobodyAsked(e, now);
      rechecks := map[];
      var ids := clients.Keys;
      while ids != {}
        invariant ids <= clients.Keys && clients == e.clients && done == clients.Keys - ids
        invariant forall id :: id in rechecks <==> id in clients && id !in ids && TimedOut(clients[id], now)
        invariant forall id :: id in rechecks ==> rechecks[id] == now + KEEP_ALIVE_WAITING_TIME
        invariant View() == e.(devices := AskedBy(e, done, now))
        decreases ids
      {
        var id :| id in ids;
        AskedStep(e, done, id, now);
        done := done + {id};
        ids := ids - {id};
        var timedOut := CheckClient(id, now);
        if timedOut {
          rechecks := rechecks[id := now + KEEP_ALIVE_WAITING_TIME];
        }
      }
      assert done == clients.Keys;
    }

    /** Sends the message once for each matching subscription of each client that can be reached. */
    method DispatchMessage(channel: nat, content: int)
      requires hub.Valid()
      modifies hub.devices.Values`sent
      ensures View() == old(View()).(devices := RoutedBy(old(View()), clients.Keys, channel, content))
    {
      hide SentTimes, RoutedBy, Routed;
      ghost var e, done := View(), {};
      NobodyServed(e, channel, content);
      var ids := clients.Keys;
      while ids != {}
        invariant ids <= clients.Keys && done == clients.Keys - ids
        invariant View() == e.(devices := RoutedBy(e, done, channel, content))
        decreases ids
      {
        var id :| id in ids;
        RoutedStep(e, done, id, channel, content);
        done := done + {id};
        ids := ids - {id};
        SendMatching(id, clients[id].subscriptions, channel, content);
      }
      assert done == clients.Keys;
    }

    method SendMatching(id: string, subscriptions: seq<nat>, channel: nat, content: int)
      requires hub.Valid()
      modifies hub.devices.Values`sent
      ensures hub.View() == SentTimes(old(hub.View()), id, Message(channel, content), Count(subscriptions, channel))
    {
      hide SentByName;
      for i := 0 to |subscriptions|
        invariant hub.View()
              == SentTimes(old(hub.View()), id, Message(channel, content), Count(subscriptions[..i], channel))
      {
        assert subscriptions[..i + 1] == subscriptions[..i] + [subscriptions[i]];
        CountAppend(subscriptions[..i], channel, subscriptions[i]);
        if subscriptions[i] == channel {
          hub.SendPacket(id, Message(channel, content));
        }
      }
      assert subscriptions[..|subscriptions|] == subscriptions;
    }

    /** The look after the waiting time: a client still not heard of is disconnected. */
    method RecheckClient(clientid: string, now: int) returns (ended: Option<nat>)
      requires hub.Valid()
      modifies this`clients, hub.devices.Values`status
      ensures (View(), ended) == Rechecked(old(View()), clientid, now)
    {
      var timedOut := IsTimedOut(clientid, now);
      ended := None;
      if timedOut {
        ended := hub.Disconnect(clientid);
      }
    }
  }
}
