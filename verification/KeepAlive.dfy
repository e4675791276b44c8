/** The keep-alive cycle as tasks on the dispatch queue, around the client dispatcher's handlers:
    clients not heard of are asked, and disconnected when they are still not heard of after a
    waiting time. */
module KeepAlive {
  import D = Dispatch
  import opened ClientDispatch
  import opened Common

  /** What a task that the cycle has put on the queue will do. */
  datatype Role = Cycle | Recheck(client: string, request: nat)

  /** A request for a sign of life: when it was made, the device that the lookup by name found for
      it, and whether that one let it through. */
  datatype Request = Request(client: string, at: int, device: Option<nat>, sent: bool)

  /** A connection ended by the cycle: under which name, which device, when, and the last recorded
      sign of life. */
  datatype Disconnection = Disconnection(client: string, device: nat, at: int, last: int)

  /** `roles` tells which tasks on the queue belong to the cycle; the others are callbacks. */
  datatype State = State(queue: D.State, roles: map<nat, Role>, end: End,
                         checking: bool, requests: seq<Request>, disconnections: seq<Disconnection>, clock: int)

  datatype Event =
    | OnQueue(e: D.Event)
    | StartCycle(now: int, offset: nat)
    | Stop
    | Attach(number: nat, begun: bool)
    | Reply(number: nat, accepted: bool)
    | Detach(number: nat)
    | Subscribe(channel: nat)
    | Greet(number: nat)
    | Receive(number: nat, packet: Packet, now: int)
    | CheckClient(r: nat, client: string, checked: int, asked: int, scheduled: int)
    | RecheckClient(r: nat, now: int)

  function Initial(name: string): (s: State)
  {
    State(D.INITIAL, map[], End(name, [], map[], map[]), false, [], [], 0)
  }

  /** The role of what a worker is running. */
  function RoleOf(s: State, r: nat): (role: Option<Role>)
  {
    if r < |s.queue.running| && s.queue.running[r].task.id in s.roles then
      Some(s.roles[s.queue.running[r].task.id])
    else None
  }

  /** The clock of the queue's own step, if it reads one. */
  function ClockAfter(s: State, e: D.Event): (now: int)
  {
    match e
    case StartTimed(_, _, now) => now
    case StartImmediate(_, now) => now
    case _ => s.clock
  }

  predicate Enabled(s: State, e: Event)
  {
    match e
    case OnQueue(f) => D.Enabled(s.queue, f) && s.clock <= ClockAfter(s, f)
    case StartCycle(now, offset) => s.clock <= now && offset < KEEP_ALIVE_TIMER_RANDOM_OFFSET_MAX
    case Stop => true
    case Attach(_, _) => true
    case Reply(number, _) => number in s.end.devices && s.end.devices[number].status.Connecting?
    case Detach(number) => number in s.end.devices
    case Subscribe(_) => true
    case Greet(number) => number in s.end.devices
    case Receive(number, _, now) =>
      number in s.end.devices && s.end.devices[number].status.Connected? && s.clock <= now
    case CheckClient(r, client, checked, asked, scheduled) =>
      && RoleOf(s, r) == Some(Cycle) && client in s.end.clients && TimedOut(s.end.clients[client], checked)
      && s.clock <= checked <= asked <= scheduled
    case RecheckClient(r, now) => RoleOf(s, r).Some? && RoleOf(s, r).value.Recheck? && s.checking && s.clock <= now
  }

  /** `dispatch_after`. */
  function Schedule(s: State, deadline: int, role: Role): (t: State)
  {
    var id := |s.queue.submitted|;
    s.(queue := D.Apply(s.queue, D.Submit(D.Task(id, true, deadline))), roles := s.roles[id := role])
  }

  /** A new connection takes its number and knows no name; a received packet, the question to a client
      and the look at it afterwards do what the dispatcher's methods are proved to do. */
  function Apply(s: State, e: Event): (t: State)
    requires Enabled(s, e)
  {
    match e
    case OnQueue(f) => s.(queue := D.Apply(s.queue, f), clock := ClockAfter(s, f))
    case StartCycle(now, offset) =>
      Schedule(s.(checking := true, clock := now), now + KEEP_ALIVE_CHECK_TIMER + offset, Cycle)
    case Stop => s.(checking := false)
    case Attach(number, begun) =>
      s.(end := s.end.(devices := Created(s.end.devices, number, begun)))
    case Reply(number, accepted) =>
      s.(end := s.end.(devices := Answered(s.end.devices, number, accepted)))
    case Detach(number) => s.(end := s.end.(devices := Ended(s.end.devices, number)))
    case Subscribe(channel) => s.(end := Subscribed(s.end, channel))
    case Greet(number) => s.(end := Greeted(s.end, number))
    case Receive(number, packet, now) => s.(end := Handled(s.end, number, packet, now), clock := now)
    case CheckClient(_, client, _, asked, scheduled) =>
      Schedule(s.(end := Asked(s.end, client), requests := s.requests + [RequestOf(s.end, client, asked)],
                  clock := scheduled),
               scheduled + KEEP_ALIVE_WAITING_TIME, Recheck(client, |s.requests|))
    case RecheckClient(r, now) =>
      var client := RoleOf(s, r).value.client;
      var (f, ended) := Rechecked(s.end, client, now);
      var last := Known(s.end.clients, client).lastKeepAliveResponse;
      s.(end := f, clock := now,
         disconnections := s.disconnections
                           + if ended.Some? then [Disconnection(client, ended.value, now, last)] else [])
  }

  /** The request that asking a client makes: it is sent exactly when it leaves something at a device. */
  function RequestOf(e: End, client: string, at: int): (q: Request)
    ensures q.sent <==> Asked(e, client).devices != e.devices
  {
    ReachesIff(e.devices, client, KeepAliveRequest);
    Request(client, at, DeviceFor(e.devices, client), Reachable(e.devices, client))
  }

  /** A run of the end of the given name. */
  function After(name: string, es: seq<Event>): (s: Option<State>)
  {
    if es == [] then Some(Initial(name)) else
      match After(name, es[..|es| - 1])
      case None => None
      case Some(s) => if Enabled(s, es[|es| - 1]) then Some(Apply(s, es[|es| - 1])) else None
  }

  // --- what every run keeps ---

  /** A task to look at a client again comes the waiting time after a request to that client. */
  predicate RoleOk(s: State, id: nat)
    requires id in s.roles
  {
    && id < |s.queue.submitted| && s.queue.submitted[id].timed
    && (s.roles[id].Recheck? ==>
          && s.roles[id].request < |s.requests| && s.requests[s.roles[id].request].client == s.roles[id].client
          && s.requests[s.roles[id].request].at + KEEP_ALIVE_WAITING_TIME <= s.queue.submitted[id].deadline)
  }

  /** A request that explains the disconnection: made longer than the waiting time before. It was let
      through, unless there has been a sign of life since, or the client has no name, or the request
      went to a device with a lower number that bore the name then. */
  predicate Explains(q: Request, d: Disconnection)
  {
    && q.client == d.client && q.at + KEEP_ALIVE_WAITING_TIME < d.at
    && (q.sent || d.last >= q.at || d.client == "" || Misled(q, d))
  }

  predicate Misled(q: Request, d: Disconnection)
  {
    q.device.Some? && q.device.value < d.device
  }

  /** The client had not been heard of for longer than the timeout, and had been asked before. */
  predicate Justified(s: State, d: Disconnection)
  {
    d.at > d.last + KEEP_ALIVE_TIMEOUT && exists k :: 0 <= k < |s.requests| && Explains(s.requests[k], d)
  }

  /** A request that a connected device of the client's name did not get, and no lower-numbered one
      was tried for, is older than this device's name, and so than the client's last sign of life. */
  predicate DroppedBefore(s: State, k: nat, d: nat)
    requires k < |s.requests| && d in s.end.devices && s.end.devices[d].name in s.end.clients
  {
    var q, id := s.requests[k], s.end.devices[d].name;
    q.client == id && !q.sent && (q.device.Some? ==> q.device.value >= d) ==>
      s.end.clients[id].lastKeepAliveResponse >= q.at
  }

  /** A connected device with a name has a client, and its dropped requests are explained. */
  predicate DeviceOk(s: State, d: nat)
    requires d in s.end.devices
  {
    var device := s.end.devices[d];
    device.name != "" && !device.status.Idle? ==>
      && device.status.Connected? && device.name in s.end.clients
      && forall k :: 0 <= k < |s.requests| ==> DroppedBefore(s, k, d)
  }

  /** What the devices' gates and the clients' entries tell. */
  ghost predicate EndOk(s: State)
  {
    && (forall id :: id in s.end.clients ==> s.end.clients[id].lastKeepAliveResponse <= s.clock)
    && (forall k :: 0 <= k < |s.requests| ==> s.requests[k].at <= s.clock)
    && (forall d :: d in s.end.devices ==> DeviceOk(s, d))
  }

  ghost predicate Invariant(s: State)
  {
    && D.Invariant(s.queue) && s.queue.clock <= s.clock && s.clock >= 0
    && (forall id :: id in s.roles ==> RoleOk(s, id))
    && (forall k :: 0 <= k < |s.disconnections| ==> Justified(s, s.disconnections[k]))
    && EndOk(s)
  }

  /** A running task of the cycle has been started after its deadline: the queue never starts early. */
  lemma RunningIsDue(s: State, r: nat)
    requires Invariant(s) && RoleOf(s, r).Some?
    ensures var id := s.queue.running[r].task.id;
      id in s.roles && id < |s.queue.submitted| && s.queue.submitted[id].deadline < s.clock
  {
    hide D.InOrder, D.OneEach, Justified, EndOk;
    var q, task := s.queue, s.queue.running[r].task;
    var running, started := D.TasksOf(q.running), D.StartedTasks(q.started);
    assert running[r] == task && task in multiset(running);
    assert task in multiset(started) && task in multiset(q.submitted);
    var k :| 0 <= k < |started| && started[k] == task;
    assert q.started[k].task == task;
    var i :| 0 <= i < |q.submitted| && q.submitted[i] == task;
    assert RoleOk(s, task.id);
    assert task.id == i;
  }

  /** What the parts of a step that change neither tasks nor disconnections keep. */
  lemma PartKeeps(s: State, t: State)
    requires Invariant(s) && EndOk(t)
    requires t.queue == s.queue && t.roles == s.roles && t.disconnections == s.disconnections
    requires s.requests <= t.requests && s.clock <= t.clock
    ensures Invariant(t)
  {
    hide D.Invariant, EndOk;
    forall id | id in t.roles ensures RoleOk(t, id) {
      assert RoleOk(s, id);
    }
    forall k | 0 <= k < |t.disconnections| ensures Justified(t, t.disconnections[k]) {
      StaysJustified(s, t, t.disconnections[k]);
    }
  }

  lemma StaysJustified(s: State, t: State, d: Disconnection)
    requires Justified(s, d) && s.requests <= t.requests
    ensures Justified(t, d)
  {
    var k :| 0 <= k < |s.requests| && Explains(s.requests[k], d);
    assert t.requests[k] == s.requests[k];
  }

  lemma ScheduleKeeps(s: State, deadline: int, role: Role)
    requires Invariant(s)
    requires role.Recheck? ==> role.request < |s.requests| && s.requests[role.request].client == role.client
                               && s.requests[role.request].at + KEEP_ALIVE_WAITING_TIME <= deadline
    ensures Invariant(Schedule(s, deadline, role))
  {
    hide D.Invariant, Justified;
    var task := D.Task(|s.queue.submitted|, true, deadline);
    D.StepKeeps(s.queue, D.Submit(task));
    var t := Schedule(s, deadline, role);
    forall id | id in t.roles ensures RoleOk(t, id) {
      assert id in s.roles ==> RoleOk(s, id);
    }
    SameEnd(s, t);
    SameDisconnections(s, t);
  }

  lemma SameEnd(s: State, t: State)
    requires EndOk(s) && t.end == s.end && t.requests == s.requests && s.clock <= t.clock
    ensures EndOk(t)
  {
    forall d | d in t.end.devices ensures DeviceOk(t, d) {
      DeviceStays(s, t, d);
    }
  }

  /** A device that keeps name and status, or loses its connection, while its client is not forgotten
      and nothing more has been asked. */
  lemma DeviceStays(s: State, t: State, d: nat)
    requires d in s.end.devices && DeviceOk(s, d) && d in t.end.devices && t.requests == s.requests
    requires t.end.devices[d].name == s.end.devices[d].name
    requires t.end.devices[d].status == s.end.devices[d].status || t.end.devices[d].status.Idle?
             || s.end.devices[d].name == "" || s.end.devices[d].status.Connecting?
    requires var id := s.end.devices[d].name;
             id in s.end.clients ==>
               && id in t.end.clients
               && t.end.clients[id].lastKeepAliveResponse >= s.end.clients[id].lastKeepAliveResponse
    ensures DeviceOk(t, d)
  {
    var device := t.end.devices[d];
    if device.name != "" && !device.status.Idle? {
      forall k | 0 <= k < |t.requests| ensures DroppedBefore(t, k, d) {
        assert DroppedBefore(s, k, d);
      }
    }
  }

  lemma SameDisconnections(s: State, t: State)
    requires forall k :: 0 <= k < |s.disconnections| ==> Justified(s, s.disconnections[k])
    requires t.disconnections == s.disconnections && t.requests == s.requests
    ensures forall k :: 0 <= k < |t.disconnections| ==> Justified(t, t.disconnections[k])
  {
    forall k | 0 <= k < |t.disconnections| ensures Justified(t, t.disconnections[k]) {
      StaysJustified(s, t, t.disconnections[k]);
    }
  }

  lemma QueueStepKeeps(s: State, f: D.Event)
    requires Invariant(s) && Enabled(s, OnQueue(f))
    ensures Invariant(Apply(s, OnQueue(f)))
  {
    hide D.Invariant, Justified;
    D.StepKeeps(s.queue, f);
    var t := Apply(s, OnQueue(f));
    forall id | id in t.roles ensures RoleOk(t, id) {
      assert RoleOk(s, id);
    }
    SameEnd(s, t);
    SameDisconnections(s, t);
  }

  lemma StartCycleKeeps(s: State, now: int, offset: nat)
    requires Invariant(s) && Enabled(s, StartCycle(now, offset))
    ensures Invariant(Apply(s, StartCycle(now, offset)))
  {
    hide D.Invariant, RoleOk, Justified, DroppedBefore;
    var t := s.(checking := true, clock := now);
    SameEnd(s, t);
    PartKeeps(s, t);
    ScheduleKeeps(t, now + KEEP_ALIVE_CHECK_TIMER + offset, Cycle);
  }

  /** A request that a device does not get was dropped at one with a lower number, or at itself. */
  lemma AskedKeeps(s: State, client: string, at: int, clock: int)
    requires Invariant(s) && s.clock <= at <= clock
    ensures Invariant(s.(end := Asked(s.end, client), requests := s.requests + [RequestOf(s.end, client, at)],
                         clock := clock))
  {
    hide D.Invariant, RoleOk, Justified, DeviceFor, SentByName, IsDeviceFor;
    var q := RequestOf(s.end, client, at);
    var t := s.(end := Asked(s.end, client), requests := s.requests + [q], clock := clock);
    SentByNameIs(s.end.devices, client, KeepAliveRequest);
    forall d | d in t.end.devices ensures DeviceOk(t, d) {
      AskedDevice(s, t, d, q);
    }
    PartKeeps(s, t);
  }

  lemma AskedDevice(s: State, t: State, d: nat, q: Request)
    requires d in s.end.devices && DeviceOk(s, d) && d in t.end.devices
    requires q == RequestOf(s.end, q.client, q.at) && t.requests == s.requests + [q] && t.end.clients == s.end.clients
    requires t.end.devices[d].name == s.end.devices[d].name && t.end.devices[d].status == s.end.devices[d].status
    ensures DeviceOk(t, d)
  {
    var device := t.end.devices[d];
    if device.name != "" && !device.status.Idle? {
      forall k | 0 <= k < |t.requests| ensures DroppedBefore(t, k, d) {
        if k < |s.requests| {
          assert DroppedBefore(s, k, d);
        }
      }
    }
  }

  lemma CheckClientKeeps(s: State, e: Event)
    requires Invariant(s) && Enabled(s, e) && e.CheckClient?
    ensures Invariant(Apply(s, e))
  {
    hide Invariant, Asked;
    var q := RequestOf(s.end, e.client, e.asked);
    AskedKeeps(s, e.client, e.asked, e.scheduled);
    ScheduleKeeps(s.(end := Asked(s.end, e.client), requests := s.requests + [q], clock := e.scheduled),
                  e.scheduled + KEEP_ALIVE_WAITING_TIME, Recheck(e.client, |s.requests|));
  }

  /** What a packet leaves of the clients and of the devices' names and status. */
  lemma HandledParts(e: End, n: nat, packet: Packet, now: int)
    requires n in e.devices
    ensures var f := Handled(e, n, packet, now);
      && f.devices.Keys == e.devices.Keys
      && (forall d :: d in f.devices ==>
            && f.devices[d].status == e.devices[d].status
            && f.devices[d].name
               == if d == n && (packet.Connect? || packet.ConnectAck?) then packet.name else e.devices[d].name)
      && var id := f.devices[n].name;
         f.clients == e.clients[id := match packet
                                      case Connect(_, channels) => ExternalClient(now, channels)
                                      case ConnectAck(_, channels) => ExternalClient(now, channels)
                                      case SubscribeRequest(channel) =>
                                        Known(e.clients, id).(subscriptions :=
                                          Known(e.clients, id).subscriptions + [channel])
                                      case _ => Known(e.clients, id).(lastKeepAliveResponse := now)]
  {
    hide DeviceFor, SentByName, Known;
    if packet.Connect? {
      var f := Met(e, n, packet.name, packet.channels, now);
      SentByNameIs(f.devices, packet.name, ConnectAck(e.name, Carried(e.own)));
    } else if packet.KeepAliveRequest? {
      SentByNameIs(e.devices, e.devices[n].name, KeepAliveResponse);
    }
  }

  /** A connect packet names its device and is a sign of life; other packets name nobody. */
  lemma ReceiveKeeps(s: State, e: Event)
    requires Invariant(s) && Enabled(s, e) && e.Receive?
    ensures Invariant(Apply(s, e))
  {
    hide D.Invariant, RoleOk, Justified, Handled, DroppedBefore;
    var t := Apply(s, e);
    HandledParts(s.end, e.number, e.packet, e.now);
    forall d | d in t.end.devices ensures DeviceOk(t, d) {
      if d == e.number && (e.packet.Connect? || e.packet.ConnectAck?) {
        JustNamed(s, t, d);
      } else {
        DeviceStays(s, t, d);
      }
    }
    PartKeeps(s, t);
  }

  /** A device whose client has been heard of right now. */
  lemma JustNamed(s: State, t: State, d: nat)
    requires EndOk(s) && t.requests == s.requests && d in t.end.devices && t.end.devices[d].status.Connected?
    requires var id := t.end.devices[d].name; id in t.end.clients && t.end.clients[id].lastKeepAliveResponse >= s.clock
    ensures DeviceOk(t, d)
  {
    hide DeviceOk;
    assert forall k :: 0 <= k < |t.requests| ==> DroppedBefore(t, k, d);
    IsOk(t, d);
  }

  lemma IsOk(t: State, d: nat)
    requires d in t.end.devices && t.end.devices[d].status.Connected? && t.end.devices[d].name in t.end.clients
    requires forall k :: 0 <= k < |t.requests| ==> DroppedBefore(t, k, d)
    ensures DeviceOk(t, d)
  {
  }

  /** The client was asked by the request its task bears, and the state of the device that is looked
      up now tells whether that request came through. */
  lemma EndedIsExplained(s: State, r: nat, now: int)
    requires Invariant(s) && Enabled(s, RecheckClient(r, now))
    requires var client := RoleOf(s, r).value.client; Rechecked(s.end, client, now).1.Some?
    ensures var client := RoleOf(s, r).value.client;
      Justified(s, Disconnection(client, Rechecked(s.end, client, now).1.value, now,
                                 Known(s.end.clients, client).lastKeepAliveResponse))
  {
    hide D.Invariant, Justified;
    RunningIsDue(s, r);
    var id := s.queue.running[r].task.id;
    assert RoleOk(s, id);
    var k, client := s.roles[id].request, s.roles[id].client;
    RecheckedIff(s.end, client, now);
    var device := Rechecked(s.end, client, now).1.value;
    var d := Disconnection(client, device, now, Known(s.end.clients, client).lastKeepAliveResponse);
    assert DeviceOk(s, device);
    if d.client != "" {
      assert DroppedBefore(s, k, device);
    }
    IsJustified(s, k, d);
  }

  lemma IsJustified(s: State, k: nat, d: Disconnection)
    requires k < |s.requests| && Explains(s.requests[k], d) && d.at > d.last + KEEP_ALIVE_TIMEOUT
    ensures Justified(s, d)
  {
  }

  /** A look at a client leaves the gate and the entries as they should be. */
  lemma RecheckKeepsEnd(s: State, e: Event)
    requires Invariant(s) && Enabled(s, e) && e.RecheckClient?
    ensures var t := Apply(s, e).(disconnections := s.disconnections); EndOk(t) && Invariant(t)
  {
    hide D.Invariant, RoleOk, Justified, DroppedBefore;
    var t := Apply(s, e).(disconnections := s.disconnections);
    RecheckedIff(s.end, RoleOf(s, e.r).value.client, e.now);
    forall d | d in t.end.devices ensures DeviceOk(t, d) {
      DeviceStays(s, t, d);
    }
    PartKeeps(s, t);
  }

  lemma RecheckClientKeeps(s: State, e: Event)
    requires Invariant(s) && Enabled(s, e) && e.RecheckClient?
    ensures Invariant(Apply(s, e))
  {
    RecheckKeepsEnd(s, e);
    if Rechecked(s.end, RoleOf(s, e.r).value.client, e.now).1.Some? {
      EndedIsExplained(s, e.r, e.now);
    }
    Blamed(s, Apply(s, e));
  }

  /** One more disconnection at most, and a justified one. */
  lemma Blamed(s: State, t: State)
    requires Invariant(t.(disconnections := s.disconnections)) && s.requests == t.requests
    requires s.disconnections <= t.disconnections && |t.disconnections| <= |s.disconnections| + 1
    requires |t.disconnections| > |s.disconnections| ==> Justified(s, t.disconnections[|s.disconnections|])
    ensures Invariant(t)
  {
    hide D.Invariant, Explains;
    var u := t.(disconnections := s.disconnections);
    SameEnd(u, t);
    forall id | id in t.roles ensures RoleOk(t, id) {
      assert RoleOk(u, id);
    }
    forall k | 0 <= k < |t.disconnections| ensures Justified(t, t.disconnections[k]) {
      if k < |s.disconnections| {
        assert Justified(u, u.disconnections[k]);
      }
    }
  }

  /** Steps that touch neither the queue nor the requests nor the disconnections. */
  lemma OtherKeeps(s: State, e: Event)
    requires Invariant(s) && Enabled(s, e)
    requires e.Stop? || e.Attach? || e.Reply? || e.Detach? || e.Subscribe? || e.Greet?
    ensures Invariant(Apply(s, e))
  {
    hide D.Invariant, RoleOk, Justified, DroppedBefore;
    var t := Apply(s, e);
    forall d | d in t.end.devices ensures DeviceOk(t, d) {
      if !(e.Attach? && d == e.number) {
        DeviceStays(s, t, d);
      }
    }
    PartKeeps(s, t);
  }

  lemma StepKeeps(s: State, e: Event)
    requires Invariant(s) && Enabled(s, e)
    ensures Invariant(Apply(s, e))
  {
    hide Invariant, Apply, Enabled;
    match e {
      case OnQueue(f) => QueueStepKeeps(s, f);
      case StartCycle(now, offset) => StartCycleKeeps(s, now, offset);
      case CheckClient(_, _, _, _, _) => CheckClientKeeps(s, e);
      case RecheckClient(_, _) => RecheckClientKeeps(s, e);
      case Receive(_, _, _) => ReceiveKeeps(s, e);
      case _ => OtherKeeps(s, e);
    }
  }

  /** In every timed run, a client is disconnected only when its last sign of life is more than two
      seconds old and it was asked for one more than a second before. A client with a name was really
      sent that request, unless it has been heard of since. */
  lemma {:induction false} EveryRun(name: string, es: seq<Event>)
    requires After(name, es).Some?
    ensures Invariant(After(name, es).value)
  {
    hide Invariant, Apply, Enabled;
    if es == [] {
      InitialHolds(name);
    } else {
      EveryRun(name, es[..|es| - 1]);
      StepKeeps(After(name, es[..|es| - 1]).value, es[|es| - 1]);
    }
  }

  lemma InitialHolds(name: string)
    ensures Invariant(Initial(name))
  {
  }

  // --- who is heard of is kept ---

  /** A packet that is a sign of life; a request to subscribe is none. */
  predicate IsSignOfLife(p: Packet)
  {
    !p.SubscribeRequest?
  }

  /** The client has been heard of at that time or later, and is not blamed for anything earlier. */
  ghost predicate NotSince(s: State, client: string, at: int, n: nat)
  {
    && n <= |s.disconnections| && client in s.end.clients && at <= s.end.clients[client].lastKeepAliveResponse
    && (forall k ::
          n <= k < |s.disconnections| && s.disconnections[k].client == client ==> s.disconnections[k].last >= at)
  }

  lemma NotSinceStep(s: State, e: Event, client: string, at: int, n: nat)
    requires Invariant(s) && Enabled(s, e) && NotSince(s, client, at, n)
    ensures NotSince(Apply(s, e), client, at, n)
  {
    hide D.Invariant, RoleOk, Justified, DroppedBefore;
  }

  /** The name of the client a device stands for. */
  function PeerOf(s: State, number: nat): (id: string)
  {
    if number in s.end.devices then s.end.devices[number].name else ""
  }

  /** A client that has been heard of is not disconnected within the next two seconds. */
  lemma HeardThenKept(name: string, es: seq<Event>, number: nat, packet: Packet, at: int, fs: seq<Event>, k: nat)
    requires IsSignOfLife(packet)
    requires After(name, es + [Receive(number, packet, at)]).Some?
          && After(name, es + [Receive(number, packet, at)] + fs).Some?
    requires |After(name, es + [Receive(number, packet, at)]).value.disconnections| <= k
             < |After(name, es + [Receive(number, packet, at)] + fs).value.disconnections|
    requires After(name, es + [Receive(number, packet, at)] + fs).value.disconnections[k].client
          == PeerOf(After(name, es + [Receive(number, packet, at)]).value, number)
    ensures After(name, es + [Receive(number, packet, at)] + fs).value.disconnections[k].at > at + 2000
  {
    hide After;
    NotSinceHeard(name, es, number, packet, at, fs);
    EveryRun(name, es + [Receive(number, packet, at)] + fs);
    var s := After(name, es + [Receive(number, packet, at)] + fs).value;
    assert Justified(s, s.disconnections[k]);
  }

  lemma {:induction false} NotSinceHeard(name: string, es: seq<Event>, number: nat, packet: Packet, at: int,
                                         fs: seq<Event>)
    requires IsSignOfLife(packet)
    requires After(name, es + [Receive(number, packet, at)]).Some?
          && After(name, es + [Receive(number, packet, at)] + fs).Some?
    ensures var heard := After(name, es + [Receive(number, packet, at)]).value;
      NotSince(After(name, es + [Receive(number, packet, at)] + fs).value,
               PeerOf(heard, number), at, |heard.disconnections|)
    decreases |fs|
  {
    hide Apply, Enabled, NotSince, IsSignOfLife;
    var start := es + [Receive(number, packet, at)];
    if fs == [] {
      assert start + fs == start && start[..|start| - 1] == es;
      HeardNow(After(name, es).value, number, packet, at);
    } else {
      var before := fs[..|fs| - 1];
      assert (start + fs)[..|start + fs| - 1] == start + before;
      NotSinceHeard(name, es, number, packet, at, before);
      EveryRun(name, start + before);
      var heard := After(name, start).value;
      NotSinceStep(After(name, start + before).value, fs[|fs| - 1], PeerOf(heard, number), at, |heard.disconnections|);
    }
  }

  lemma HeardNow(s: State, number: nat, packet: Packet, at: int)
    requires Enabled(s, Receive(number, packet, at)) && IsSignOfLife(packet)
    ensures var t := Apply(s, Receive(number, packet, at)); NotSince(t, PeerOf(t, number), at, |t.disconnections|)
  {
  }

  // --- that requests are answered ---

  /** A connected device that the lookup finds by its name. */
  predicate Found(s: State, id: string, d: nat)
  {
    d in s.end.devices && s.end.devices[d].status.Connected? && IsDeviceFor(s.end.devices, id, d)
  }

  /** A keep-alive request from a device of that name. */
  predicate IsRequestFrom(s: State, e: Event, id: string)
  {
    e.Receive? && e.packet == KeepAliveRequest && PeerOf(s, e.number) == id
  }

  /** How many of them come in while `fs` goes on from `es`. */
  function RequestsFrom(name: string, es: seq<Event>, fs: seq<Event>, id: string): (n: nat)
  {
    if fs == [] then 0 else
      var front, last := fs[..|fs| - 1], fs[|fs| - 1];
      RequestsFrom(name, es, front, id)
      + match After(name, es + front)
        case None => 0
        case Some(s) => if IsRequestFrom(s, last, id) then 1 else 0
  }

  /** One step: what goes out through the device is an answer exactly when the step is a request. */
  lemma StepAnswers(s: State, e: Event, id: string, d: nat) returns (more: seq<Packet>)
    requires Enabled(s, e) && Found(s, id, d) && Found(Apply(s, e), id, d)
    ensures |more| <= 1 && Apply(s, e).end.devices[d].sent == s.end.devices[d].sent + more
    ensures more == [KeepAliveResponse] <==> IsRequestFrom(s, e, id)
  {
    hide Handled, SentByName, D.Apply;
    more := [];
    match e {
      case Subscribe(channel) => more := [SubscribeRequest(channel)];
      case Greet(number) => more := if number == d then [Connect(s.end.name, Carried(s.end.own))] else [];
      case Receive(number, packet, now) => more := ReceivedAnswers(s, e, id, d);
      case CheckClient(_, client, _, _, _) =>
        more := if DeviceFor(s.end.devices, client) == Some(d) then [KeepAliveRequest] else [];
        AskedOne(s, e, d, more);
      case RecheckClient(r, now) => RecheckedIff(s.end, RoleOf(s, r).value.client, now);
      case _ =>
    }
    assert s.end.devices[d].sent + [] == s.end.devices[d].sent;
  }

  lemma ReceivedAnswers(s: State, e: Event, id: string, d: nat) returns (more: seq<Packet>)
    requires Enabled(s, e) && e.Receive? && Found(s, id, d) && Found(Apply(s, e), id, d)
    ensures |more| <= 1 && Apply(s, e).end.devices[d].sent == s.end.devices[d].sent + more
    ensures more == [KeepAliveResponse] <==> IsRequestFrom(s, e, id)
  {
    hide Handled;
    HandledAnswers(s.end, e.number, e.packet, e.now);
    more := Apply(s, e).end.devices[d].sent[|s.end.devices[d].sent|..];
  }

  lemma AskedOne(s: State, e: Event, d: nat, more: seq<Packet>)
    requires Enabled(s, e) && e.CheckClient? && d in s.end.devices && s.end.devices[d].status.Connected?
    requires more == if DeviceFor(s.end.devices, e.client) == Some(d) then [KeepAliveRequest] else []
    ensures d in Apply(s, e).end.devices && Apply(s, e).end.devices[d].sent == s.end.devices[d].sent + more
  {
    hide SentByName;
    SentByNameIs(s.end.devices, e.client, KeepAliveRequest);
    assert s.end.devices[d].sent + [] == s.end.devices[d].sent;
  }

  /** As long as a device is connected and the lookup finds it by its name, it lets through exactly as many
      answers as keep-alive requests come in from devices of that name. */
  lemma {:induction false} EveryRequestAnswered(name: string, es: seq<Event>, fs: seq<Event>, id: string, d: nat)
    requires forall k :: 0 <= k <= |fs| ==>
      After(name, es + fs[..k]).Some? && Found(After(name, es + fs[..k]).value, id, d)
    ensures After(name, es).Some? && d in After(name, es).value.end.devices
    ensures After(name, es + fs).Some? && d in After(name, es + fs).value.end.devices
    ensures Count(After(name, es + fs).value.end.devices[d].sent, KeepAliveResponse)
         == Count(After(name, es).value.end.devices[d].sent, KeepAliveResponse) + RequestsFrom(name, es, fs, id)
    decreases |fs|
  {
    hide After, Found, Apply, Enabled, Count, IsRequestFrom;
    assert fs[..0] == [] && es + [] == es && fs[..|fs|] == fs;
    FoundThere(After(name, es + fs[..0]).value, id, d);
    FoundThere(After(name, es + fs[..|fs|]).value, id, d);
    if fs != [] {
      var front, e := fs[..|fs| - 1], fs[|fs| - 1];
      assert forall k :: 0 <= k <= |front| ==> front[..k] == fs[..k];
      EveryRequestAnswered(name, es, front, id, d);
      assert es + fs == (es + front) + [e];
      AfterOneMore(name, es + front, e);
      assert After(name, es + fs[..|front|]).Some? && Found(After(name, es + fs[..|front|]).value, id, d);
      var s := After(name, es + front).value;
      var more := StepAnswers(s, e, id, d);
      if more != [] {
        CountAppend(s.end.devices[d].sent, KeepAliveResponse, more[0]);
        assert more == [more[0]];
      } else {
        assert s.end.devices[d].sent + [] == s.end.devices[d].sent;
      }
    }
  }

  lemma FoundThere(s: State, id: string, d: nat)
    requires Found(s, id, d)
    ensures d in s.end.devices
  {
  }

  /** What is reached by one more step. */
  lemma AfterOneMore(name: string, es: seq<Event>, e: Event)
    requires After(name, es + [e]).Some?
    ensures After(name, es).Some? && Enabled(After(name, es).value, e)
    ensures After(name, es + [e]) == Some(Apply(After(name, es).value, e))
  {
    assert (es + [e])[..|es|] == es;
  }

  /** Two ends that find each other by their names: a request that one makes is answered by the other, and
      with the answer in time the other one is not timed out within the next two seconds. */
  lemma AskedThenHeard(e: End, d: nat, peer: End, c: nat, at: int, now: int)
    requires IsDeviceFor(e.devices, peer.name, d) && e.devices[d].status.Connected?
    requires IsDeviceFor(peer.devices, e.name, c) && peer.devices[c].status.Connected?
    ensures var asked := Asked(e, peer.name);
      && d in asked.devices && |asked.devices[d].sent| == |e.devices[d].sent| + 1
      && var q := asked.devices[d].sent[|e.devices[d].sent|];
         var answered := Handled(peer, c, q, at);
         && c in answered.devices && |answered.devices[c].sent| == |peer.devices[c].sent| + 1
         && var a := answered.devices[c].sent[|peer.devices[c].sent|];
            var heard := Handled(asked, d, a, now);
            && peer.name in heard.clients
            && forall t :: t <= now + 2000 ==> !TimedOut(heard.clients[peer.name], t)
  {
    hide DeviceFor;
    DeviceForIs(e.devices, peer.name, d);
    DeviceForIs(peer.devices, e.name, c);
    SentByNameIs(e.devices, peer.name, KeepAliveRequest);
    SentByNameIs(peer.devices, e.name, KeepAliveResponse);
  }

  /** The times of the cycle in milliseconds: a pass comes 300 to 599 after it was put on the queue, the
      second look at a client 1000 after the first, and a client is timed out after more than 2000. */
  lemma CycleTimes(s: State, e: Event)
    requires Enabled(s, e)
    ensures var more := Apply(s, e).queue.submitted;
      && (e.StartCycle? ==> more != [] && more[|more| - 1].timed
                            && e.now + 300 <= more[|more| - 1].deadline < e.now + 600)
      && (e.CheckClient? ==> more != [] && more[|more| - 1].timed
                             && more[|more| - 1].deadline == e.scheduled + 1000)
    ensures forall c: ExternalClient, now :: TimedOut(c, now) <==> now - c.lastKeepAliveResponse > 2000
  {
    hide Handled, Rechecked;
  }

  /** Once the cycle has been stopped, no connection is ended until it is started again. */
  lemma {:induction false} StoppedEndsNothing(name: string, es: seq<Event>, fs: seq<Event>)
    requires After(name, es + [Stop] + fs).Some?
    requires forall k :: 0 <= k < |fs| ==> !fs[k].StartCycle?
    ensures After(name, es).Some?
    ensures After(name, es + [Stop] + fs).value.disconnections == After(name, es).value.disconnections
    ensures !After(name, es + [Stop] + fs).value.checking
    decreases |fs|
  {
    hide After, Apply, Enabled;
    if fs == [] {
      assert es + [Stop] + fs == es + [Stop];
      AfterOneMore(name, es, Stop);
      Stops(After(name, es).value);
    } else {
      var front, e := fs[..|fs| - 1], fs[|fs| - 1];
      assert es + [Stop] + fs == (es + [Stop] + front) + [e];
      AfterOneMore(name, es + [Stop] + front, e);
      StoppedEndsNothing(name, es, front);
      StaysStopped(After(name, es + [Stop] + front).value, e);
    }
  }

  lemma Stops(s: State)
    ensures Enabled(s, Stop) && !Apply(s, Stop).checking && Apply(s, Stop).disconnections == s.disconnections
  {
  }

  lemma StaysStopped(s: State, e: Event)
    requires Enabled(s, e) && !s.checking && !e.StartCycle?
    ensures !Apply(s, e).checking && Apply(s, e).disconnections == s.disconnections
  {
    hide Handled, D.Apply;
  }

  // --- when the request was really sent ---

  /** A client with a name was really sent the request, or it is looked at more than two seconds after
      it, or the request went to a lower-numbered device of its name. */
  lemma AskedOrLate(name: string, es: seq<Event>, k: nat)
    requires After(name, es).Some? && k < |After(name, es).value.disconnections|
    requires After(name, es).value.disconnections[k].client != ""
    ensures var s := After(name, es).value;
      var d := s.disconnections[k];
      exists i :: 0 <= i < |s.requests| && s.requests[i].client == d.client
        && s.requests[i].at + 1000 < d.at
        && (s.requests[i].sent || s.requests[i].at + 2000 < d.at || Misled(s.requests[i], d))
  {
    hide After;
    EveryRun(name, es);
    var s := After(name, es).value;
    assert Justified(s, s.disconnections[k]);
    var i :| 0 <= i < |s.requests| && Explains(s.requests[i], s.disconnections[k]);
  }

  lemma AfterNext(name: string, es: seq<Event>, e: Event)
    requires After(name, es).Some? && Enabled(After(name, es).value, e)
    ensures After(name, es + [e]) == Some(Apply(After(name, es).value, e))
  {
    assert (es + [e])[..|es|] == es;
  }

  lemma AfterNothing(name: string)
    ensures After(name, []) == Some(Initial(name))
  {
  }

  /** The states in which nothing has been asked yet and the first pass is waiting to run. */
  predicate Waiting(s: State, name: string)
  {
    && s.queue == D.Apply(D.INITIAL, D.Submit(D.Task(0, true, 300))) && s.roles == map[0 := Cycle]
    && s.end.name == name && s.end.own == [] && s.checking
    && s.requests == [] && s.disconnections == [] && s.clock == 0
  }

  lemma AfterStart(name: string)
    ensures var s := After(name, [StartCycle(0, 0)]);
      s.Some? && Waiting(s.value, name) && s.value.end == Initial(name).end
  {
    AfterNothing(name);
    AfterNext(name, [], StartCycle(0, 0));
    assert [] + [StartCycle(0, 0)] == [StartCycle(0, 0)];
  }

  /** A device is attached and gets connected. */
  function Opens(n: nat): (es: seq<Event>)
  {
    [Attach(n, true)] + [Reply(n, true)]
  }

  function Opened(e: End, n: nat): (f: End)
  {
    e.(devices := e.devices[n := Device(Connected, "", [])])
  }

  lemma AfterOpens(name: string, es: seq<Event>, n: nat)
    requires After(name, es).Some?
    ensures var s := After(name, es).value; After(name, es + Opens(n)) == Some(s.(end := Opened(s.end, n)))
  {
    hide After;
    var s := After(name, es).value;
    AfterNext(name, es, Attach(n, true));
    AfterNext(name, es + [Attach(n, true)], Reply(n, true));
    assert es + Opens(n) == es + [Attach(n, true)] + [Reply(n, true)];
    var t := After(name, es + Opens(n)).value;
    assert t.end.devices == s.end.devices[n := Device(Connected, "", [])];
  }

  /** It sends a first packet. */
  function Arrives(n: nat, packet: Packet, now: int): (es: seq<Event>)
  {
    Opens(n) + [Receive(n, packet, now)]
  }

  lemma AfterArrives(name: string, es: seq<Event>, n: nat, packet: Packet, now: int)
    requires After(name, es).Some? && After(name, es).value.clock <= now
    ensures var s := After(name, es).value;
      After(name, es + Arrives(n, packet, now))
        == Some(s.(end := Handled(Opened(s.end, n), n, packet, now), clock := now))
  {
    hide After, Handled, Opens;
    AfterOpens(name, es, n);
    AfterNext(name, es + Opens(n), Receive(n, packet, now));
    assert es + Arrives(n, packet, now) == es + Opens(n) + [Receive(n, packet, now)];
  }

  /** The first pass runs at 3000 and asks a client. */
  function Asks(client: string): (es: seq<Event>)
  {
    [OnQueue(D.StartTimed(0, 0, 3000))] + [CheckClient(0, client, 3000, 3000, 3000)]
  }

  lemma AfterAsks(name: string, es: seq<Event>, client: string)
    requires After(name, es).Some? && Waiting(After(name, es).value, name)
    requires var s := After(name, es).value;
      client in s.end.clients && s.end.clients[client].lastKeepAliveResponse < 1000
    ensures var s, t := After(name, es).value, After(name, es + Asks(client));
      && t.Some? && t.value.end == Asked(s.end, client) && t.value.requests == [RequestOf(s.end, client, 3000)]
      && t.value.disconnections == [] && t.value.clock == 3000 && t.value.checking
      && !t.value.queue.queue.quit && t.value.queue.clock == 3000 && t.value.queue.queue.pq == [D.Task(1, true, 4000)]
      && |t.value.queue.running| == 1 && t.value.queue.running[0].worker == 0
      && t.value.roles == map[0 := Cycle, 1 := Recheck(client, 0)]
  {
    hide After, Asked, RequestOf;
    AfterNext(name, es, OnQueue(D.StartTimed(0, 0, 3000)));
    AfterNext(name, es + [OnQueue(D.StartTimed(0, 0, 3000))], CheckClient(0, client, 3000, 3000, 3000));
    assert es + Asks(client)
        == es + [OnQueue(D.StartTimed(0, 0, 3000))] + [CheckClient(0, client, 3000, 3000, 3000)];
  }

  /** The client is looked at again at a later time. */
  function Looks(now: int): (es: seq<Event>)
  {
    [OnQueue(D.StartTimed(1, 0, now))] + [RecheckClient(1, now)]
  }

  lemma AfterLooks(name: string, es: seq<Event>, client: string, now: int)
    requires now > 4000 && After(name, es).Some?
    requires var s := After(name, es).value;
      && s.clock <= now && s.checking && s.disconnections == []
      && !s.queue.queue.quit && s.queue.clock <= now && s.queue.queue.pq == [D.Task(1, true, 4000)]
      && |s.queue.running| == 1 && s.queue.running[0].worker == 0
      && s.roles == map[0 := Cycle, 1 := Recheck(client, 0)]
    ensures var s, t := After(name, es).value, After(name, es + Looks(now));
      var ended := Rechecked(s.end, client, now).1;
      && t.Some? && t.value.requests == s.requests
      && t.value.disconnections == if ended.None? then [] else
           [Disconnection(client, ended.value, now, Known(s.end.clients, client).lastKeepAliveResponse)]
  {
    hide After, Rechecked;
    AfterNext(name, es, OnQueue(D.StartTimed(1, 0, now)));
    AfterNext(name, es + [OnQueue(D.StartTimed(1, 0, now))], RecheckClient(1, now));
    assert es + Looks(now) == es + [OnQueue(D.StartTimed(1, 0, now))] + [RecheckClient(1, now)];
  }

  /** In each of the runs that follow, exactly one connection is ended, and nothing was ever sent. */
  predicate EndedUnasked(s: Option<State>, client: string, device: nat)
  {
    && s.Some? && |s.value.disconnections| == 1
    && s.value.disconnections[0].client == client && s.value.disconnections[0].device == device
    && forall k :: 0 <= k < |s.value.requests| ==> !s.value.requests[k].sent
  }

  /** A client without a name: an entry made by one unnamed connection counts against the next one if
      the lookup finds that one, which is if and only if it has the same or a lower number. */
  lemma UnnamedEndedIff(name: string, n1: nat, n2: nat)
    ensures var s := After(name, [StartCycle(0, 0)] + Arrives(n1, KeepAliveRequest, 0) + [Detach(n1)] + Asks("")
                                 + Opens(n2) + Looks(4001));
      s.Some? && (EndedUnasked(s, "", n2) <==> n2 <= n1)
  {
    hide After, Arrives, Asks, Opens, Looks, Waiting, DeviceFor, SentByName;
    var e1 := [StartCycle(0, 0)] + Arrives(n1, KeepAliveRequest, 0) + [Detach(n1)];
    AfterFirst(name, n1, KeepAliveRequest, "");
    AfterAsks(name, e1, "");
    AfterOpens(name, e1 + Asks(""), n2);
    AfterLooks(name, e1 + Asks("") + Opens(n2), "", 4001);
    var s1, s2 := After(name, e1).value, After(name, e1 + Asks("")).value;
    ReachesIff(s1.end.devices, "", KeepAliveRequest);
    var devices := Opened(s2.end, n2).devices;
    RecheckedIff(Opened(s2.end, n2), "", 4001);
    assert n2 <= n1 ==> IsDeviceFor(devices, "", n2);
    assert n1 < n2 ==> IsDeviceFor(devices, "", n1);
  }

  /** After one device has come, sent its first packet and gone. */
  lemma AfterFirst(name: string, n: nat, packet: Packet, client: string)
    requires if packet.Connect? then packet == Connect(client, []) else packet.KeepAliveRequest? && client == ""
    ensures var s := After(name, [StartCycle(0, 0)] + Arrives(n, packet, 0) + [Detach(n)]);
      && s.Some? && Waiting(s.value, name) && s.value.end.clients == map[client := ExternalClient(0, [])]
      && s.value.end.devices.Keys == {n}
      && s.value.end.devices[n].name == client && s.value.end.devices[n].status.Idle?
  {
    hide After, Arrives;
    var e0 := [StartCycle(0, 0)];
    AfterStart(name);
    AfterArrives(name, e0, n, packet, 0);
    HandledParts(Opened(Initial(name).end, n), n, packet, 0);
    AfterNext(name, e0 + Arrives(n, packet, 0), Detach(n));
  }

  /** A client with a name that comes back in time to introduce itself but is looked at late: it was
      gone when it was asked, and has been heard of more than two seconds before the late look. */
  lemma NamedNotAsked(name: string, client: string, n: nat)
    ensures EndedUnasked(After(name, [StartCycle(0, 0)] + Arrives(n, Connect(client, []), 0) + [Detach(n)]
                                     + Asks(client) + Arrives(n, Connect(client, []), 3500) + Looks(5600)), client, n)
  {
    hide After, Arrives, Asks, Looks, Waiting, Handled;
    var e1 := [StartCycle(0, 0)] + Arrives(n, Connect(client, []), 0) + [Detach(n)];
    AfterFirst(name, n, Connect(client, []), client);
    AfterAsks(name, e1, client);
    var s1, s2 := After(name, e1).value, After(name, e1 + Asks(client)).value;
    ReachesIff(s1.end.devices, client, KeepAliveRequest);
    AfterArrives(name, e1 + Asks(client), n, Connect(client, []), 3500);
    HandledParts(Opened(s2.end, n), n, Connect(client, []), 3500);
    AfterLooks(name, e1 + Asks(client) + Arrives(n, Connect(client, []), 3500), client, 5600);
    var f := Handled(Opened(s2.end, n), n, Connect(client, []), 3500);
    assert IsDeviceFor(f.devices, client, n);
    RecheckedIff(f, client, 5600);
  }

  /** A client whose former device has a lower number: the request goes there. When that number is
      taken anew, the lookup finds the client's own device, and its connection is ended. */
  lemma MisledNotAsked(name: string, client: string, n1: nat, n2: nat)
    requires client != "" && n1 < n2
    ensures EndedUnasked(After(name, [StartCycle(0, 0)] + Arrives(n1, Connect(client, []), 0) + [Detach(n1)]
                                     + Arrives(n2, Connect(client, []), 0) + Asks(client) + Opens(n1) + Looks(4001)),
                         client, n2)
  {
    hide After, Arrives, Asks, Opens, Looks, DeviceFor, SentByName, Waiting;
    var e1 := [StartCycle(0, 0)] + Arrives(n1, Connect(client, []), 0) + [Detach(n1)]
      + Arrives(n2, Connect(client, []), 0);
    AfterBoth(name, client, n1, n2);
    var s1 := After(name, e1).value;
    AfterAsks(name, e1, client);
    DeviceForIs(s1.end.devices, client, n1);
    ReachesIff(s1.end.devices, client, KeepAliveRequest);
    AfterOpens(name, e1 + Asks(client), n1);
    AfterLooks(name, e1 + Asks(client) + Opens(n1), client, 4001);
    var f := Opened(s1.end, n1);
    assert IsDeviceFor(f.devices, client, n2);
    RecheckedIff(f, client, 4001);
  }

  /** After the client has come, gone, and come again under a higher number. */
  lemma AfterBoth(name: string, client: string, n1: nat, n2: nat)
    requires n1 < n2
    ensures var s := After(name, [StartCycle(0, 0)] + Arrives(n1, Connect(client, []), 0) + [Detach(n1)]
                                 + Arrives(n2, Connect(client, []), 0));
      && s.Some? && Waiting(s.value, name) && s.value.end.clients == map[client := ExternalClient(0, [])]
      && s.value.end.devices.Keys == {n1, n2}
      && s.value.end.devices[n1].name == s.value.end.devices[n2].name == client
      && s.value.end.devices[n1].status.Idle? && s.value.end.devices[n2].status.Connected?
      && IsDeviceFor(s.value.end.devices, client, n1)
  {
    hide After, Arrives, Handled;
    var e0 := [StartCycle(0, 0)] + Arrives(n1, Connect(client, []), 0) + [Detach(n1)];
    AfterFirst(name, n1, Connect(client, []), client);
    var s0 := After(name, e0).value;
    AfterArrives(name, e0, n2, Connect(client, []), 0);
    HandledParts(Opened(s0.end, n2), n2, Connect(client, []), 0);
    HandledSame(Opened(s0.end, n2), n2, Connect(client, []), 0);
  }

  lemma HandledSame(e: End, n: nat, packet: Packet, now: int)
    requires n in e.devices
    ensures Handled(e, n, packet, now).name == e.name && Handled(e, n, packet, now).own == e.own
  {
  }
}
