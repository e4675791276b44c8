/** Subscribers and their permits: a message is handed to a subscriber only while no callback of it
    is queued or running. */
module Subscribers {
  import opened Common

  /** A channel and the type of message the callback takes. */
  datatype Subscription = Subscription(channel: nat, msgType: nat)

  datatype Message = Message(msgType: nat, content: int)

  /** A callback on the dispatch queue: the subscriber's number and its message. */
  datatype Job = Job(subscriber: nat, message: Message)

  /** `permits[i]` is the semaphore of subscriber `i`; `mismatched` are those whose callback could
      not take a message it was given. */
  datatype State = State(subscriptions: seq<Subscription>, permits: seq<bool>, queued: seq<Job>, running: seq<Job>,
                         mismatched: set<nat>, delivered: seq<Job>)

  const INITIAL: State := State([], [], [], [], {}, [])

  datatype Event =
    | Subscribe(subscription: Subscription)
    | Offer(subscriber: nat, message: Message)
    | Begin(k: nat)
    | End(k: nat)

  predicate Enabled(s: State, e: Event)
  {
    match e
    case Subscribe(_) => true
    case Offer(i, _) => i < |s.subscriptions| == |s.permits|
    case Begin(k) => k < |s.queued|
    case End(k) => k < |s.running| && s.running[k].subscriber < |s.subscriptions| == |s.permits|
  }

  function Apply(s: State, e: Event): (t: State)
    requires Enabled(s, e)
  {
    match e
    case Subscribe(subscription) =>
      s.(subscriptions := s.subscriptions + [subscription], permits := s.permits + [true])
    case Offer(i, message) =>
      if s.permits[i] then s.(permits := s.permits[i := false], queued := s.queued + [Job(i, message)]) else s
    case Begin(k) => s.(queued := Without(s.queued, k), running := s.running + [s.queued[k]])
    case End(k) => Ended(s.(running := Without(s.running, k)), s.running[k])
  }

  /** The end of a callback gives the permit back; a message of the wrong type does not. */
  function Ended(s: State, job: Job): (t: State)
    requires job.subscriber < |s.subscriptions| == |s.permits|
  {
    var i := job.subscriber;
    if s.subscriptions[i].msgType == job.message.msgType then
      s.(permits := s.permits[i := true], delivered := s.delivered + [job])
    else s.(mismatched := s.mismatched + {i})
  }

  /** How many callbacks of a subscriber are in a list. */
  function Jobs(js: seq<Job>, i: nat): (n: nat)
  {
    if js == [] then 0 else (if js[0].subscriber == i then 1 else 0) + Jobs(js[1..], i)
  }

  predicate SubscriberOk(s: State, i: nat)
    requires i < |s.subscriptions| == |s.permits|
  {
    && Jobs(s.queued, i) + Jobs(s.running, i) <= 1
    && (s.permits[i] <==> Jobs(s.queued, i) + Jobs(s.running, i) == 0 && i !in s.mismatched)
    && (i in s.mismatched ==> Jobs(s.queued, i) + Jobs(s.running, i) == 0)
  }

  /** At most one callback of each subscriber is queued or running, and its permit is taken exactly
      when there is one or when it has met a message of the wrong type. */
  ghost predicate Invariant(s: State)
  {
    && |s.permits| == |s.subscriptions|
    && (forall k :: 0 <= k < |s.queued| ==> s.queued[k].subscriber < |s.subscriptions|)
    && (forall k :: 0 <= k < |s.running| ==> s.running[k].subscriber < |s.subscriptions|)
    && (forall i :: i in s.mismatched ==> i < |s.subscriptions|)
    && (forall i :: 0 <= i < |s.subscriptions| ==> SubscriberOk(s, i))
  }

  lemma {:induction false} JobsAppend(js: seq<Job>, job: Job, i: nat)
    ensures Jobs(js + [job], i) == Jobs(js, i) + if job.subscriber == i then 1 else 0
  {
    if js == [] {
      assert [job][1..] == [];
    } else {
      assert (js + [job])[1..] == js[1..] + [job];
      JobsAppend(js[1..], job, i);
    }
  }

  lemma {:induction false} JobsWithout(js: seq<Job>, k: nat, i: nat)
    requires k < |js|
    ensures Jobs(js, i) == Jobs(Without(js, k), i) + if js[k].subscriber == i then 1 else 0
  {
    if k == 0 {
      assert Without(js, 0) == js[1..];
    } else {
      assert Without(js, k)[1..] == Without(js[1..], k - 1);
      JobsWithout(js[1..], k - 1, i);
    }
  }

  lemma {:induction false} JobsNone(js: seq<Job>, i: nat)
    requires forall k :: 0 <= k < |js| ==> js[k].subscriber != i
    ensures Jobs(js, i) == 0
  {
    if js != [] {
      JobsNone(js[1..], i);
    }
  }

  /** What a step does to one subscriber: its own steps, and nothing else, change what it has. */
  lemma StepOn(s: State, e: Event, i: nat)
    requires Invariant(s) && Enabled(s, e) && i < |s.subscriptions|
    ensures i < |Apply(s, e).subscriptions| == |Apply(s, e).permits| && SubscriberOk(Apply(s, e), i)
    ensures !Concerns(s, e, i) ==>
              && Apply(s, e).permits[i] == s.permits[i]
              && Jobs(Apply(s, e).queued, i) == Jobs(s.queued, i)
              && Jobs(Apply(s, e).running, i) == Jobs(s.running, i)
              && (i in Apply(s, e).mismatched <==> i in s.mismatched)
  {
    hide Jobs;
    assert SubscriberOk(s, i);
    match e {
      case Subscribe(_) =>
      case Offer(j, message) => JobsAppend(s.queued, Job(j, message), i);
      case Begin(k) =>
        JobsWithout(s.queued, k, i);
        JobsAppend(s.running, s.queued[k], i);
      case End(k) => JobsWithout(s.running, k, i);
    }
  }

  /** Whether a step is about a subscriber. */
  predicate Concerns(s: State, e: Event, i: nat)
    requires Enabled(s, e)
  {
    match e
    case Subscribe(_) => false
    case Offer(j, _) => i == j
    case Begin(k) => s.queued[k].subscriber == i
    case End(k) => s.running[k].subscriber == i
  }

  lemma StepKeeps(s: State, e: Event)
    requires Invariant(s) && Enabled(s, e)
    ensures Invariant(Apply(s, e))
  {
    var t := Apply(s, e);
    forall i | 0 <= i < |t.subscriptions| ensures SubscriberOk(t, i) {
      if i < |s.subscriptions| {
        StepOn(s, e, i);
      } else {
        JobsNone(s.queued, i);
        JobsNone(s.running, i);
      }
    }
  }

  /** The state after a run, when each of its steps was possible. */
  function After(es: seq<Event>): (s: Option<State>)
  {
    if es == [] then Some(INITIAL) else
      match After(es[..|es| - 1])
      case None => None
      case Some(s) => if Enabled(s, es[|es| - 1]) then Some(Apply(s, es[|es| - 1])) else None
  }

  lemma {:induction false} EveryRun(es: seq<Event>)
    requires After(es).Some?
    ensures Invariant(After(es).value)
  {
    hide Invariant, Apply, Enabled;
    if es == [] {
      NoSubscribers();
    } else {
      var before := es[..|es| - 1];
      EveryRun(before);
      StepKeeps(After(before).value, es[|es| - 1]);
    }
  }

  lemma NoSubscribers()
    ensures Invariant(INITIAL)
  {
  }

  /** How many messages a subscriber has been given. */
  function Delivered(s: State, i: nat): (n: nat)
  {
    Jobs(s.delivered, i)
  }

  /** Once a subscriber has met a message of the wrong type, it never gets one again. */
  lemma {:induction false} NeverAgain(es: seq<Event>, fs: seq<Event>, i: nat)
    requires After(es).Some? && i in After(es).value.mismatched && After(es + fs).Some?
    ensures i in After(es + fs).value.mismatched
    ensures Delivered(After(es + fs).value, i) == Delivered(After(es).value, i)
    decreases |fs|
  {
    hide Jobs;
    if fs == [] {
      assert es + fs == es;
    } else {
      var before := fs[..|fs| - 1];
      assert (es + fs)[..|es + fs| - 1] == es + before;
      NeverAgain(es, before, i);
      EveryRun(es + before);
      var s, e := After(es + before).value, fs[|fs| - 1];
      assert SubscriberOk(s, i);
      if e.End? {
        JobsWithout(s.running, e.k, i);
        JobsAppend(s.delivered, s.running[e.k], i);
      }
    }
  }

  // --- what becomes of a message ---

  /** The callbacks put on the queue so far: the offers that found the permit free. */
  function Accepted(es: seq<Event>): (jobs: multiset<Job>)
  {
    if es == [] then multiset{} else
      var before, e := es[..|es| - 1], es[|es| - 1];
      Accepted(before)
      + match After(before)
        case None => multiset{}
        case Some(s) => Taken(s, e)
  }

  function Taken(s: State, e: Event): (jobs: multiset<Job>)
  {
    if e.Offer? && e.subscriber < |s.permits| && s.permits[e.subscriber] then multiset{Job(e.subscriber, e.message)}
    else multiset{}
  }

  /** The callbacks that have ended without taking their message, because it was of the wrong type. */
  function Failed(es: seq<Event>): (jobs: multiset<Job>)
  {
    if es == [] then multiset{} else
      var before, e := es[..|es| - 1], es[|es| - 1];
      Failed(before)
      + match After(before)
        case None => multiset{}
        case Some(s) => Missed(s, e)
  }

  function Missed(s: State, e: Event): (jobs: multiset<Job>)
  {
    if e.End? && Enabled(s, e)
       && s.subscriptions[s.running[e.k].subscriber].msgType != s.running[e.k].message.msgType
    then multiset{s.running[e.k]} else multiset{}
  }

  function Accounted(s: State): (jobs: multiset<Job>)
  {
    multiset(s.queued) + multiset(s.running) + multiset(s.delivered)
  }

  lemma StepAccounts(s: State, e: Event)
    requires Enabled(s, e)
    ensures Accounted(Apply(s, e)) + Missed(s, e) == Accounted(s) + Taken(s, e)
  {
    match e {
      case Subscribe(_) =>
      case Offer(_, _) =>
      case Begin(k) => WithoutMultiset(s.queued, k);
      case End(k) => WithoutMultiset(s.running, k);
    }
  }

  /** In every run, every message that found the permit free is queued, being handled, delivered, or has
      met a callback of the wrong type, each exactly once. */
  lemma {:induction false} NoneLost(es: seq<Event>)
    requires After(es).Some?
    ensures Accounted(After(es).value) + Failed(es) == Accepted(es)
    decreases |es|
  {
    hide Accounted, Taken, Missed, Apply, Enabled;
    if es == [] {
      NothingAccounted();
    } else {
      var before, e := es[..|es| - 1], es[|es| - 1];
      var s := After(before).value;
      NoneLost(before);
      StepAccounts(s, e);
      Sums(Accounted(Apply(s, e)), Missed(s, e), Accounted(s), Taken(s, e), Failed(before), Accepted(before));
    }
  }

  lemma Sums<T>(t: multiset<T>, missed: multiset<T>, s: multiset<T>, taken: multiset<T>, failed: multiset<T>,
                accepted: multiset<T>)
    requires t + missed == s + taken && s + failed == accepted
    ensures t + (failed + missed) == accepted + taken
  {
    assert t + (failed + missed) == t + missed + failed;
    assert s + taken + failed == s + failed + taken;
  }

  lemma NothingAccounted()
    ensures Accounted(INITIAL) == multiset{}
  {
  }

  lemma AfterNext(es: seq<Event>, e: Event)
    requires After(es).Some? && Enabled(After(es).value, e)
    ensures After(es + [e]) == Some(Apply(After(es).value, e))
  {
    assert (es + [e])[..|es|] == es;
  }

  /** A new subscriber is served: a message of its type that is offered to it is put on the queue, and
      delivered when its callback has had its turn; then it can be offered the next one. */
  lemma NewOneIsServed(es: seq<Event>, subscription: Subscription, message: Message)
    requires After(es).Some? && message.msgType == subscription.msgType
    ensures var s := After(es).value;
      var i := |s.subscriptions|;
      var t := After(es + [Subscribe(subscription)] + [Offer(i, message)] + [Begin(|s.queued|)] + [End(|s.running|)]);
      && t.Some? && t.value.subscriptions == s.subscriptions + [subscription]
      && t.value.permits == s.permits + [true] && t.value.queued == s.queued && t.value.running == s.running
      && t.value.mismatched == s.mismatched && t.value.delivered == s.delivered + [Job(i, message)]
  {
    hide After;
    EveryRun(es);
    var s := After(es).value;
    var i := |s.subscriptions|;
    AfterNext(es, Subscribe(subscription));
    AfterNext(es + [Subscribe(subscription)], Offer(i, message));
    var offered := es + [Subscribe(subscription)] + [Offer(i, message)];
    AfterNext(offered, Begin(|s.queued|));
    assert After(offered + [Begin(|s.queued|)]).value.queued == s.queued;
    AfterNext(offered + [Begin(|s.queued|)], End(|s.running|));
    assert (s.permits + [true])[i := false][i := true] == s.permits + [true];
  }

  /** In every run, what a subscriber was given is of its type. */
  lemma {:induction false} DeliveredFits(es: seq<Event>, k: nat)
    requires After(es).Some? && k < |After(es).value.delivered|
    ensures var s := After(es).value;
      var job := s.delivered[k];
      job.subscriber < |s.subscriptions| && s.subscriptions[job.subscriber].msgType == job.message.msgType
    decreases |es|
  {
    if es != [] {
      var before := es[..|es| - 1];
      if k < |After(before).value.delivered| {
        DeliveredFits(before, k);
      }
    }
  }

  // --- when a permit is lost ---

  /** The message does not fit the subscriber, whose permit is free. */
  predicate Spoils(s: State, i: nat, message: Message)
  {
    i < |s.subscriptions| == |s.permits| && s.permits[i] && message.msgType != s.subscriptions[i].msgType
  }

  /** In the run, a message of the wrong type was offered to the subscriber while its permit was free. */
  predicate Spoilt(es: seq<Event>, i: nat)
  {
    es != [] &&
    var before, e := es[..|es| - 1], es[|es| - 1];
    Spoilt(before, i) || (After(before).Some? && e.Offer? && e.subscriber == i
      && Spoils(After(before).value, i, e.message))
  }

  /** A callback of the subscriber that cannot take its message. */
  predicate Unfit(s: State, i: nat, job: Job)
    requires i < |s.subscriptions|
  {
    job.subscriber == i && job.message.msgType != s.subscriptions[i].msgType
  }

  /** Such a callback is queued or running, or has been met already. */
  ghost predicate Doomed(s: State, i: nat)
    requires i < |s.subscriptions|
  {
    i in s.mismatched || exists job :: job in s.queued + s.running && Unfit(s, i, job)
  }

  lemma StillThere(js: seq<Job>, k: nat, job: Job)
    requires k < |js|
    ensures job in js <==> job == js[k] || job in Without(js, k)
  {
    assert js == js[..k] + [js[k]] + js[k + 1..];
  }

  /** Only an offer that spoils the subscriber dooms it, and nothing saves it again. */
  lemma DoomedStep(s: State, e: Event, i: nat)
    requires Invariant(s) && Enabled(s, e) && i < |Apply(s, e).subscriptions|
    ensures Doomed(Apply(s, e), i) <==>
              (i < |s.subscriptions| && Doomed(s, i)) || (e.Offer? && e.subscriber == i && Spoils(s, i, e.message))
  {
    hide SubscriberOk, Jobs;
    var t := Apply(s, e);
    match e {
      case Subscribe(_) =>
      case Offer(j, message) =>
        if s.permits[j] {
          var offered := Job(j, message);
          assert t.queued == s.queued + [offered];
          assert forall job: Job :: job in t.queued + t.running <==> job in s.queued + s.running || job == offered;
          assert Unfit(t, i, offered) <==> j == i && Spoils(s, i, message);
        }
      case Begin(k) =>
        forall job: Job ensures job in t.queued + t.running <==> job in s.queued + s.running {
          StillThere(s.queued, k, job);
        }
      case End(k) =>
        forall job: Job ensures job in s.queued + s.running <==> job == s.running[k] || job in t.queued + t.running {
          StillThere(s.running, k, job);
        }
        assert s.running[k] in s.queued + s.running;
        assert i in t.mismatched <==> i in s.mismatched || Unfit(s, i, s.running[k]);
        assert forall job: Job :: Unfit(t, i, job) <==> Unfit(s, i, job);
    }
  }

  lemma {:induction false} DoomedIff(es: seq<Event>, i: nat)
    requires After(es).Some?
    ensures Spoilt(es, i) <==> i < |After(es).value.subscriptions| && Doomed(After(es).value, i)
    decreases |es|
  {
    hide Apply, Enabled, Doomed, Spoils, Invariant;
    if es == [] {
      NoSubscribers();
    } else {
      var before := es[..|es| - 1];
      var s, e := After(before).value, es[|es| - 1];
      EveryRun(before);
      DoomedIff(before, i);
      SubscriptionsStay(s, e, i);
      if i < |After(es).value.subscriptions| {
        DoomedStep(s, e, i);
      }
    }
  }

  lemma SubscriptionsStay(s: State, e: Event, i: nat)
    requires Enabled(s, e)
    ensures s.subscriptions <= Apply(s, e).subscriptions
    ensures e.Offer? && e.subscriber == i && Spoils(s, i, e.message) ==> i < |s.subscriptions|
  {
  }

  lemma {:induction false} JobCounts(js: seq<Job>, job: Job)
    requires job in js
    ensures Jobs(js, job.subscriber) >= 1
  {
    if job != js[0] {
      JobCounts(js[1..], job);
    }
  }

  /** With nothing of the subscriber queued or running, its permit is gone, for good, exactly when a
      message of the wrong type was once offered to it while its permit was free. */
  lemma PermitLostIff(es: seq<Event>, i: nat)
    requires After(es).Some? && i < |After(es).value.subscriptions|
    requires Jobs(After(es).value.queued, i) == 0 && Jobs(After(es).value.running, i) == 0
    ensures i < |After(es).value.permits|
    ensures !After(es).value.permits[i] <==> Spoilt(es, i)
  {
    hide After, Jobs;
    EveryRun(es);
    DoomedIff(es, i);
    var s := After(es).value;
    assert SubscriberOk(s, i);
    forall job | job in s.queued + s.running && job.subscriber == i ensures false {
      JobCounts(if job in s.queued then s.queued else s.running, job);
    }
  }

  /** So a subscriber that is only ever offered messages of its type never loses its permit. */
  lemma {:induction false} RightTypesNeverSpoil(es: seq<Event>, i: nat)
    requires After(es).Some? && i < |After(es).value.subscriptions|
    requires forall k :: 0 <= k < |es| && es[k].Offer? && es[k].subscriber == i ==>
               es[k].message.msgType == After(es).value.subscriptions[i].msgType
    ensures !Spoilt(es, i)
    decreases |es|
  {
    if es != [] {
      var before, e := es[..|es| - 1], es[|es| - 1];
      var s := After(before).value;
      if i < |s.subscriptions| {
        assert forall k :: 0 <= k < |before| ==> before[k] == es[k];
        RightTypesNeverSpoil(before, i);
      } else {
        DoomedIff(before, i);
      }
    }
  }

  // --- the client ---

  class Subscriber {
    const subscription: Subscription
    const number: nat
    var semaphore: bool

    constructor (subscription: Subscription, number: nat)
      ensures this.subscription == subscription && this.number == number && semaphore
    {
      this.subscription, this.number, semaphore := subscription, number, true;
    }
  }

  /** One offer after another: a message going through a channel's list. */
  function OfferAll(s: State, numbers: seq<nat>, message: Message): (t: State)
    requires |s.subscriptions| == |s.permits| && forall k :: 0 <= k < |numbers| ==> numbers[k] < |s.permits|
    ensures |t.subscriptions| == |t.permits| == |s.permits|
  {
    if numbers == [] then s
    else Apply(OfferAll(s, numbers[..|numbers| - 1], message), Offer(numbers[|numbers| - 1], message))
  }

  lemma OfferNone(s: State, message: Message)
    requires |s.subscriptions| == |s.permits|
    ensures OfferAll(s, [], message) == s
  {
  }

  lemma OfferNext(s: State, numbers: seq<nat>, k: nat, message: Message)
    requires |s.subscriptions| == |s.permits| && forall j :: 0 <= j < |numbers| ==> numbers[j] < |s.permits|
    requires k < |numbers|
    ensures OfferAll(s, numbers[..k + 1], message)
         == Apply(OfferAll(s, numbers[..k], message), Offer(numbers[k], message))
  {
    assert numbers[..k + 1][..k] == numbers[..k];
  }

  function Numbers(list: seq<Subscriber>): (ns: seq<nat>)
    ensures |ns| == |list|
  {
    seq(|list|, i requires 0 <= i < |list| => list[i].number)
  }

  function SubscriptionsOf(list: seq<Subscriber>): (ss: seq<Subscription>)
    ensures |ss| == |list|
  {
    seq(|list|, i requires 0 <= i < |list| => list[i].subscription)
  }

  ghost function PermitsOf(list: seq<Subscriber>): (ps: seq<bool>)
    reads list
    ensures |ps| == |list|
  {
    seq(|list|, i requires 0 <= i < |list| reads list => list[i].semaphore)
  }

  class Client {
    var channels: map<nat, seq<Subscriber>>
    var queue: seq<Job>
    var count: nat
    ghost var all: seq<Subscriber>

    ghost predicate Valid()
      reads this
    {
      && count == |all|
      && (forall i :: 0 <= i < |all| ==> all[i].number == i)
      && (forall c :: c in channels ==> c < 256 && Known(channels[c]))
    }

    ghost predicate Known(list: seq<Subscriber>)
      reads this
    {
      forall k :: 0 <= k < |list| ==> list[k].number < |all| && all[list[k].number] == list[k]
    }

    /** A state with this client's subscribers, permits and queue. */
    ghost function View(s: State): (t: State)
      reads this, all
      ensures |t.subscriptions| == |t.permits| == |all|
    {
      s.(subscriptions := SubscriptionsOf(all), permits := PermitsOf(all), queued := queue)
    }

    constructor ()
      ensures Valid() && all == [] && View(INITIAL) == INITIAL
    {
      channels, queue, count, all := map[], [], 0, [];
    }

    method AddSubscriber(channel: nat, msgType: nat, ghost s: State)
      requires Valid() && channel < 256
      modifies this
      ensures Valid() && |all| == |old(all)| + 1 && all[..|old(all)|] == old(all) && fresh(all[|old(all)|])
      ensures var list := if channel in old(channels) then old(channels)[channel] else [];
        channels == old(channels)[channel := list + [all[|old(all)|]]]
      ensures View(s) == Apply(old(View(s)), Subscribe(Subscription(channel, msgType)))
    {
      var sub := new Subscriber(Subscription(channel, msgType), count);
      channels := channels[channel := (if channel in channels then channels[channel] else []) + [sub]];
      count := count + 1;
      all := all + [sub];
      assert SubscriptionsOf(all) == old(SubscriptionsOf(all)) + [sub.subscription];
      assert PermitsOf(all) == old(PermitsOf(all)) + [true];
    }

    /** Offers a message to every subscriber of the channel, whose number is cut to one byte. */
    method Notify(channel: nat, message: Message, ghost s: State)
      requires Valid() && channel < 0x1_0000
      modifies this`queue, all`semaphore
      ensures Valid()
      ensures var list := if channel % 256 in channels then channels[channel % 256] else [];
        (forall k :: 0 <= k < |list| ==> list[k].number < |all|)
        && View(s) == OfferAll(old(View(s)), Numbers(list), message)
    {
      hide OfferAll, Jobs, SubscriberOk;
      OfferNone(View(s), message);
      var list := if channel % 256 in channels then channels[channel % 256] else [];
      assert Known(list) && Numbers(list)[..0] == [];
      for k := 0 to |list|
        invariant View(s) == OfferAll(old(View(s)), Numbers(list)[..k], message)
      {
        ghost var before := View(s);
        var subscriber := list[k];
        if subscriber.semaphore {
          subscriber.semaphore := false;
          queue := queue + [Job(subscriber.number, message)];
        }
        assert View(s).permits == before.permits[subscriber.number := false];
        OfferNext(old(View(s)), Numbers(list), k, message);
      }
      assert Numbers(list)[..|list|] == Numbers(list);
    }

    /** The body of a queued callback, once it runs; the rest of the state is the run's. */
    method RunJob(job: Job, subscriber: Subscriber, ghost s: State)
      requires Valid() && job.subscriber < |all| && all[job.subscriber] == subscriber
      modifies subscriber`semaphore
      ensures Valid() && View(Ended(old(View(s)), job)) == Ended(old(View(s)), job)
    {
      if subscriber.subscription.msgType == job.message.msgType {
        subscriber.semaphore := true;
        assert PermitsOf(all) == old(PermitsOf(all))[job.subscriber := true];
      }
    }
  }
}
