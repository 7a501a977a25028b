/**
 The store-and-forward broker as a state machine: what each event does to the server's
 state and what it writes to which socket, what holds in every reachable state, and what
 a subscriber receives over a whole run.
 */
module Broker {
  import opened CString

  type Id = bytes
  type Name = bytes
  type Message = bytes

  /** What a refused client is told. */
  const EXIT: Message := [0x65, 0x78, 0x69, 0x74]

  // ----- the topics of one client -----

  datatype Topic = Topic(name: Name, sf: bool)

  /** The position of the first topic called `name`, or the length of the list. */
  function TopicAt(topics: seq<Topic>, name: Name): (k: nat)
    ensures k <= |topics| && (k < |topics| ==> topics[k].name == name)
    ensures forall j | 0 <= j < k :: topics[j].name != name
  {
    if topics == [] then 0
    else if topics[0].name == name then 0
    else TopicAt(topics[1..], name) + 1
  }

  predicate Subscribed(topics: seq<Topic>, name: Name) {
    TopicAt(topics, name) < |topics|
  }

  predicate SfActive(topics: seq<Topic>, name: Name) {
    Subscribed(topics, name) && topics[TopicAt(topics, name)].sf
  }

  /** `add_topic`: a known topic gets the new flag where it stands, a new one goes in front. */
  function WithTopic(topics: seq<Topic>, name: Name, sf: bool): seq<Topic> {
    var k := TopicAt(topics, name);
    if k < |topics| then topics[k := topics[k].(sf := sf)] else [Topic(name, sf)] + topics
  }

  /** `remove_topic`: the first topic of that name goes. */
  function WithoutTopic(topics: seq<Topic>, name: Name): seq<Topic> {
    var k := TopicAt(topics, name);
    if k < |topics| then topics[..k] + topics[k + 1..] else topics
  }

  predicate DistinctNames(topics: seq<Topic>) {
    forall i, j | 0 <= i < j < |topics| :: topics[i].name != topics[j].name
  }

  /** The subscriptions that a list of topics stands for. */
  function Subscriptions(topics: seq<Topic>): map<Name, bool> {
    if topics == [] then map[] else Subscriptions(topics[1..])[topics[0].name := topics[0].sf]
  }

  lemma {:induction false} SubscriptionsLookUp(topics: seq<Topic>, name: Name)
    ensures name in Subscriptions(topics) <==> Subscribed(topics, name)
    ensures Subscribed(topics, name) ==> Subscriptions(topics)[name] == topics[TopicAt(topics, name)].sf
  {
    if topics != [] {
      SubscriptionsLookUp(topics[1..], name);
    }
  }

  lemma TopicAtIs(topics: seq<Topic>, name: Name, k: nat)
    requires k <= |topics| && (k < |topics| ==> topics[k].name == name)
    requires forall j | 0 <= j < k :: topics[j].name != name
    ensures TopicAt(topics, name) == k
  {
  }

  /** Two lists that answer every lookup alike stand for the same subscriptions. */
  lemma SameSubscriptions(topics: seq<Topic>, m: map<Name, bool>)
    requires forall n: Name :: n in m <==> Subscribed(topics, n)
    requires forall n: Name | n in m :: m[n] == SfActive(topics, n)
    ensures Subscriptions(topics) == m
  {
    forall n: Name
      ensures n in Subscriptions(topics) <==> n in m
      ensures n in m ==> Subscriptions(topics)[n] == m[n]
    {
      SubscriptionsLookUp(topics, n);
    }
  }

  lemma WithTopicLooksUp(topics: seq<Topic>, name: Name, sf: bool, n: Name)
    ensures var t := WithTopic(topics, name, sf);
            && (Subscribed(t, n) <==> n == name || Subscribed(topics, n))
            && (Subscribed(t, n) ==> SfActive(t, n) == if n == name then sf else SfActive(topics, n))
  {
    var t := WithTopic(topics, name, sf);
    var k := TopicAt(topics, n);
    if n == name {
      TopicAtIs(t, n, if k < |topics| then k else 0);
    } else {
      TopicAtIs(t, n, if Subscribed(topics, name) then k else k + 1);
    }
  }

  /** The list of topics refines a map: subscribing sets one key. */
  lemma WithTopicRefinesMap(topics: seq<Topic>, name: Name, sf: bool)
    requires DistinctNames(topics)
    ensures DistinctNames(WithTopic(topics, name, sf))
    ensures Subscriptions(WithTopic(topics, name, sf)) == Subscriptions(topics)[name := sf]
  {
    assert DistinctNames(WithTopic(topics, name, sf));
    hide WithTopic, Subscribed, DistinctNames;
    var t, m := WithTopic(topics, name, sf), Subscriptions(topics)[name := sf];
    forall n: Name
      ensures n in m <==> Subscribed(t, n)
      ensures n in m ==> m[n] == SfActive(t, n)
    {
      SubscriptionsLookUp(topics, n);
      WithTopicLooksUp(topics, name, sf, n);
    }
    SameSubscriptions(t, m);
  }

  lemma WithoutTopicLooksUp(topics: seq<Topic>, name: Name, n: Name)
    requires DistinctNames(topics)
    ensures var t := WithoutTopic(topics, name);
            && (Subscribed(t, n) <==> n != name && Subscribed(topics, n))
            && (Subscribed(t, n) ==> SfActive(t, n) == SfActive(topics, n))
  {
    var t, k, r := WithoutTopic(topics, name), TopicAt(topics, n), TopicAt(topics, name);
    if n == name {
      TopicAtIs(t, n, |t|);
    } else {
      TopicAtIs(t, n, if k < r || r == |topics| then k else k - 1);
    }
  }

  /** And unsubscribing removes one key, because names are distinct. */
  lemma WithoutTopicRefinesMap(topics: seq<Topic>, name: Name)
    requires DistinctNames(topics)
    ensures DistinctNames(WithoutTopic(topics, name))
    ensures Subscriptions(WithoutTopic(topics, name)) == Subscriptions(topics) - {name}
  {
    assert DistinctNames(WithoutTopic(topics, name));
    hide WithoutTopic, Subscribed, DistinctNames;
    var t, m := WithoutTopic(topics, name), Subscriptions(topics) - {name};
    forall n: Name
      ensures n in m <==> Subscribed(t, n)
      ensures n in m ==> m[n] == SfActive(t, n)
    {
      SubscriptionsLookUp(topics, n);
      WithoutTopicLooksUp(topics, name, n);
    }
    SameSubscriptions(t, m);
  }

  // ----- the server's state -----

  datatype Subscriber = Subscriber(id: Id, online: bool, topics: seq<Topic>, pending: seq<Message>)

  /** `sockets` says which client is at which socket; `fds` is the set that `select` watches. */
  datatype State = State(sockets: map<int, Id>, clients: seq<Subscriber>, fds: set<int>, listening: set<int>)

  datatype Event =
    | Connect(fd: int, id: Id)
    | Disconnect(fd: int)
    | Subscribe(fd: int, name: Name, sf: bool)
    | Unsubscribe(fd: int, name: Name)
    | Publish(name: Name, message: Message)

  /** The new state, and what is written to each socket. */
  datatype Outcome = Outcome(state: State, writes: map<int, seq<Message>>)

  function ClientFrom(clients: seq<Subscriber>, id: Id, p: nat): (k: nat)
    requires p <= |clients|
    ensures p <= k <= |clients| && (k < |clients| ==> clients[k].id == id)
    ensures forall j | p <= j < k :: clients[j].id != id
    decreases |clients| - p
  {
    if p == |clients| || clients[p].id == id then p else ClientFrom(clients, id, p + 1)
  }

  /** The position of the first client with that id, or the length of the list. */
  function ClientAt(clients: seq<Subscriber>, id: Id): (k: nat)
    ensures k <= |clients| && (k < |clients| ==> clients[k].id == id)
    ensures forall j | 0 <= j < k :: clients[j].id != id
  {
    ClientFrom(clients, id, 0)
  }

  predicate Known(st: State, id: Id) {
    ClientAt(st.clients, id) < |st.clients|
  }

  function ClientOf(st: State, id: Id): (c: Subscriber)
    requires Known(st, id)
    ensures c.id == id && c in st.clients
  {
    st.clients[ClientAt(st.clients, id)]
  }

  // ----- what holds in every reachable state -----

  predicate DistinctIds(clients: seq<Subscriber>) {
    forall i, j | 0 <= i < j < |clients| :: clients[i].id != clients[j].id
  }

  predicate GoodClient(c: Subscriber) {
    DistinctNames(c.topics) && (c.online ==> c.pending == [])
  }

  ghost predicate Invariant(st: State) {
    && DistinctIds(st.clients)
    && (forall k | 0 <= k < |st.clients| :: GoodClient(st.clients[k]))
    && (forall a, b | a in st.sockets && b in st.sockets && st.sockets[a] == st.sockets[b] :: a == b)
    && (forall fd | fd in st.sockets :: Known(st, st.sockets[fd]) && ClientOf(st, st.sockets[fd]).online)
    && (forall k | 0 <= k < |st.clients| && st.clients[k].online :: HasSocket(st, st.clients[k].id))
    && st.fds == st.sockets.Keys + st.listening && st.sockets.Keys !! st.listening
  }

  /** The id is at some socket: what `check_unique_id` looks for. */
  predicate HasSocket(st: State, id: Id) {
    exists fd :: fd in st.sockets && st.sockets[fd] == id
  }

  // ----- the events -----

  /** `select` and `accept` promise this much: a new socket is not open yet, and a command comes from a watched one. */
  predicate Enabled(st: State, e: Event) {
    match e
    case Connect(fd, _) => fd !in st.fds
    case Publish(_, _) => true
    case Disconnect(fd) => fd in st.fds && fd !in st.listening
    case Subscribe(fd, _, _) => fd in st.fds && fd !in st.listening
    case Unsubscribe(fd, _) => fd in st.fds && fd !in st.listening
  }

  function NewClient(id: Id): Subscriber {
    Subscriber(id, true, [], [])
  }

  function Connected(st: State, fd: int, id: Id): Outcome {
    if HasSocket(st, id) then
      Outcome(st, map[fd := [EXIT]])
    else
      var k := ClientAt(st.clients, id);
      if k < |st.clients| then
        Outcome(st.(sockets := st.sockets[fd := id], fds := st.fds + {fd},
                    clients := st.clients[k := st.clients[k].(online := true, pending := [])]),
                map[fd := st.clients[k].pending])
      else
        Outcome(st.(sockets := st.sockets[fd := id], fds := st.fds + {fd},
                    clients := [NewClient(id)] + st.clients),
                map[fd := []])
  }

  function WithClient(st: State, c: Subscriber): State
    requires Known(st, c.id)
  {
    st.(clients := st.clients[ClientAt(st.clients, c.id) := c])
  }

  function Disconnected(st: State, fd: int): Outcome
    requires fd in st.sockets && Known(st, st.sockets[fd])
  {
    var c := ClientOf(st, st.sockets[fd]);
    Outcome(WithClient(st, c.(online := false)).(sockets := st.sockets - {fd}, fds := st.fds - {fd}), map[])
  }

  function WithSubscription(st: State, fd: int, name: Name, sf: bool): Outcome
    requires fd in st.sockets && Known(st, st.sockets[fd])
  {
    var c := ClientOf(st, st.sockets[fd]);
    Outcome(WithClient(st, c.(topics := WithTopic(c.topics, name, sf))), map[])
  }

  function WithoutSubscription(st: State, fd: int, name: Name): Outcome
    requires fd in st.sockets && Known(st, st.sockets[fd])
  {
    var c := ClientOf(st, st.sockets[fd]);
    Outcome(WithClient(st, c.(topics := WithoutTopic(c.topics, name))), map[])
  }

  /** A client that is away keeps the message, newest in front, if it asked for that. */
  function Kept(c: Subscriber, name: Name, message: Message): Subscriber {
    if !c.online && SfActive(c.topics, name) then c.(pending := [message] + c.pending) else c
  }

  function AllKept(clients: seq<Subscriber>, name: Name, message: Message): (r: seq<Subscriber>)
    ensures |r| == |clients|
    ensures forall k | 0 <= k < |r| :: r[k] == Kept(clients[k], name, message)
  {
    seq(|clients|, k requires 0 <= k < |clients| => Kept(clients[k], name, message))
  }

  function Published(st: State, name: Name, message: Message): Outcome
    requires forall fd | fd in st.sockets :: Known(st, st.sockets[fd])
  {
    Outcome(st.(clients := AllKept(st.clients, name, message)),
            map fd | fd in st.sockets && Subscribed(ClientOf(st, st.sockets[fd]).topics, name) :: [message])
  }

  /** One event. That the socket of a command has a client is part of the invariant. */
  ghost function Step(st: State, e: Event): Outcome
    requires Invariant(st) && Enabled(st, e)
  {
    match e
    case Connect(fd, id) => Connected(st, fd, id)
    case Disconnect(fd) => Disconnected(st, fd)
    case Subscribe(fd, name, sf) => WithSubscription(st, fd, name, sf)
    case Unsubscribe(fd, name) => WithoutSubscription(st, fd, name)
    case Publish(name, message) => Published(st, name, message)
  }

  // ----- the invariant is kept -----

  lemma ClientAtIs(clients: seq<Subscriber>, id: Id, k: nat)
    requires k < |clients| && clients[k].id == id && DistinctIds(clients)
    ensures ClientAt(clients, id) == k
  {
  }

  /** Changing one client, not its id, leaves every other client where it is. */
  lemma WithClientLooksUp(st: State, c: Subscriber, id: Id)
    requires Known(st, c.id) && DistinctIds(st.clients)
    ensures var s := WithClient(st, c);
            && DistinctIds(s.clients) && (Known(s, id) <==> Known(st, id))
            && (Known(st, id) ==> ClientOf(s, id) == if id == c.id then c else ClientOf(st, id))
  {
    var s := WithClient(st, c);
    var k := ClientAt(st.clients, id);
    if k < |st.clients| {
      ClientAtIs(s.clients, id, k);
    } else {
      assert forall j | 0 <= j < |s.clients| :: s.clients[j].id != id;
    }
  }

  lemma NewClientLooksUp(st: State, c: Subscriber, id: Id)
    requires !Known(st, c.id) && DistinctIds(st.clients)
    ensures var s := st.(clients := [c] + st.clients);
            && DistinctIds(s.clients) && (Known(s, id) <==> id == c.id || Known(st, id))
            && (Known(s, id) ==> ClientOf(s, id) == if id == c.id then c else ClientOf(st, id))
  {
    var s := st.(clients := [c] + st.clients);
    assert s.clients[1..] == st.clients;
  }

  /** Every client is found under its own id. */
  lemma FoundUnderItsId(st: State, k: nat)
    requires DistinctIds(st.clients) && k < |st.clients|
    ensures Known(st, st.clients[k].id) && ClientOf(st, st.clients[k].id) == st.clients[k]
  {
    ClientAtIs(st.clients, st.clients[k].id, k);
  }

  /** The part of the invariant that speaks of each id, as a lookup finds it. */
  ghost predicate GoodId(st: State, id: Id) {
    && (Known(st, id) ==> GoodClient(ClientOf(st, id)))
    && (HasSocket(st, id) <==> Known(st, id) && ClientOf(st, id).online)
  }

  lemma InvariantById(st: State)
    ensures Invariant(st)
       <==> && DistinctIds(st.clients) && (forall id: Id :: GoodId(st, id))
            && (forall a, b | a in st.sockets && b in st.sockets && st.sockets[a] == st.sockets[b] :: a == b)
            && st.fds == st.sockets.Keys + st.listening && st.sockets.Keys !! st.listening
  {
    hide Known, ClientOf, GoodClient;
    if DistinctIds(st.clients) {
      forall k | 0 <= k < |st.clients|
        ensures Known(st, st.clients[k].id) && ClientOf(st, st.clients[k].id) == st.clients[k]
      {
        FoundUnderItsId(st, k);
      }
      if Invariant(st) {
        forall id: Id
          ensures GoodId(st, id)
        {
          OnceKnown(st, id);
        }
      } else if forall id: Id :: GoodId(st, id) {
        assert forall k | 0 <= k < |st.clients| :: GoodId(st, st.clients[k].id);
        assert forall fd | fd in st.sockets :: HasSocket(st, st.sockets[fd]) && GoodId(st, st.sockets[fd]);
      }
    }
  }

  lemma OnceKnown(st: State, id: Id)
    ensures Known(st, id) ==> ClientOf(st, id) in st.clients
  {
  }

  lemma ConnectKeepsInvariant(st: State, fd: int, id: Id)
    requires Invariant(st) && fd !in st.fds
    ensures Invariant(Connected(st, fd, id).state)
  {
    hide Known, ClientOf;
    if !HasSocket(st, id) {
      var s := Connected(st, fd, id).state;
      InvariantById(st);
      forall x: Id
        ensures DistinctIds(s.clients) && GoodId(s, x)
      {
        assert GoodId(st, x);
        ConnectedLooksUp(st, fd, id, x);
        assert HasSocket(s, x) <==> x == id || HasSocket(st, x) by { OneMoreSocket(st, s, fd, id, x); }
      }
      assert GoodId(s, id);
      InvariantById(s);
    }
  }

  lemma OneMoreSocket(st: State, s: State, fd: int, id: Id, x: Id)
    requires fd !in st.sockets && s.sockets == st.sockets[fd := id]
    ensures HasSocket(s, x) <==> x == id || HasSocket(st, x)
  {
    if HasSocket(st, x) {
      var a :| a in st.sockets && st.sockets[a] == x;
      assert s.sockets[a] == x;
    }
    assert s.sockets[fd] == id;
  }

  lemma OneSocketLess(st: State, s: State, fd: int, x: Id)
    requires fd in st.sockets && s.sockets == st.sockets - {fd}
    requires forall a, b | a in st.sockets && b in st.sockets && st.sockets[a] == st.sockets[b] :: a == b
    ensures HasSocket(s, x) <==> x != st.sockets[fd] && HasSocket(st, x)
  {
    if HasSocket(st, x) && x != st.sockets[fd] {
      var a :| a in st.sockets && st.sockets[a] == x;
      assert s.sockets[a] == x;
    }
  }

  /** After a client is accepted, a lookup finds it with nothing pending, and the others as they were. */
  lemma ConnectedLooksUp(st: State, fd: int, id: Id, x: Id)
    requires DistinctIds(st.clients) && !HasSocket(st, id)
    ensures var s := Connected(st, fd, id).state;
            && DistinctIds(s.clients) && Known(s, id) && (Known(s, x) <==> x == id || Known(st, x))
            && (x != id && Known(st, x) ==> ClientOf(s, x) == ClientOf(st, x))
            && ClientOf(s, id)
               == if Known(st, id) then ClientOf(st, id).(online := true, pending := []) else NewClient(id)
  {
    var s := Connected(st, fd, id).state;
    if Known(st, id) {
      var c := ClientOf(st, id).(online := true, pending := []);
      assert s.clients == WithClient(st, c).clients;
      WithClientLooksUp(st, c, x);
      WithClientLooksUp(st, c, id);
      SameClients(s, WithClient(st, c), x);
      SameClients(s, WithClient(st, c), id);
    } else {
      var t := st.(clients := [NewClient(id)] + st.clients);
      NewClientLooksUp(st, NewClient(id), x);
      NewClientLooksUp(st, NewClient(id), id);
      SameClients(s, t, x);
      SameClients(s, t, id);
    }
  }

  lemma SameClients(s: State, t: State, x: Id)
    requires s.clients == t.clients
    ensures Known(s, x) <==> Known(t, x)
    ensures Known(s, x) ==> ClientOf(s, x) == ClientOf(t, x)
  {
  }

  lemma DisconnectKeepsInvariant(st: State, fd: int)
    requires Invariant(st) && fd in st.sockets
    ensures Known(st, st.sockets[fd]) && Invariant(Disconnected(st, fd).state)
  {
    hide Known, ClientOf;
    InvariantById(st);
    var c := ClientOf(st, st.sockets[fd]);
    var s := Disconnected(st, fd).state;
    forall x: Id
      ensures DistinctIds(s.clients) && GoodId(s, x)
    {
      assert GoodId(st, x);
      WithClientLooksUp(st, c.(online := false), x);
      SameClients(s, WithClient(st, c.(online := false)), x);
      OneSocketLess(st, s, fd, x);
    }
    assert GoodId(s, c.id);
    InvariantById(s);
  }

  /** Changing the topics of one client. */
  lemma TopicsKeepInvariant(st: State, fd: int, topics: seq<Topic>)
    requires Invariant(st) && fd in st.sockets && DistinctNames(topics)
    ensures Known(st, st.sockets[fd]) && Invariant(WithClient(st, ClientOf(st, st.sockets[fd]).(topics := topics)))
  {
    hide Known, ClientOf;
    InvariantById(st);
    var c := ClientOf(st, st.sockets[fd]);
    var s := WithClient(st, c.(topics := topics));
    forall x: Id
      ensures DistinctIds(s.clients) && GoodId(s, x)
    {
      assert GoodId(st, x) && GoodId(st, c.id);
      WithClientLooksUp(st, c.(topics := topics), x);
    }
    assert GoodId(s, c.id);
    InvariantById(s);
  }

  lemma PublishedLooksUp(st: State, name: Name, message: Message, x: Id)
    requires DistinctIds(st.clients)
    ensures var s := st.(clients := AllKept(st.clients, name, message));
            && DistinctIds(s.clients) && (Known(s, x) <==> Known(st, x))
            && (Known(st, x) ==> ClientOf(s, x) == Kept(ClientOf(st, x), name, message))
  {
    var s := st.(clients := AllKept(st.clients, name, message));
    assert forall k | 0 <= k < |st.clients| :: s.clients[k].id == st.clients[k].id;
    var k := ClientAt(st.clients, x);
    if k < |st.clients| {
      ClientAtIs(s.clients, x, k);
    } else {
      assert forall j | 0 <= j < |s.clients| :: s.clients[j].id != x;
    }
  }

  lemma PublishKeepsInvariant(st: State, name: Name, message: Message)
    requires Invariant(st)
    ensures Invariant(Published(st, name, message).state)
  {
    hide Known, ClientOf;
    InvariantById(st);
    var s := Published(st, name, message).state;
    forall x: Id
      ensures DistinctIds(s.clients) && GoodId(s, x)
    {
      assert GoodId(st, x);
      PublishedLooksUp(st, name, message, x);
    }
    assert GoodId(s, []);
    InvariantById(s);
  }

  lemma SubscribeKeepsInvariant(st: State, fd: int, name: Name, sf: bool)
    requires Invariant(st) && fd in st.sockets
    ensures Known(st, st.sockets[fd]) && Invariant(WithSubscription(st, fd, name, sf).state)
  {
    var topics := ClientOf(st, st.sockets[fd]).topics;
    WithTopicRefinesMap(topics, name, sf);
    TopicsKeepInvariant(st, fd, WithTopic(topics, name, sf));
  }

  lemma UnsubscribeKeepsInvariant(st: State, fd: int, name: Name)
    requires Invariant(st) && fd in st.sockets
    ensures Known(st, st.sockets[fd]) && Invariant(WithoutSubscription(st, fd, name).state)
  {
    var topics := ClientOf(st, st.sockets[fd]).topics;
    WithoutTopicRefinesMap(topics, name);
    TopicsKeepInvariant(st, fd, WithoutTopic(topics, name));
  }

  /** Every step keeps the invariant. */
  lemma StepKeepsInvariant(st: State, e: Event)
    requires Invariant(st) && Enabled(st, e)
    ensures Invariant(Step(st, e).state)
  {
    match e
    case Connect(fd, id) => ConnectKeepsInvariant(st, fd, id);
    case Disconnect(fd) => DisconnectKeepsInvariant(st, fd);
    case Subscribe(fd, name, sf) => SubscribeKeepsInvariant(st, fd, name, sf);
    case Unsubscribe(fd, name) => UnsubscribeKeepsInvariant(st, fd, name);
    case Publish(name, message) => PublishKeepsInvariant(st, name, message);
  }

  // ----- runs -----

  /** The state after a run, if every event of it was possible when it came. */
  ghost function Run(listening: set<int>, events: seq<Event>): (r: Option<State>)
    ensures r.Some? ==> Invariant(r.value)
  {
    if events == [] then
      Some(State(map[], [], listening, listening))
    else
      var n := |events| - 1;
      match Run(listening, events[..n])
      case None => None
      case Some(st) =>
        if Enabled(st, events[n]) then
          StepKeepsInvariant(st, events[n]);
          Some(Step(st, events[n]).state)
        else
          None
  }

  /** What a step writes to the socket of `id`. */
  ghost function Received(o: Outcome, id: Id): seq<Message> {
    if exists fd :: fd in o.state.sockets && o.state.sockets[fd] == id && fd in o.writes then
      var fd :| fd in o.state.sockets && o.state.sockets[fd] == id && fd in o.writes;
      o.writes[fd]
    else
      []
  }

  /** Everything written to the sockets of `id` over a run, in order. */
  ghost function Sent(listening: set<int>, events: seq<Event>, id: Id): seq<Message>
    requires Run(listening, events).Some?
  {
    if events == [] then []
    else
      var n := |events| - 1;
      var st := Run(listening, events[..n]).value;
      Sent(listening, events[..n], id) + Received(Step(st, events[n]), id)
  }

  ghost function Pending(st: State, id: Id): seq<Message> {
    if Known(st, id) then ClientOf(st, id).pending else []
  }

  // ----- one subscriber alone -----

  /**
   A subscriber as one would wish it served, without regard to any other: where it is
   connected, what it is subscribed to, what it was sent, and what waits for it, in the
   order in which it came.
   */
  datatype Alone = Alone(socket: Option<int>, topics: map<Name, bool>, sent: seq<Message>, held: seq<Message>)

  function Reversed(s: seq<Message>): (r: seq<Message>)
    ensures |r| == |s|
  {
    if s == [] then [] else Reversed(s[1..]) + [s[0]]
  }

  function Served(a: Alone, e: Event, id: Id): Alone {
    match e
    case Connect(fd, id') =>
      if id' == id && a.socket.None? then
        a.(socket := Some(fd), sent := a.sent + Reversed(a.held), held := [])
      else
        a
    case Disconnect(fd) => if a.socket == Some(fd) then a.(socket := None) else a
    case Subscribe(fd, name, sf) => if a.socket == Some(fd) then a.(topics := a.topics[name := sf]) else a
    case Unsubscribe(fd, name) => if a.socket == Some(fd) then a.(topics := a.topics - {name}) else a
    case Publish(name, message) =>
      if name !in a.topics then a
      else if a.socket.Some? then a.(sent := a.sent + [message])
      else if a.topics[name] then a.(held := a.held + [message])
      else a
  }

  function Track(events: seq<Event>, id: Id): Alone {
    if events == [] then Alone(None, map[], [], [])
    else Served(Track(events[..|events| - 1], id), events[|events| - 1], id)
  }

  /** What an event makes due: a message on a topic of its own, if it is connected or has asked to have it kept. */
  function DueNow(a: Alone, e: Event): seq<Message> {
    if e.Publish? && e.name in a.topics && (a.socket.Some? || a.topics[e.name]) then [e.message] else []
  }

  /** The messages that were for `id` over a run. */
  function Due(events: seq<Event>, id: Id): seq<Message> {
    if events == [] then []
    else
      var before := events[..|events| - 1];
      Due(before, id) + DueNow(Track(before, id), events[|events| - 1])
  }

  /** The server serves `id` as if it were alone. */
  ghost predicate Agrees(st: State, sent: seq<Message>, a: Alone, id: Id) {
    && sent == a.sent && Pending(st, id) == Reversed(a.held)
    && (forall fd :: a.socket == Some(fd) <==> fd in st.sockets && st.sockets[fd] == id)
    && a.topics == (if Known(st, id) then Subscriptions(ClientOf(st, id).topics) else map[])
  }

  lemma ReceivedIs(o: Outcome, id: Id, fd: int)
    requires fd in o.state.sockets && o.state.sockets[fd] == id
    requires forall a | a in o.state.sockets && o.state.sockets[a] == id :: a == fd
    ensures Received(o, id) == if fd in o.writes then o.writes[fd] else []
  {
  }

  lemma NothingReceived(o: Outcome, id: Id)
    requires forall fd | fd in o.state.sockets && o.state.sockets[fd] == id :: fd !in o.writes
    ensures Received(o, id) == []
  {
  }

  lemma {:induction false} ReversedSnoc(s: seq<Message>, m: Message)
    ensures Reversed(s + [m]) == [m] + Reversed(s)
  {
    if s != [] {
      assert (s + [m])[1..] == s[1..] + [m];
      ReversedSnoc(s[1..], m);
    }
  }

  lemma SocketIs(st: State, sent: seq<Message>, a: Alone, id: Id)
    requires Agrees(st, sent, a, id)
    ensures a.socket.Some? <==> HasSocket(st, id)
  {
    if a.socket.Some? {
      var fd := a.socket.value;
      assert fd in st.sockets && st.sockets[fd] == id;
    }
    if HasSocket(st, id) {
      var fd :| fd in st.sockets && st.sockets[fd] == id;
      assert a.socket == Some(fd);
    }
  }

  lemma ConnectAgrees(st: State, sent: seq<Message>, a: Alone, id: Id, fd: int, x: Id)
    requires Invariant(st) && fd !in st.fds && Agrees(st, sent, a, id)
    ensures var o := Connected(st, fd, x); Agrees(o.state, sent + Received(o, id), Served(a, Connect(fd, x), id), id)
  {
    hide Received, Agrees, Pending;
    SocketIs(st, sent, a, id);
    if HasSocket(st, x) {
      RefusalAgrees(st, sent, a, id, fd, x);
    } else if x == id {
      AcceptanceAgrees(st, sent, a, id, fd);
    } else {
      OtherAcceptanceAgrees(st, sent, a, id, fd, x);
    }
  }

  lemma RefusalAgrees(st: State, sent: seq<Message>, a: Alone, id: Id, fd: int, x: Id)
    requires Invariant(st) && fd !in st.fds && Agrees(st, sent, a, id) && HasSocket(st, x)
    ensures var o := Connected(st, fd, x); Agrees(o.state, sent + Received(o, id), a, id)
  {
    hide Known, ClientOf, Received, GoodClient, Subscriptions;
    NothingReceived(Connected(st, fd, x), id);
  }

  lemma AcceptanceAgrees(st: State, sent: seq<Message>, a: Alone, id: Id, fd: int)
    requires Invariant(st) && fd !in st.fds && Agrees(st, sent, a, id) && !HasSocket(st, id) && a.socket.None?
    ensures var o := Connected(st, fd, id); Agrees(o.state, sent + Received(o, id), Served(a, Connect(fd, id), id), id)
  {
    hide Known, ClientOf, Received, GoodClient, Subscriptions;
    ConnectedLooksUp(st, fd, id, id);
    ReceivedIs(Connected(st, fd, id), id, fd);
    ConnectedWrites(st, fd, id);
    NoTopics();
  }

  lemma OtherAcceptanceAgrees(st: State, sent: seq<Message>, a: Alone, id: Id, fd: int, x: Id)
    requires Invariant(st) && fd !in st.fds && Agrees(st, sent, a, id) && !HasSocket(st, x) && x != id
    ensures var o := Connected(st, fd, x); Agrees(o.state, sent + Received(o, id), a, id)
  {
    hide Known, ClientOf, Received, GoodClient, Subscriptions;
    ConnectedLooksUp(st, fd, x, id);
    NothingReceived(Connected(st, fd, x), id);
  }

  lemma NoTopics()
    ensures Subscriptions([]) == map[]
  {
  }

  lemma ConnectedWrites(st: State, fd: int, id: Id)
    requires !HasSocket(st, id)
    ensures Connected(st, fd, id).writes == map[fd := Pending(st, id)]
  {
  }

  lemma DisconnectAgrees(st: State, sent: seq<Message>, a: Alone, id: Id, fd: int)
    requires Invariant(st) && fd in st.sockets && Agrees(st, sent, a, id)
    ensures var o := Disconnected(st, fd); Agrees(o.state, sent + Received(o, id), Served(a, Disconnect(fd), id), id)
  {
    hide Known, ClientOf, Received, GoodClient;
    var o := Disconnected(st, fd);
    NothingReceived(o, id);
    var c := ClientOf(st, st.sockets[fd]).(online := false);
    WithClientLooksUp(st, c, id);
    SameClients(o.state, WithClient(st, c), id);
  }

  /** Changing the topics of the client at `fd`. */
  lemma TopicsAgree(st: State, sent: seq<Message>, a: Alone, id: Id, fd: int, topics: seq<Topic>)
    requires Invariant(st) && fd in st.sockets && Agrees(st, sent, a, id)
    ensures var o := Outcome(WithClient(st, ClientOf(st, st.sockets[fd]).(topics := topics)), map[]);
            Agrees(o.state, sent + Received(o, id),
                   if a.socket == Some(fd) then a.(topics := Subscriptions(topics)) else a, id)
  {
    hide Known, ClientOf, Received, GoodClient;
    var c := ClientOf(st, st.sockets[fd]).(topics := topics);
    NothingReceived(Outcome(WithClient(st, c), map[]), id);
    WithClientLooksUp(st, c, id);
  }

  /** A connected subscriber has nothing pending; what the list of its topics says is what it is subscribed to. */
  lemma AgreedClient(st: State, sent: seq<Message>, a: Alone, id: Id, name: Name)
    requires Invariant(st) && Agrees(st, sent, a, id)
    ensures a.socket.Some? <==> Known(st, id) && ClientOf(st, id).online
    ensures name in a.topics <==> Known(st, id) && Subscribed(ClientOf(st, id).topics, name)
    ensures name in a.topics && a.topics[name] <==> Known(st, id) && SfActive(ClientOf(st, id).topics, name)
  {
    hide Known, ClientOf, Subscribed, Pending;
    InvariantById(st);
    assert GoodId(st, id);
    SocketIs(st, sent, a, id);
    if Known(st, id) {
      SubscriptionsLookUp(ClientOf(st, id).topics, name);
    }
  }

  lemma PublishAgrees(st: State, sent: seq<Message>, a: Alone, id: Id, name: Name, message: Message)
    requires Invariant(st) && Agrees(st, sent, a, id)
    ensures var o := Published(st, name, message);
            Agrees(o.state, sent + Received(o, id), Served(a, Publish(name, message), id), id)
  {
    hide Known, ClientOf, Received, GoodClient, Subscribed, SfActive, Subscriptions;
    var o := Published(st, name, message);
    AgreedClient(st, sent, a, id, name);
    PublishedLooksUp(st, name, message, id);
    SameClients(o.state, st.(clients := AllKept(st.clients, name, message)), id);
    ReversedSnoc(a.held, message);
    if a.socket.Some? {
      ReceivedIs(o, id, a.socket.value);
    } else {
      NothingReceived(o, id);
    }
  }

  lemma NamesAreDistinct(st: State, fd: int)
    requires Invariant(st) && fd in st.sockets
    ensures Known(st, st.sockets[fd]) && DistinctNames(ClientOf(st, st.sockets[fd]).topics)
  {
  }

  lemma SubscribeAgrees(st: State, sent: seq<Message>, a: Alone, id: Id, fd: int, name: Name, sf: bool)
    requires Invariant(st) && fd in st.sockets && Agrees(st, sent, a, id)
    ensures var o := WithSubscription(st, fd, name, sf);
            Agrees(o.state, sent + Received(o, id), Served(a, Subscribe(fd, name, sf), id), id)
  {
    hide Known, ClientOf, Received, WithTopic, Subscriptions, WithClient;
    NamesAreDistinct(st, fd);
    var c := ClientOf(st, st.sockets[fd]);
    WithTopicRefinesMap(c.topics, name, sf);
    TopicsAgree(st, sent, a, id, fd, WithTopic(c.topics, name, sf));
  }

  lemma UnsubscribeAgrees(st: State, sent: seq<Message>, a: Alone, id: Id, fd: int, name: Name)
    requires Invariant(st) && fd in st.sockets && Agrees(st, sent, a, id)
    ensures var o := WithoutSubscription(st, fd, name);
            Agrees(o.state, sent + Received(o, id), Served(a, Unsubscribe(fd, name), id), id)
  {
    hide Known, ClientOf, Received, WithoutTopic, Subscriptions, WithClient;
    NamesAreDistinct(st, fd);
    var c := ClientOf(st, st.sockets[fd]);
    WithoutTopicRefinesMap(c.topics, name);
    TopicsAgree(st, sent, a, id, fd, WithoutTopic(c.topics, name));
  }

  lemma StepAgrees(st: State, sent: seq<Message>, a: Alone, id: Id, e: Event)
    requires Invariant(st) && Enabled(st, e) && Agrees(st, sent, a, id)
    ensures Agrees(Step(st, e).state, sent + Received(Step(st, e), id), Served(a, e, id), id)
  {
    hide Known, ClientOf, Received, GoodClient, Agrees, Served;
    match e
    case Connect(fd, x) => ConnectAgrees(st, sent, a, id, fd, x);
    case Disconnect(fd) => DisconnectAgrees(st, sent, a, id, fd);
    case Subscribe(fd, name, sf) => SubscribeAgrees(st, sent, a, id, fd, name, sf);
    case Unsubscribe(fd, name) => UnsubscribeAgrees(st, sent, a, id, fd, name);
    case Publish(name, message) => PublishAgrees(st, sent, a, id, name, message);
  }

  /**
   In every run the server serves every id as if it were alone: the same messages in
   the same order, the rest waiting.
   */
  lemma {:induction false} ServedAsIfAlone(listening: set<int>, events: seq<Event>, id: Id)
    requires Run(listening, events).Some?
    ensures Agrees(Run(listening, events).value, Sent(listening, events, id), Track(events, id), id)
  {
    hide Agrees, Invariant, Step, Enabled, Received, Served;
    if events == [] {
      NothingYet(listening, id);
    } else {
      var n := |events| - 1;
      ServedAsIfAlone(listening, events[..n], id);
      var st := Run(listening, events[..n]).value;
      StepAgrees(st, Sent(listening, events[..n], id), Track(events[..n], id), id, events[n]);
    }
  }

  lemma NothingYet(listening: set<int>, id: Id)
    ensures Agrees(State(map[], [], listening, listening), [], Alone(None, map[], [], []), id)
  {
  }

  lemma {:induction false} ReversedKeepsMultiset(s: seq<Message>)
    ensures multiset(Reversed(s)) == multiset(s)
  {
    if s != [] {
      ReversedKeepsMultiset(s[1..]);
      assert s == [s[0]] + s[1..];
    }
  }

  lemma ServedConserves(a: Alone, e: Event, id: Id)
    ensures multiset(Served(a, e, id).sent) + multiset(Served(a, e, id).held)
         == multiset(a.sent) + multiset(a.held) + multiset(DueNow(a, e))
  {
    ReversedKeepsMultiset(a.held);
    hide Reversed;
  }

  /** A subscriber alone loses nothing and gets nothing twice. */
  lemma {:induction false} AloneConserves(events: seq<Event>, id: Id)
    ensures multiset(Track(events, id).sent) + multiset(Track(events, id).held) == multiset(Due(events, id))
  {
    hide Served, DueNow;
    if events != [] {
      var before := events[..|events| - 1];
      AloneConserves(before, id);
      ServedConserves(Track(before, id), events[|events| - 1], id);
    }
  }

  /**
   Exactly once, in every run and for every id: what was sent to it and what is pending for
   it are together the messages that were due to it.
   */
  lemma ExactlyOnce(listening: set<int>, events: seq<Event>, id: Id)
    requires Run(listening, events).Some?
    ensures multiset(Sent(listening, events, id)) + multiset(Pending(Run(listening, events).value, id))
         == multiset(Due(events, id))
  {
    hide Sent, Run, Due, Track, Pending, Known, ClientOf, Subscriptions, Reversed;
    ServedAsIfAlone(listening, events, id);
    AloneConserves(events, id);
    ReversedKeepsMultiset(Track(events, id).held);
  }

  /**
   A connection that is accepted gets everything that waited for it at once, newest
   first, and leaves nothing waiting.
   */
  lemma ReconnectFlushes(listening: set<int>, events: seq<Event>, fd: int, id: Id)
    requires Run(listening, events + [Connect(fd, id)]).Some? && Track(events, id).socket.None?
    ensures Run(listening, events).Some?
    ensures Sent(listening, events + [Connect(fd, id)], id)
         == Sent(listening, events, id) + Reversed(Track(events, id).held)
    ensures Pending(Run(listening, events + [Connect(fd, id)]).value, id) == []
  {
    var all := events + [Connect(fd, id)];
    assert all[..|all| - 1] == events;
    assert Run(listening, events).Some?;
    assert Track(all, id) == Served(Track(events, id), Connect(fd, id), id);
    hide Run, Track, Sent, Pending;
    ServedAsIfAlone(listening, events, id);
    ServedAsIfAlone(listening, all, id);
  }

  /** A message can be published at any time, a fresh socket can connect, and clients can command. */
  predicate Possible(sockets: map<int, Id>, listening: set<int>, e: Event) {
    match e
    case Publish(_, _) => true
    case Connect(fd, _) => fd !in sockets && fd !in listening
    case Disconnect(fd) => fd in sockets
    case Subscribe(fd, _, _) => fd in sockets
    case Unsubscribe(fd, _) => fd in sockets
  }

  lemma PossibleIff(st: State, e: Event)
    requires Invariant(st)
    ensures Enabled(st, e) <==> Possible(st.sockets, st.listening, e)
  {
    WatchedSockets(st);
    hide Invariant;
  }

  /** Which runs there are. */
  lemma RunsGoOn(listening: set<int>, events: seq<Event>, e: Event)
    ensures Run(listening, events + [e]).Some?
       <==> Run(listening, events).Some? && Possible(Run(listening, events).value.sockets, listening, e)
  {
    var all := events + [e];
    assert all[..|all| - 1] == events;
    if Run(listening, events).Some? {
      ListeningStays(listening, events);
      PossibleIff(Run(listening, events).value, e);
    }
    hide Step, Invariant, Enabled, Possible;
  }

  lemma WatchedSockets(st: State)
    requires Invariant(st)
    ensures st.fds == st.sockets.Keys + st.listening && st.sockets.Keys !! st.listening
  {
  }

  lemma StepKeepsListening(st: State, e: Event)
    requires Invariant(st) && Enabled(st, e)
    ensures Step(st, e).state.listening == st.listening
  {
    hide Invariant;
  }

  lemma {:induction false} ListeningStays(listening: set<int>, events: seq<Event>)
    requires Run(listening, events).Some?
    ensures Run(listening, events).value.listening == listening
  {
    hide Step, Invariant, Enabled;
    if events != [] {
      var before := events[..|events| - 1];
      ListeningStays(listening, before);
      StepKeepsListening(Run(listening, before).value, events[|events| - 1]);
    }
  }

  // ----- who is written to -----

  /** A connection under an id that is at some socket is told `exit` and changes nothing; any other gets its socket. */
  lemma ConnectionAnswered(st: State, fd: int, id: Id)
    requires Invariant(st) && Enabled(st, Connect(fd, id))
    ensures var o := Step(st, Connect(fd, id));
            if exists a :: a in st.sockets && st.sockets[a] == id then
              o.state == st && o.writes == map[fd := [Ascii("exit")]]
            else
              o.state.sockets == st.sockets[fd := id] && o.state.fds == st.fds + {fd} && o.writes.Keys == {fd}
  {
    hide Invariant;
    assert EXIT == Ascii("exit");
  }

  /** Apart from refusals only a publication writes, once to the socket of each client that is subscribed. */
  lemma OnlyClientsAreWrittenTo(st: State, e: Event, fd: int)
    requires Invariant(st) && Enabled(st, e) && fd in Step(st, e).writes && !e.Connect?
    ensures e.Publish? && fd in st.sockets && st.sockets[fd] == Step(st, e).state.sockets[fd]
    ensures Step(st, e).writes[fd] == [e.message] && e.name in Subscriptions(ClientOf(st, st.sockets[fd]).topics)
  {
    hide ClientOf, Known, Subscriptions, WithClient;
    if e.Publish? {
      SubscriptionsLookUp(ClientOf(st, st.sockets[fd]).topics, e.name);
    }
  }
}
