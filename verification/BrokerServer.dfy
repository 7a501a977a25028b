/**
 The server as the program has it: clients with fields that change in place, a list of
 all clients, and a map from sockets to the clients that are online. Each event is a
 method, proved to do to the abstract state what the machine's step does.
 */
module BrokerServer {
  import opened CString
  import opened Broker

  class Client {
    const id: Id
    var online: bool
    var topics: seq<Topic>
    var pending: seq<Message>

    /** A new client; the lists that the program leaves unset are empty. */
    constructor (id: Id)
      ensures View() == NewClient(id)
    {
      this.id := id;
      online := true;
      topics := [];
      pending := [];
    }

    ghost function View(): Subscriber
      reads this
    {
      Subscriber(id, online, topics, pending)
    }

    /** `add_topic`. */
    method AddTopic(name: Name, sf: bool)
      modifies this`topics
      ensures View() == old(View()).(topics := WithTopic(old(topics), name, sf))
    {
      for i := 0 to |topics|
        invariant topics == old(topics)
        invariant forall j | 0 <= j < i :: topics[j].name != name
      {
        if topics[i].name == name {
          TopicAtIs(topics, name, i);
          topics := topics[i := topics[i].(sf := sf)];
          return;
        }
      }
      TopicAtIs(topics, name, |topics|);
      topics := [Topic(name, sf)] + topics;
    }

    /** `remove_topic`. */
    method RemoveTopic(name: Name)
      modifies this`topics
      ensures View() == old(View()).(topics := WithoutTopic(old(topics), name))
    {
      if topics == [] {
        return;
      }
      if topics[0].name == name {
        TopicAtIs(topics, name, 0);
        topics := topics[1..];
        return;
      }
      var i := 0;
      while i < |topics|
        invariant i <= |topics| && topics == old(topics)
        invariant forall j | 0 <= j < i :: topics[j].name != name
      {
        if topics[i].name == name {
          TopicAtIs(topics, name, i);
          topics := topics[..i] + topics[i + 1..];
          return;
        }
        i := i + 1;
      }
      TopicAtIs(topics, name, |topics|);
    }

    /** `check_subscription`. */
    method CheckSubscription(name: Name) returns (subscribed: bool)
      ensures subscribed <==> Subscribed(topics, name)
    {
      for i := 0 to |topics|
        invariant forall j | 0 <= j < i :: topics[j].name != name
      {
        if topics[i].name == name {
          TopicAtIs(topics, name, i);
          return true;
        }
      }
      TopicAtIs(topics, name, |topics|);
      return false;
    }

    /** `check_sf_active`. */
    method CheckSfActive(name: Name) returns (active: bool)
      ensures active <==> SfActive(topics, name)
    {
      for i := 0 to |topics|
        invariant forall j | 0 <= j < i :: topics[j].name != name
      {
        if topics[i].name == name {
          TopicAtIs(topics, name, i);
          return topics[i].sf;
        }
      }
      TopicAtIs(topics, name, |topics|);
      return false;
    }

    /** Everything pending is sent, in the order of the list, and the list is emptied. */
    method Flush() returns (sent: seq<Message>)
      modifies this`pending
      ensures sent == old(pending) && View() == old(View()).(pending := [])
    {
      sent := [];
      for i := 0 to |pending|
        invariant sent == pending[..i]
      {
        sent := sent + [pending[i]];
      }
      pending := [];
    }

    /** What the publisher's loop does to one client: a client that is away may keep the message. */
    method Keep(name: Name, message: Message)
      modifies this`pending
      ensures View() == Kept(old(View()), name, message)
    {
      if online == false {
        var active := CheckSfActive(name);
        if active {
          pending := [message] + pending;
        }
      }
    }
  }

  ghost function Views(clients: seq<Client>): (r: seq<Subscriber>)
    reads clients
    ensures |r| == |clients|
    ensures forall k | 0 <= k < |r| :: r[k] == clients[k].View()
  {
    if clients == [] then [] else [clients[0].View()] + Views(clients[1..])
  }

  /** Which id is at which socket. */
  ghost function Sockets(online: map<int, Client>): map<int, Id> {
    map fd | fd in online :: online[fd].id
  }

  lemma SocketAdded(online: map<int, Client>, fd: int, c: Client)
    ensures Sockets(online[fd := c]) == Sockets(online)[fd := c.id]
  {
  }

  lemma FirstClient(clients: seq<Subscriber>, id: Id, k: nat)
    requires k <= |clients| && (k < |clients| ==> clients[k].id == id)
    requires forall j | 0 <= j < k :: clients[j].id != id
    ensures ClientAt(clients, id) == k
  {
  }

  lemma SomeSocket(s: set<int>)
    requires s != {}
    ensures exists fd :: fd in s
  {
    if forall fd :: fd !in s {
      assert false;
    }
  }

  class Server {
    var onlineClients: map<int, Client>
    var allClients: seq<Client>
    var activeFds: set<int>
    const listening: set<int>

    constructor (listening: set<int>)
      ensures Valid() && View() == State(map[], [], listening, listening)
      ensures allClients == []
    {
      this.listening := listening;
      onlineClients := map[];
      allClients := [];
      activeFds := listening;
    }

    ghost function View(): State
      reads this, allClients
    {
      State(Sockets(onlineClients), Views(allClients), activeFds, listening)
    }

    /** The list holds each client once, and every client that is online. */
    ghost predicate Linked()
      reads this
    {
      && (forall i, j | 0 <= i < j < |allClients| :: allClients[i] != allClients[j])
      && (forall fd | fd in onlineClients :: onlineClients[fd] in allClients)
    }

    ghost predicate Valid()
      reads this, allClients
    {
      Linked() && Invariant(View())
    }

    /** `check_unique_id`. */
    method CheckUniqueId(id: Id) returns (unique: bool)
      ensures unique <==> !HasSocket(View(), id)
    {
      var todo := onlineClients.Keys;
      while todo != {}
        invariant todo <= onlineClients.Keys
        invariant forall fd | fd in onlineClients && fd !in todo :: onlineClients[fd].id != id
        decreases todo
      {
        SomeSocket(todo);
        var fd :| fd in todo;
        if onlineClients[fd].id == id {
          assert View().sockets[fd] == id;
          return false;
        }
        todo := todo - {fd};
      }
      return true;
    }

    /** The search that the next two methods make: the first client with that id, or the end of the list. */
    method Search(id: Id) returns (k: nat)
      ensures k == ClientAt(Views(allClients), id) && k <= |allClients|
    {
      k := 0;
      while k < |allClients| && allClients[k].id != id
        invariant k <= |allClients|
        invariant forall j | 0 <= j < k :: allClients[j].id != id
      {
        k := k + 1;
      }
      FirstClient(Views(allClients), id, k);
    }

    /** `get_client`. */
    method GetClient(id: Id) returns (c: Client?)
      ensures var k := ClientAt(Views(allClients), id); c == if k < |allClients| then allClients[k] else null
    {
      var k := Search(id);
      return if k < |allClients| then allClients[k] else null;
    }

    /** `add_client_to_clients`. */
    method AddClientToClients(id: Id, socket: int)
      requires Linked() && socket !in onlineClients
      modifies this`onlineClients, this`allClients, allClients
      ensures Linked() && forall c | c in allClients :: c in old(allClients) || fresh(c)
      ensures Sockets(onlineClients) == Sockets(old(onlineClients))[socket := id]
      ensures Views(allClients) == WithOnline(old(Views(allClients)), id)
    {
      hide ClientAt, Views, Sockets;
      ghost var was := Views(allClients);
      ghost var list := allClients;
      var k := Search(id);
      if k < |allClients| {
        var subscriber := allClients[k];
        subscriber.online := true;
        onlineClients := onlineClients[socket := subscriber];
        OneChanged(was, list, k);
        SocketAdded(old(onlineClients), socket, subscriber);
      } else {
        var newClient := new Client(id);
        onlineClients := onlineClients[socket := newClient];
        allClients := [newClient] + allClients;
        OneInFront(was, list, newClient);
        SocketAdded(old(onlineClients), socket, newClient);
      }
    }

    /** The client at a socket is the one that the abstract lookup finds. */
    lemma ClientAtSocket(fd: int)
      requires Valid() && fd in onlineClients
      ensures fd in View().sockets && View().sockets[fd] == onlineClients[fd].id
      ensures Known(View(), onlineClients[fd].id)
      ensures var k := ClientAt(Views(allClients), onlineClients[fd].id); allClients[k] == onlineClients[fd]
      ensures ClientOf(View(), onlineClients[fd].id) == onlineClients[fd].View()
    {
      var k :| 0 <= k < |allClients| && allClients[k] == onlineClients[fd];
      ClientAtIs(View().clients, onlineClients[fd].id, k);
    }

    /** A new connection with a free id: the client comes online and everything pending is sent. */
    method Accept(fd: int, id: Id) returns (writes: map<int, seq<Message>>)
      requires Linked() && fd !in onlineClients
      modifies this, allClients
      ensures Linked() && forall c | c in allClients :: c in old(allClients) || fresh(c)
      ensures activeFds == old(activeFds) + {fd} && Sockets(onlineClients) == Sockets(old(onlineClients))[fd := id]
      ensures var mid := WithOnline(old(Views(allClients)), id);
              var k := ClientAt(mid, id);
              && k < |mid| && Views(allClients) == mid[k := mid[k].(pending := [])]
              && writes == map[fd := mid[k].pending]
    {
      hide ClientAt, Views, Sockets, WithOnline;
      ghost var was := Views(allClients);
      activeFds := activeFds + {fd};
      AddClientToClients(id, fd);
      ghost var mid := Views(allClients);
      WithOnlineFinds(was, id);
      var newClient := GetClient(id);
      ghost var k := ClientAt(mid, id);
      assert newClient == allClients[k] && newClient in allClients;
      var sent := newClient.Flush();
      OneChanged(mid, allClients, k);
      return map[fd := sent];
    }

    /** A connection: refused if the id is online, otherwise accepted. */
    method Connect(fd: int, id: Id) returns (writes: map<int, seq<Message>>)
      requires Valid() && fd !in activeFds
      modifies this, allClients
      ensures Valid() && forall c | c in allClients :: c in old(allClients) || fresh(c)
      ensures Outcome(View(), writes) == Connected(old(View()), fd, id)
    {
      hide ClientAt, Views, Sockets, Invariant, WithOnline, HasSocket, Connected;
      ghost var was := View();
      ConnectKeepsInvariant(was, fd, id);
      NotYetOnline(fd);
      var unique := CheckUniqueId(id);
      if unique {
        AcceptedIs(was, fd, id);
        writes := Accept(fd, id);
      } else {
        RefusedIs(was, fd, id);
        writes := map[fd := [EXIT]];
      }
    }

    lemma NotYetOnline(fd: int)
      requires Valid() && fd !in activeFds
      ensures fd !in onlineClients
    {
      var st := View();
      assert fd in st.sockets ==> fd in st.fds;
    }

    /** The client at a closed socket goes offline and the socket is forgotten. */
    method Drop(fd: int, ghost k: nat)
      requires Linked() && fd in onlineClients && k < |allClients| && allClients[k] == onlineClients[fd]
      modifies this`onlineClients, this`activeFds, allClients
      ensures Linked() && activeFds == old(activeFds) - {fd}
      ensures Sockets(onlineClients) == Sockets(old(onlineClients)) - {fd}
      ensures Views(allClients) == old(Views(allClients))[k := old(Views(allClients))[k].(online := false)]
    {
      hide Views;
      ghost var was := Views(allClients);
      onlineClients[fd].online := false;
      onlineClients := onlineClients - {fd};
      activeFds := activeFds - {fd};
      OneChanged(was, allClients, k);
    }

    /** Where the client at a watched socket stands, and what changing it does to the abstract state. */
    lemma Command(fd: int) returns (k: nat)
      requires Valid() && fd in activeFds && fd !in listening
      ensures fd in onlineClients && k < |allClients| && allClients[k] == onlineClients[fd]
      ensures fd in View().sockets && Known(View(), View().sockets[fd])
      ensures ClientOf(View(), View().sockets[fd]) == Views(allClients)[k]
      ensures forall c: Subscriber | c.id == View().sockets[fd] ::
                WithClient(View(), c) == View().(clients := Views(allClients)[k := c])
    {
      ClientAtSocket(fd);
      k := ClientAt(Views(allClients), onlineClients[fd].id);
    }

    /** A closed connection. */
    method Disconnect(fd: int) returns (writes: map<int, seq<Message>>)
      requires Valid() && fd in activeFds && fd !in listening
      modifies this, allClients
      ensures Valid() && allClients == old(allClients)
      ensures fd in old(onlineClients) && Outcome(View(), writes) == Disconnected(old(View()), fd)
    {
      hide ClientAt, Views, Sockets, Invariant, Known, ClientOf, WithClient;
      ghost var was := View();
      ghost var k := Command(fd);
      DisconnectKeepsInvariant(was, fd);
      ghost var result := Disconnected(was, fd);
      assert result == Outcome(was.(clients := was.clients[k := was.clients[k].(online := false)],
                                    sockets := was.sockets - {fd}, fds := was.fds - {fd}), map[]);
      hide Disconnected;
      Drop(fd, k);
      return map[];
    }

    /** `add_topic` on the client at the socket. */
    method Subscribe(fd: int, name: Name, sf: bool) returns (writes: map<int, seq<Message>>)
      requires Valid() && fd in activeFds && fd !in listening
      modifies this, allClients
      ensures Valid() && allClients == old(allClients)
      ensures fd in old(onlineClients) && Outcome(View(), writes) == WithSubscription(old(View()), fd, name, sf)
    {
      hide ClientAt, Views, Sockets, Invariant, Known, ClientOf, WithClient, WithTopic;
      ghost var was := View();
      ghost var k := Command(fd);
      SubscribeKeepsInvariant(was, fd, name, sf);
      ghost var result := WithSubscription(was, fd, name, sf);
      ghost var topics := WithTopic(was.clients[k].topics, name, sf);
      assert result == Outcome(was.(clients := was.clients[k := was.clients[k].(topics := topics)]), map[]);
      hide WithSubscription;
      onlineClients[fd].AddTopic(name, sf);
      OneChanged(was.clients, allClients, k);
      return map[];
    }

    /** `remove_topic` on the client at the socket. */
    method Unsubscribe(fd: int, name: Name) returns (writes: map<int, seq<Message>>)
      requires Valid() && fd in activeFds && fd !in listening
      modifies this, allClients
      ensures Valid() && allClients == old(allClients)
      ensures fd in old(onlineClients) && Outcome(View(), writes) == WithoutSubscription(old(View()), fd, name)
    {
      hide ClientAt, Views, Sockets, Invariant, Known, ClientOf, WithClient, WithoutTopic;
      ghost var was := View();
      ghost var k := Command(fd);
      UnsubscribeKeepsInvariant(was, fd, name);
      ghost var result := WithoutSubscription(was, fd, name);
      ghost var topics := WithoutTopic(was.clients[k].topics, name);
      assert result == Outcome(was.(clients := was.clients[k := was.clients[k].(topics := topics)]), map[]);
      hide WithoutSubscription;
      onlineClients[fd].RemoveTopic(name);
      OneChanged(was.clients, allClients, k);
      return map[];
    }

    /** The first loop of a publication: whoever is online and subscribed gets the message. */
    method Broadcast(name: Name, message: Message) returns (writes: map<int, seq<Message>>)
      ensures forall fd :: fd in writes <==> fd in onlineClients && Subscribed(onlineClients[fd].topics, name)
      ensures forall fd | fd in writes :: writes[fd] == [message]
    {
      writes := map[];
      var todo := onlineClients.Keys;
      while todo != {}
        invariant todo <= onlineClients.Keys
        invariant forall fd ::
                    fd in writes <==> fd in onlineClients && fd !in todo && Subscribed(onlineClients[fd].topics, name)
        invariant forall fd | fd in writes :: writes[fd] == [message]
        decreases todo
      {
        SomeSocket(todo);
        var fd :| fd in todo;
        var subscribed := onlineClients[fd].CheckSubscription(name);
        if subscribed {
          writes := writes[fd := [message]];
        }
        todo := todo - {fd};
      }
    }

    lemma BroadcastIs(name: Name, message: Message, writes: map<int, seq<Message>>)
      requires Valid()
      requires forall fd :: fd in writes <==> fd in onlineClients && Subscribed(onlineClients[fd].topics, name)
      requires forall fd | fd in writes :: writes[fd] == [message]
      ensures writes == Published(View(), name, message).writes
    {
      var st := View();
      var expected := Published(st, name, message).writes;
      forall fd: int
        ensures fd in writes <==> fd in expected
        ensures fd in writes ==> writes[fd] == expected[fd]
      {
        assert fd in st.sockets <==> fd in onlineClients;
        if fd in onlineClients {
          ClientAtSocket(fd);
        }
      }
      hide *;
      SameMap(writes, expected);
    }

    /** The second loop: whoever is away and has asked for it keeps the message. */
    method KeepForLater(name: Name, message: Message)
      requires Linked()
      modifies allClients
      ensures Views(allClients) == AllKept(old(Views(allClients)), name, message)
    {
      hide Kept, Views;
      ghost var was := Views(allClients);
      for i := 0 to |allClients|
        invariant forall j | 0 <= j < i :: allClients[j].View() == Kept(was[j], name, message)
        invariant forall j | i <= j < |allClients| :: allClients[j].View() == was[j]
      {
        allClients[i].Keep(name, message);
      }
    }

    method Publish(name: Name, message: Message) returns (writes: map<int, seq<Message>>)
      requires Valid()
      modifies this, allClients
      ensures Valid() && allClients == old(allClients)
      ensures Outcome(View(), writes) == Published(old(View()), name, message)
    {
      ghost var was := View();
      PublishKeepsInvariant(was, name, message);
      writes := Broadcast(name, message);
      BroadcastIs(name, message, writes);
      hide *;
      KeepForLater(name, message);
    }

    /** One event of the loop. */
    method Perform(e: Event) returns (writes: map<int, seq<Message>>)
      requires Valid() && Enabled(View(), e)
      modifies this, allClients
      ensures Valid() && forall c | c in allClients :: c in old(allClients) || fresh(c)
      ensures Outcome(View(), writes) == Step(old(View()), e)
    {
      hide Invariant, Connected, Disconnected, WithSubscription, WithoutSubscription, Published;
      match e
      case Connect(fd, id) => writes := Connect(fd, id);
      case Disconnect(fd) => writes := Disconnect(fd);
      case Subscribe(fd, name, sf) => writes := Subscribe(fd, name, sf);
      case Unsubscribe(fd, name) => writes := Unsubscribe(fd, name);
      case Publish(name, message) => writes := Publish(name, message);
    }
  }

  lemma SameMap<K, V>(a: map<K, V>, b: map<K, V>)
    requires forall k :: k in a <==> k in b
    requires forall k | k in a :: a[k] == b[k]
    ensures a == b
  {
  }

  lemma WithOnlineFinds(clients: seq<Subscriber>, id: Id)
    ensures ClientAt(WithOnline(clients, id), id) < |WithOnline(clients, id)|
  {
    var k := ClientAt(clients, id);
    FirstClient(WithOnline(clients, id), id, if k < |clients| then k else 0);
  }

  lemma RefusedIs(was: State, fd: int, id: Id)
    requires HasSocket(was, id)
    ensures Connected(was, fd, id) == Outcome(was, map[fd := [EXIT]])
  {
  }

  /** Accepting a client is bringing it online and then emptying its list. */
  lemma AcceptedIs(was: State, fd: int, id: Id)
    requires !HasSocket(was, id)
    ensures var mid := WithOnline(was.clients, id);
            var k := ClientAt(mid, id);
            && k < |mid|
            && Connected(was, fd, id)
               == Outcome(was.(sockets := was.sockets[fd := id], fds := was.fds + {fd},
                               clients := mid[k := mid[k].(pending := [])]),
                          map[fd := mid[k].pending])
  {
    var mid := WithOnline(was.clients, id);
    var k := ClientAt(was.clients, id);
    FirstClient(mid, id, if k < |was.clients| then k else 0);
  }

  /** Where one client of the list has changed, so has one element of the abstract list. */
  lemma OneChanged(was: seq<Subscriber>, clients: seq<Client>, k: nat)
    requires k < |clients| == |was|
    requires forall j | 0 <= j < |clients| && j != k :: clients[j].View() == was[j]
    ensures Views(clients) == was[k := clients[k].View()]
  {
  }

  lemma OneInFront(was: seq<Subscriber>, clients: seq<Client>, c: Client)
    requires |clients| == |was| && forall j | 0 <= j < |clients| :: clients[j].View() == was[j]
    ensures Views([c] + clients) == [c.View()] + was
  {
  }

  /** A known client comes online, an unknown one is put in front. */
  function WithOnline(clients: seq<Subscriber>, id: Id): seq<Subscriber> {
    var k := ClientAt(clients, id);
    if k < |clients| then clients[k := clients[k].(online := true)] else [NewClient(id)] + clients
  }
}
