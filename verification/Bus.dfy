/**
 The message bus: rooms of subscribers, a queue of messages, any number of senders, and one worker
 that looks at the front of the queue, drops the lock to deliver, and pops it afterwards.
 */
module Bus {

  const BROADCAST := "::broadcast::"

  type Id = nat

  /** A component: its name, whether it still exists, and its callback for each room. */
  datatype Component = Component(name: string, alive: bool, callbacks: map<string, nat>)

  datatype Message = Message(room: string, text: string, from: string)

  /** One call of a callback. */
  datatype Call = Call(to: Id, room: string, callback: nat, text: string)

  type Rooms = map<string, seq<Id>>
  type Components = map<Id, Component>

  function Members(rooms: Rooms, room: string): seq<Id> {
    if room in rooms then rooms[room] else []
  }

  /** Whoever is in a room exists on record and has a callback for that room. */
  ghost predicate Registered(rooms: Rooms, comps: Components) {
    forall r :: r in rooms ==> AllRegistered(rooms[r], r, comps)
  }

  ghost predicate AllRegistered(members: seq<Id>, room: string, comps: Components) {
    forall i :: 0 <= i < |members| ==> members[i] in comps && room in comps[members[i]].callbacks
  }

  lemma MembersRegistered(rooms: Rooms, comps: Components, room: string)
    requires Registered(rooms, comps)
    ensures AllRegistered(Members(rooms, room), room, comps)
  {
  }

  predicate Hears(c: Component, from: string) {
    c.alive && c.name != from
  }

  /** The calls a message makes in one room, in the order of subscription. */
  function CallsTo(members: seq<Id>, comps: Components, room: string, text: string, from: string): seq<Call>
    requires AllRegistered(members, room, comps)
  {
    if members == [] then []
    else
      var c := members[|members| - 1];
      CallsTo(members[..|members| - 1], comps, room, text, from)
      + (if Hears(comps[c], from) then [Call(c, room, comps[c].callbacks[room], text)] else [])
  }

  /** The same in several rooms, one after the other. */
  function CallsInAll(order: seq<string>, rooms: Rooms, comps: Components, text: string, from: string): seq<Call>
    requires Registered(rooms, comps)
  {
    if order == [] then []
    else
      var r := order[|order| - 1];
      CallsInAll(order[..|order| - 1], rooms, comps, text, from) + CallsTo(Members(rooms, r), comps, r, text, from)
  }

  /** `order` goes once through every room; which way round is up to the hash table. */
  ghost predicate Enumerates(order: seq<string>, rooms: Rooms) {
    && (forall i :: 0 <= i < |order| ==> order[i] in rooms)
    && (forall r :: r in rooms ==> r in order)
    && Distinct(order)
  }

  ghost predicate Distinct(order: seq<string>) {
    forall i, j :: 0 <= i < j < |order| ==> order[i] != order[j]
  }

  function Deliveries(rooms: Rooms, comps: Components, m: Message, order: seq<string>): seq<Call>
    requires Registered(rooms, comps)
  {
    if m.room == BROADCAST then CallsInAll(order, rooms, comps, m.text, m.from)
    else CallsTo(Members(rooms, m.room), comps, m.room, m.text, m.from)
         + CallsTo(Members(rooms, BROADCAST), comps, BROADCAST, m.text, m.from)
  }

  // ---------------------------------------------------------------- who is called, and how often

  function Count(calls: seq<Call>, c: Id, room: string): nat {
    if calls == [] then 0
    else Count(calls[..|calls| - 1], c, room) + (if calls[|calls| - 1].to == c && calls[|calls| - 1].room == room then 1 else 0)
  }

  lemma {:induction false} CountConcat(a: seq<Call>, b: seq<Call>, c: Id, room: string)
    ensures Count(a + b, c, room) == Count(a, c, room) + Count(b, c, room)
  {
    if b == [] {
      assert a + b == a;
    } else {
      assert (a + b)[..|a + b| - 1] == a + b[..|b| - 1];
      CountConcat(a, b[..|b| - 1], c, room);
    }
  }

  /** Subscriptions of `c` in a room. */
  function Subscriptions(members: seq<Id>, c: Id): nat {
    multiset(members)[c]
  }

  lemma {:induction false} CallsToCount(members: seq<Id>, comps: Components, room: string, text: string, from: string,
                                        c: Id, r: string)
    requires AllRegistered(members, room, comps) && c in comps
    ensures Count(CallsTo(members, comps, room, text, from), c, r)
            == if r == room && Hears(comps[c], from) then Subscriptions(members, c) else 0
  {
    if members != [] {
      var before, last := members[..|members| - 1], members[|members| - 1];
      CallsToCount(before, comps, room, text, from, c, r);
      assert members == before + [last];
      var one := if Hears(comps[last], from) then [Call(last, room, comps[last].callbacks[room], text)] else [];
      CountConcat(CallsTo(before, comps, room, text, from), one, c, r);
      assert one != [] ==> one[..0] == [];
    }
  }

  lemma {:induction false} CallsInAllCount(order: seq<string>, rooms: Rooms, comps: Components, text: string, from: string,
                                           c: Id, r: string)
    requires Registered(rooms, comps) && c in comps && Distinct(order)
    ensures Count(CallsInAll(order, rooms, comps, text, from), c, r)
            == if r in order && Hears(comps[c], from) then Subscriptions(Members(rooms, r), c) else 0
  {
    hide CallsTo, Hears, Subscriptions, Members, Registered, Count, Distinct;
    if order != [] {
      var before, last := order[..|order| - 1], order[|order| - 1];
      DistinctLast(order, r);
      CallsInAllCount(before, rooms, comps, text, from, c, r);
      MembersRegistered(rooms, comps, last);
      CallsToCount(Members(rooms, last), comps, last, text, from, c, r);
      CountConcat(CallsInAll(before, rooms, comps, text, from), CallsTo(Members(rooms, last), comps, last, text, from), c, r);
    } else {
      assert Count([], c, r) == 0 by { NoCalls(c, r); }
    }
  }

  lemma NoCalls(c: Id, r: string)
    ensures Count([], c, r) == 0
  {
  }

  lemma DistinctLast(order: seq<string>, r: string)
    requires order != [] && Distinct(order)
    ensures var before, last := order[..|order| - 1], order[|order| - 1];
            Distinct(before) && last !in before && (r in order <==> r in before || r == last)
  {
    var before := order[..|order| - 1];
    assert order == before + [order[|order| - 1]];
  }

  /**
   Counting the calls of one message: a component hears it once per subscription, in the message's room and
   in the broadcast room, or in every room when the message is itself broadcast; in no other room, and not
   at all when it is gone or carries the sender's name.
   */
  lemma DeliveryCounts(rooms: Rooms, comps: Components, m: Message, order: seq<string>, c: Id, r: string)
    requires Registered(rooms, comps) && Enumerates(order, rooms) && c in comps
    ensures Count(Deliveries(rooms, comps, m, order), c, r)
            == if && comps[c].alive && comps[c].name != m.from
                  && (m.room == "::broadcast::" || r == m.room || r == "::broadcast::") && r in rooms
               then multiset(rooms[r])[c] else 0
  {
    hide CallsTo, CallsInAll;
    if m.room == BROADCAST {
      CallsInAllCount(order, rooms, comps, m.text, m.from, c, r);
    } else {
      CallsToCount(Members(rooms, m.room), comps, m.room, m.text, m.from, c, r);
      CallsToCount(Members(rooms, BROADCAST), comps, BROADCAST, m.text, m.from, c, r);
      CountConcat(CallsTo(Members(rooms, m.room), comps, m.room, m.text, m.from),
                  CallsTo(Members(rooms, BROADCAST), comps, BROADCAST, m.text, m.from), c, r);
    }
  }

  /** Places in a room's list, in turn, of the members that still exist and are not named like the sender. */
  function Listeners(members: seq<Id>, comps: Components, from: string): (r: seq<nat>)
    requires forall j :: 0 <= j < |members| ==> members[j] in comps
    ensures |r| <= |members|
  {
    if members == [] then []
    else
      var n := |members| - 1;
      Listeners(members[..n], comps, from) + if comps[members[n]].alive && comps[members[n]].name != from then [n] else []
  }

  lemma {:induction false} ListenersInTurn(members: seq<Id>, comps: Components, from: string, k: nat, l: nat)
    requires (forall j :: 0 <= j < |members| ==> members[j] in comps) && k < l < |Listeners(members, comps, from)|
    ensures Listeners(members, comps, from)[k] < Listeners(members, comps, from)[l]
  {
    var n := |members| - 1;
    var before := Listeners(members[..n], comps, from);
    if l < |before| {
      ListenersInTurn(members[..n], comps, from, k, l);
    } else {
      ListenerHears(members[..n], comps, from, k);
    }
  }

  lemma {:induction false} ListenerHears(members: seq<Id>, comps: Components, from: string, k: nat)
    requires (forall j :: 0 <= j < |members| ==> members[j] in comps) && k < |Listeners(members, comps, from)|
    ensures var i := Listeners(members, comps, from)[k];
            i < |members| && comps[members[i]].alive && comps[members[i]].name != from
  {
    var n := |members| - 1;
    if k < |Listeners(members[..n], comps, from)| { ListenerHears(members[..n], comps, from, k); }
  }

  lemma {:induction false} AllListen(members: seq<Id>, comps: Components, from: string, i: nat)
    requires forall j :: 0 <= j < |members| ==> members[j] in comps
    requires i < |members| && comps[members[i]].alive && comps[members[i]].name != from
    ensures i in Listeners(members, comps, from)
  {
    var n := |members| - 1;
    if i < n { AllListen(members[..n], comps, from, i); }
  }

  lemma {:induction false} OneCallEach(members: seq<Id>, comps: Components, room: string, text: string, from: string)
    requires AllRegistered(members, room, comps)
    ensures |CallsTo(members, comps, room, text, from)| == |Listeners(members, comps, from)|
  {
    if members != [] { OneCallEach(members[..|members| - 1], comps, room, text, from); }
  }

  lemma {:induction false} CallAt(members: seq<Id>, comps: Components, room: string, text: string, from: string, k: nat)
    requires AllRegistered(members, room, comps) && k < |Listeners(members, comps, from)|
    ensures |CallsTo(members, comps, room, text, from)| == |Listeners(members, comps, from)|
    ensures var i := Listeners(members, comps, from)[k];
            && i < |members|
            && CallsTo(members, comps, room, text, from)[k]
               == Call(members[i], room, comps[members[i]].callbacks[room], text)
  {
    var before := members[..|members| - 1];
    OneCallEach(members, comps, room, text, from);
    OneCallEach(before, comps, room, text, from);
    if k < |Listeners(before, comps, from)| { CallAt(before, comps, room, text, from, k); }
  }

  /** The rooms one message visits: its own and the broadcast room, or all of them. */
  function Visits(m: Message, order: seq<string>): seq<string> {
    if m.room == "::broadcast::" then order else [m.room, "::broadcast::"]
  }

  lemma DeliveriesVisit(rooms: Rooms, comps: Components, m: Message, order: seq<string>)
    requires Registered(rooms, comps)
    ensures Deliveries(rooms, comps, m, order) == CallsInAll(Visits(m, order), rooms, comps, m.text, m.from)
  {
    hide CallsTo, Members, Registered;
    if m.room != BROADCAST {
      var two := Visits(m, order);
      assert two[..1] == [m.room] && [m.room][..0] == [];
      MembersRegistered(rooms, comps, m.room);
      assert CallsInAll([m.room], rooms, comps, m.text, m.from)
          == CallsInAll([], rooms, comps, m.text, m.from) + CallsTo(Members(rooms, m.room), comps, m.room, m.text, m.from);
      assert CallsInAll([], rooms, comps, m.text, m.from) == [];
    }
  }

  /** A call by its place: the position of the room among those visited, and of the member in the room. */
  datatype Place = Place(visit: nat, member: nat)

  /** The place names a member that is there and is not named like the sender. */
  ghost predicate Calls(p: Place, visits: seq<string>, rooms: Rooms, comps: Components, from: string)
    requires Registered(rooms, comps)
  {
    && p.visit < |visits| && visits[p.visit] in rooms && p.member < |rooms[visits[p.visit]]|
    && comps[rooms[visits[p.visit]][p.member]].alive && comps[rooms[visits[p.visit]][p.member]].name != from
  }

  function Here(visit: nat, idx: seq<nat>): (r: seq<Place>)
    ensures |r| == |idx| && forall k :: 0 <= k < |r| ==> r[k] == Place(visit, idx[k])
  {
    seq(|idx|, k requires 0 <= k < |idx| => Place(visit, idx[k]))
  }

  /** All places called, room after room. */
  function Places(visits: seq<string>, rooms: Rooms, comps: Components, from: string): seq<Place>
    requires Registered(rooms, comps)
  {
    if visits == [] then []
    else
      var n := |visits| - 1;
      MembersRegistered(rooms, comps, visits[n]);
      Places(visits[..n], rooms, comps, from) + Here(n, Listeners(Members(rooms, visits[n]), comps, from))
  }

  lemma {:induction false} PlaceCalls(visits: seq<string>, rooms: Rooms, comps: Components, text: string, from: string, k: nat)
    requires Registered(rooms, comps) && k < |Places(visits, rooms, comps, from)|
    ensures |CallsInAll(visits, rooms, comps, text, from)| == |Places(visits, rooms, comps, from)|
    ensures var p := Places(visits, rooms, comps, from)[k];
            && Calls(p, visits, rooms, comps, from)
            && var c := rooms[visits[p.visit]][p.member];
               CallsInAll(visits, rooms, comps, text, from)[k]
               == Call(c, visits[p.visit], comps[c].callbacks[visits[p.visit]], text)
  {
    hide CallsTo, Listeners, Members;
    var n := |visits| - 1;
    var before := Places(visits[..n], rooms, comps, from);
    OneCallPerPlace(visits, rooms, comps, text, from);
    OneCallPerPlace(visits[..n], rooms, comps, text, from);
    if k < |before| {
      PlaceCalls(visits[..n], rooms, comps, text, from, k);
    } else {
      MembersRegistered(rooms, comps, visits[n]);
      LastRoomCalls(visits[n], rooms, comps, text, from, k - |before|);
    }
  }

  lemma LastRoomCalls(room: string, rooms: Rooms, comps: Components, text: string, from: string, k: nat)
    requires Registered(rooms, comps)
    requires AllRegistered(Members(rooms, room), room, comps) && k < |Listeners(Members(rooms, room), comps, from)|
    ensures var i := Listeners(Members(rooms, room), comps, from)[k];
            && room in rooms && i < |rooms[room]| && comps[rooms[room][i]].alive && comps[rooms[room][i]].name != from
            && |CallsTo(Members(rooms, room), comps, room, text, from)| == |Listeners(Members(rooms, room), comps, from)|
            && CallsTo(Members(rooms, room), comps, room, text, from)[k]
               == Call(rooms[room][i], room, comps[rooms[room][i]].callbacks[room], text)
  {
    hide CallsTo, Listeners;
    CallAt(Members(rooms, room), comps, room, text, from, k);
    ListenerHears(Members(rooms, room), comps, from, k);
  }

  lemma {:induction false} OneCallPerPlace(visits: seq<string>, rooms: Rooms, comps: Components, text: string, from: string)
    requires Registered(rooms, comps)
    ensures |CallsInAll(visits, rooms, comps, text, from)| == |Places(visits, rooms, comps, from)|
  {
    hide CallsTo, Listeners, Members;
    if visits != [] {
      var n := |visits| - 1;
      OneCallPerPlace(visits[..n], rooms, comps, text, from);
      MembersRegistered(rooms, comps, visits[n]);
      OneCallEach(Members(rooms, visits[n]), comps, visits[n], text, from);
    }
  }

  lemma {:induction false} PlacesInTurn(visits: seq<string>, rooms: Rooms, comps: Components, from: string, k: nat, l: nat)
    requires Registered(rooms, comps) && k < l < |Places(visits, rooms, comps, from)|
    ensures var p, q := Places(visits, rooms, comps, from)[k], Places(visits, rooms, comps, from)[l];
            p.visit < q.visit || (p.visit == q.visit && p.member < q.member)
  {
    hide Listeners, Members;
    var n := |visits| - 1;
    var before := Places(visits[..n], rooms, comps, from);
    MembersRegistered(rooms, comps, visits[n]);
    if l < |before| {
      PlacesInTurn(visits[..n], rooms, comps, from, k, l);
    } else if k < |before| {
      PlaceCalls(visits[..n], rooms, comps, "", from, k);
    } else {
      ListenersInTurn(Members(rooms, visits[n]), comps, from, k - |before|, l - |before|);
    }
  }

  lemma {:induction false} AllPlaced(visits: seq<string>, rooms: Rooms, comps: Components, from: string, p: Place)
    requires Registered(rooms, comps) && Calls(p, visits, rooms, comps, from)
    ensures p in Places(visits, rooms, comps, from)
  {
    hide Listeners;
    var n := |visits| - 1;
    if p.visit < n {
      AllPlaced(visits[..n], rooms, comps, from, p);
    } else {
      var members := Members(rooms, visits[n]);
      AllListen(members, comps, from, p.member);
      var idx := Listeners(members, comps, from);
      var k :| 0 <= k < |idx| && idx[k] == p.member;
      assert Here(n, idx)[k] == p;
    }
  }

  // ---------------------------------------------------------------- subscriptions

  /** The list without the first `c`. */
  function WithoutFirst(members: seq<Id>, c: Id): seq<Id> {
    if members == [] then []
    else if members[0] == c then members[1..]
    else [members[0]] + WithoutFirst(members[1..], c)
  }

  lemma {:induction false} SplitAtFirst(members: seq<Id>, c: Id, i: nat)
    requires i <= |members| && c !in members[..i] && (i < |members| ==> members[i] == c)
    ensures WithoutFirst(members, c) == if i < |members| then members[..i] + members[i + 1..] else members
  {
    if 0 < i {
      var rest := members[1..];
      assert members[..i] == [members[0]] + rest[..i - 1];
      SplitAtFirst(rest, c, i - 1);
      assert members == [members[0]] + rest;
      assert i < |members| ==> members[i + 1..] == rest[i..];
    }
  }

  /** Leaving takes one subscription away, if there is one, and none of anybody else. */
  lemma {:induction false} LeaveTakesOne(members: seq<Id>, c: Id)
    ensures multiset(WithoutFirst(members, c)) == multiset(members) - multiset{c}
  {
    if members != [] {
      assert members == [members[0]] + members[1..];
      if members[0] != c { LeaveTakesOne(members[1..], c); }
    }
  }

  /** Leaving undoes one joining: the subscriptions are as before, and so is their order when it was the only one. */
  lemma LeaveUndoesJoin(members: seq<Id>, c: Id)
    ensures multiset(WithoutFirst(members + [c], c)) == multiset(members)
    ensures c !in members ==> WithoutFirst(members + [c], c) == members
  {
    hide WithoutFirst;
    LeaveTakesOne(members + [c], c);
    if c !in members {
      var all := members + [c];
      assert all[..|members|] == members;
      SplitAtFirst(all, c, |members|);
      assert all[|members| + 1..] == [];
    }
  }

  // ---------------------------------------------------------------- senders and worker, interleaved

  /** The worker waits, delivers the message it saw in front without holding the lock, in one step, then pops. */
  datatype Worker = Waiting | Delivering(m: Message) | Popping(m: Message)

  /** The bus with its history: messages sent, delivered and popped, and every call made. */
  datatype State = State(
    rooms: Rooms, comps: Components, queue: seq<Message>, worker: Worker,
    sent: seq<Message>, delivered: seq<Message>, processed: seq<Message>, calls: seq<Call>)

  datatype Action =
    | Send(m: Message)
    | Look
    | Deliver(order: seq<string>)
    | Pop
    | Subscribe(room: string, c: Id, cb: nat)
    | Unsubscribe(room: string, c: Id)
    | Vanish(c: Id)

  function Initial(comps: Components): State {
    State(map[], comps, [], Waiting, [], [], [], [])
  }

  ghost predicate Enabled(s: State, a: Action) {
    match a
    case Send(_) => true
    case Look => s.worker.Waiting? && s.queue != []
    case Deliver(order) => s.worker.Delivering? && Registered(s.rooms, s.comps) && Enumerates(order, s.rooms)
    case Pop => s.worker.Popping? && s.queue != []
    case Subscribe(_, c, _) => c in s.comps
    case Unsubscribe(_, c) => c in s.comps
    case Vanish(c) => c in s.comps
  }

  function Subscribed(s: State, room: string, c: Id, cb: nat): State
    requires c in s.comps
  {
    var was := s.comps[c];
    if was.alive
    then s.(comps := s.comps[c := was.(callbacks := was.callbacks[room := cb])],
            rooms := s.rooms[room := Members(s.rooms, room) + [c]])
    else s
  }

  function Unsubscribed(s: State, room: string, c: Id): State
    requires c in s.comps
  {
    if s.comps[c].alive then s.(rooms := s.rooms[room := WithoutFirst(Members(s.rooms, room), c)]) else s
  }

  function Step(s: State, a: Action): State
    requires Enabled(s, a)
  {
    match a
    case Send(m) => s.(queue := s.queue + [m], sent := s.sent + [m])
    case Look => s.(worker := Delivering(s.queue[0]))
    case Deliver(order) =>
      s.(worker := Popping(s.worker.m), delivered := s.delivered + [s.worker.m],
         calls := s.calls + Deliveries(s.rooms, s.comps, s.worker.m, order))
    case Pop => s.(worker := Waiting, queue := s.queue[1..], processed := s.processed + [s.queue[0]])
    case Subscribe(room, c, cb) => Subscribed(s, room, c, cb)
    case Unsubscribe(room, c) => Unsubscribed(s, room, c)
    case Vanish(c) => s.(comps := s.comps[c := s.comps[c].(alive := false)])
  }

  class myBus {
    var rooms: Rooms
    var components: Components
    var queue_: seq<Message>

    ghost predicate Valid()
      reads this
    {
      Registered(rooms, components)
    }

    /** The bus as a state of the machine above, without its history. */
    ghost function Snapshot(): State
      reads this
    {
      State(rooms, components, queue_, Waiting, [], [], [], [])
    }

    constructor (comps: Components)
      ensures Valid() && components == comps && rooms == map[] && queue_ == []
    {
      rooms, components, queue_ := map[], comps, [];
    }

    method sendMsg(room: string, msg: string, componentName: string)
      modifies this`queue_
      ensures queue_ == old(queue_) + [Message(room, msg, componentName)]
      ensures Snapshot() == Step(old(Snapshot()), Send(Message(room, msg, componentName))).(sent := [])
    {
      queue_ := queue_ + [Message(room, msg, componentName)];
    }

    /** Sets the component's callback for the room and adds one subscription at the end of the room's list. */
    method subscribe(room: string, c: Id, cb: nat)
      requires Valid() && c in components
      modifies this`rooms, this`components
      ensures Valid() && components.Keys == old(components.Keys)
      ensures var was := old(components)[c];
              if was.alive
              then components == old(components)[c := was.(callbacks := was.callbacks[room := cb])]
                   && rooms == old(rooms)[room := Members(old(rooms), room) + [c]]
              else components == old(components) && rooms == old(rooms)
      ensures Snapshot() == Step(old(Snapshot()), Subscribe(room, c, cb))
    {
      if components[c].alive {
        components := components[c := components[c].(callbacks := components[c].callbacks[room := cb])];
        rooms := rooms[room := Members(rooms, room) + [c]];
      }
    }

    /** A broadcast subscription is a subscription to the broadcast room. */
    method subscribe_broadcast(c: Id, cb: nat)
      requires Valid() && c in components
      modifies this`rooms, this`components
      ensures Valid() && components.Keys == old(components.Keys)
      ensures var was := old(components)[c];
              if was.alive
              then components == old(components)[c := was.(callbacks := was.callbacks[BROADCAST := cb])]
                   && rooms == old(rooms)[BROADCAST := Members(old(rooms), BROADCAST) + [c]]
              else components == old(components) && rooms == old(rooms)
    {
      subscribe(BROADCAST, c, cb);
    }

    /** Removes the first subscription of the component in the room, if there is one; looking a room up creates it. */
    method unsubscribe(room: string, c: Id)
      requires Valid() && c in components
      modifies this`rooms
      ensures Valid()
      ensures rooms == if components[c].alive then old(rooms)[room := WithoutFirst(Members(old(rooms), room), c)] else old(rooms)
      ensures Snapshot() == Step(old(Snapshot()), Unsubscribe(room, c))
    {
      if components[c].alive {
        var members := Members(rooms, room);
        var i := 0;
        while i < |members| && members[i] != c
          invariant 0 <= i <= |members| && c !in members[..i]
        {
          i := i + 1;
        }
        SplitAtFirst(members, c, i);
        MembersRegistered(rooms, components, room);
        LeavingKeepsRegistered(members, room, components, c);
        UpdateKeepsRegistered(rooms, components, room, WithoutFirst(members, c));
        hide WithoutFirst, Registered, AllRegistered;
        rooms := rooms[room := if i < |members| then members[..i] + members[i + 1..] else members];
      }
    }

    /** Calls the components of one room, as often as they are subscribed, all but those named like the sender. */
    method SendOutMsgToRoomComponents(msg: string, room: string, from: string) returns (calls: seq<Call>)
      requires Valid()
      modifies this`rooms
      ensures Valid() && rooms == old(rooms)[room := Members(old(rooms), room)]
      ensures AllRegistered(Members(rooms, room), room, components)
      ensures calls == CallsTo(Members(rooms, room), components, room, msg, from)
    {
      rooms := rooms[room := Members(rooms, room)];
      var members := rooms[room];
      calls := [];
      var i := 0;
      assert members[..0] == [];
      while i < |members|
        invariant 0 <= i <= |members|
        invariant calls == CallsTo(members[..i], components, room, msg, from)
      {
        var c := members[i];
        assert members[..i + 1][..i] == members[..i];
        if components[c].alive && components[c].name != from {
          calls := calls + [Call(c, room, components[c].callbacks[room], msg)];
        }
        i := i + 1;
      }
      assert members[..|members|] == members;
    }

    /** Delivers one message; `order` is the order in which the hash table goes through the rooms. */
    method sendMsg_(m: Message, order: seq<string>) returns (calls: seq<Call>)
      requires Valid() && Enumerates(order, rooms)
      modifies this`rooms
      ensures Valid() && calls == Deliveries(old(rooms), components, m, order)
      ensures forall r :: Members(rooms, r) == Members(old(rooms), r)
    {
      hide CallsTo;
      if m.room == BROADCAST {
        calls := [];
        var i := 0;
        assert order[..0] == [];
        while i < |order|
          invariant 0 <= i <= |order| && Valid() && rooms == old(rooms)
          invariant calls == CallsInAll(order[..i], rooms, components, m.text, m.from)
        {
          assert order[..i + 1][..i] == order[..i];
          var more := SendOutMsgToRoomComponents(m.text, order[i], m.from);
          calls := calls + more;
          i := i + 1;
        }
        assert order[..|order|] == order;
      } else {
        calls := SendOutMsgToRoomComponents(m.text, m.room, m.from);
        var more := SendOutMsgToRoomComponents(m.text, BROADCAST, m.from);
        calls := calls + more;
      }
    }

    /** One round of the worker when nobody else runs: the front message is delivered, then popped. */
    method worker_(order: seq<string>) returns (calls: seq<Call>)
      requires Valid() && queue_ != [] && Enumerates(order, rooms)
      modifies this`rooms, this`queue_
      ensures Valid() && queue_ == old(queue_)[1..]
      ensures calls == Deliveries(old(rooms), components, old(queue_)[0], order)
    {
      var front := queue_[0];
      calls := sendMsg_(front, order);
      queue_ := queue_[1..];
    }
  }

  ghost predicate Inv(s: State) {
    && Registered(s.rooms, s.comps)
    && s.processed + s.queue == s.sent
    && (!s.worker.Waiting? ==> s.queue != [] && s.worker.m == s.queue[0])
    && s.delivered == if s.worker.Popping? then s.processed + [s.worker.m] else s.processed
  }

  lemma {:induction false} WithoutFirstSubset(members: seq<Id>, c: Id)
    ensures forall x :: x in WithoutFirst(members, c) ==> x in members
  {
    if members != [] && members[0] != c { WithoutFirstSubset(members[1..], c); }
  }

  lemma LeavingKeepsRegistered(members: seq<Id>, room: string, comps: Components, c: Id)
    requires AllRegistered(members, room, comps)
    ensures AllRegistered(WithoutFirst(members, c), room, comps)
  {
    WithoutFirstSubset(members, c);
    var rest := WithoutFirst(members, c);
    forall i | 0 <= i < |rest| ensures rest[i] in comps && room in comps[rest[i]].callbacks {
      assert rest[i] in members;
    }
  }

  lemma UpdateKeepsRegistered(rooms: Rooms, comps: Components, room: string, members: seq<Id>)
    requires Registered(rooms, comps) && AllRegistered(members, room, comps)
    ensures Registered(rooms[room := members], comps)
  {
    hide AllRegistered;
  }

  lemma SubscribeKeepsInv(s: State, room: string, c: Id, cb: nat)
    requires Inv(s) && c in s.comps
    ensures Inv(Subscribed(s, room, c, cb))
  {
    var t := Subscribed(s, room, c, cb);
    forall r | r in t.rooms ensures AllRegistered(t.rooms[r], r, t.comps) {
      MembersRegistered(s.rooms, s.comps, r);
      hide Registered;
    }
  }

  lemma UnsubscribeKeepsInv(s: State, room: string, c: Id)
    requires Inv(s) && c in s.comps
    ensures Inv(Unsubscribed(s, room, c))
  {
    MembersRegistered(s.rooms, s.comps, room);
    LeavingKeepsRegistered(Members(s.rooms, room), room, s.comps, c);
    hide WithoutFirst, AllRegistered;
  }

  lemma StepKeepsInv(s: State, a: Action)
    requires Inv(s) && Enabled(s, a)
    ensures Inv(Step(s, a))
  {
    hide Deliveries, Enumerates, Subscribed, Unsubscribed, Members;
    match a
    case Subscribe(room, c, cb) =>
      SubscribeKeepsInv(s, room, c, cb);
      hide Inv;
    case Unsubscribe(room, c) =>
      UnsubscribeKeepsInv(s, room, c);
      hide Inv;
    case Pop => assert s.queue == [s.queue[0]] + s.queue[1..];
    case _ =>
  }

  /** A run: states and the actions between them. */
  ghost predicate IsRun(run: seq<State>, acts: seq<Action>) {
    && |run| == |acts| + 1
    && forall i :: 0 <= i < |acts| ==> Enabled(run[i], acts[i]) && run[i + 1] == Step(run[i], acts[i])
  }

  lemma {:induction false} RunKeepsInv(run: seq<State>, acts: seq<Action>, i: nat)
    requires IsRun(run, acts) && i < |run| && Inv(run[0])
    ensures Inv(run[i])
  {
    hide Inv, Enabled, Step;
    if i > 0 {
      RunKeepsInv(run, acts, i - 1);
      assert Enabled(run[i - 1], acts[i - 1]) && run[i - 1 + 1] == Step(run[i - 1], acts[i - 1]);
      StepKeepsInv(run[i - 1], acts[i - 1]);
    }
  }

  /**
   First in, first out, exactly once: at every point of every interleaving, the messages popped followed by
   those still queued are the messages sent, those delivered are the first of them, each once, and the
   message being delivered is the next one.
   */
  lemma ExactlyOnceInOrder(comps: Components, run: seq<State>, acts: seq<Action>, i: nat)
    requires IsRun(run, acts) && i < |run| && run[0] == Initial(comps)
    ensures var s := run[i];
            && s.processed + s.queue == s.sent && s.processed <= s.delivered <= s.sent
            && (!s.worker.Waiting? ==> |s.processed| < |s.sent| && s.worker.m == s.sent[|s.processed|])
  {
    assert Inv(run[0]);
    RunKeepsInv(run, acts, i);
  }

  // ---------------------------------------------------------------- the calls of a whole run

  /** Calls component `c` is due in room `r` for message `m`, as subscriptions stand. */
  function Due(rooms: Rooms, comps: Components, m: Message, c: Id, r: string): nat
    requires c in comps
  {
    if && comps[c].alive && comps[c].name != m.from
       && (m.room == "::broadcast::" || r == m.room || r == "::broadcast::") && r in rooms
    then multiset(rooms[r])[c] else 0
  }

  /** Calls due in the first `i` steps of a run: those of every message delivered, as subscriptions stood when it was. */
  ghost function DueInAll(run: seq<State>, acts: seq<Action>, i: nat, c: Id, r: string): nat
    requires i <= |acts| < |run|
  {
    if i == 0 then 0
    else
      var s := run[i - 1];
      DueInAll(run, acts, i - 1, c, r)
      + (if acts[i - 1].Deliver? && s.worker.Delivering? && c in s.comps then Due(s.rooms, s.comps, s.worker.m, c, r) else 0)
  }

  lemma StepCalls(s: State, a: Action, c: Id, r: string)
    requires Inv(s) && Enabled(s, a) && c in s.comps
    ensures var t := Step(s, a);
            && c in t.comps
            && Count(t.calls, c, r) == Count(s.calls, c, r) + (if a.Deliver? then Due(s.rooms, s.comps, s.worker.m, c, r) else 0)
  {
    hide Deliveries, Count, WithoutFirst, Members, Hears, Subscriptions;
    if a.Deliver? {
      DeliveryCounts(s.rooms, s.comps, s.worker.m, a.order, c, r);
      CountConcat(s.calls, Deliveries(s.rooms, s.comps, s.worker.m, a.order), c, r);
    }
  }

  /**
   At every point of every interleaving, a component has been called in a room exactly as often as was due for the
   messages delivered so far, each by the subscriptions of the moment of its delivery.
   */
  lemma {:induction false} CallsAreThoseDue(comps: Components, run: seq<State>, acts: seq<Action>, i: nat, c: Id, r: string)
    requires IsRun(run, acts) && i < |run| && run[0] == Initial(comps) && c in comps
    ensures c in run[i].comps && Count(run[i].calls, c, r) == DueInAll(run, acts, i, c, r)
  {
    hide Count, Step, Due, Inv;
    if i == 0 {
      NoCalls(c, r);
    } else {
      var s := run[i - 1];
      CallsAreThoseDue(comps, run, acts, i - 1, c, r);
      assert Inv(run[0]) by { InitialInv(comps); }
      RunKeepsInv(run, acts, i - 1);
      assert Enabled(s, acts[i - 1]) && run[i - 1 + 1] == Step(s, acts[i - 1]);
      StepCalls(s, acts[i - 1], c, r);
    }
  }

  lemma InitialInv(comps: Components)
    ensures Inv(Initial(comps))
  {
  }

  /** Messages that a component of this name hears in a room: those to the room or to all, not its own. */
  function HeardIn(ms: seq<Message>, name: string, r: string): nat {
    if ms == [] then 0
    else
      var m := ms[|ms| - 1];
      HeardIn(ms[..|ms| - 1], name, r)
      + (if m.from != name && (m.room == "::broadcast::" || r == m.room || r == "::broadcast::") then 1 else 0)
  }

  /** The component exists and has one subscription in the room whenever a message is delivered. */
  ghost predicate SubscribedThroughout(run: seq<State>, acts: seq<Action>, i: nat, c: Id, name: string, r: string)
    requires i <= |acts| < |run|
  {
    forall k :: 0 <= k < i && acts[k].Deliver? ==>
      && c in run[k].comps && run[k].comps[c].alive && run[k].comps[c].name == name
      && r in run[k].rooms && multiset(run[k].rooms[r])[c] == 1
  }

  /** Such a component is called exactly once for every message delivered that it hears in the room. */
  lemma {:induction false} HearsEachOnce(comps: Components, run: seq<State>, acts: seq<Action>, i: nat, c: Id, name: string, r: string)
    requires IsRun(run, acts) && i < |run| && run[0] == Initial(comps) && c in comps
    requires SubscribedThroughout(run, acts, i, c, name, r)
    ensures Count(run[i].calls, c, r) == HeardIn(run[i].delivered, name, r)
  {
    hide Count, Subscriptions, Members;
    CallsAreThoseDue(comps, run, acts, i, c, r);
    DueIsHeard(comps, run, acts, i, c, name, r);
  }

  lemma {:induction false} DueIsHeard(comps: Components, run: seq<State>, acts: seq<Action>, i: nat, c: Id, name: string, r: string)
    requires IsRun(run, acts) && i < |run| && run[0] == Initial(comps)
    requires SubscribedThroughout(run, acts, i, c, name, r)
    ensures DueInAll(run, acts, i, c, r) == HeardIn(run[i].delivered, name, r)
  {
    hide Subscriptions, Members, Deliveries, Step, Enabled, HeardIn;
    if i == 0 {
      NothingHeard(name, r);
    } else {
      var s, a := run[i - 1], acts[i - 1];
      DueIsHeard(comps, run, acts, i - 1, c, name, r);
      assert Enabled(s, a) && run[i - 1 + 1] == Step(s, a);
      StepDelivers(s, a);
      if a.Deliver? { HeardNext(s.delivered, s.worker.m, name, r); }
    }
  }

  lemma NothingHeard(name: string, r: string)
    ensures HeardIn([], name, r) == 0
  {
  }

  lemma HeardNext(ms: seq<Message>, m: Message, name: string, r: string)
    ensures HeardIn(ms + [m], name, r)
            == HeardIn(ms, name, r) + (if m.from != name && (m.room == "::broadcast::" || r == m.room || r == "::broadcast::") then 1 else 0)
  {
    assert (ms + [m])[..|ms|] == ms;
  }

  lemma StepDelivers(s: State, a: Action)
    requires Enabled(s, a)
    ensures a.Deliver? ==> s.worker.Delivering?
    ensures Step(s, a).delivered == if a.Deliver? then s.delivered + [s.worker.m] else s.delivered
  {
    hide Deliveries, Members, WithoutFirst, Enumerates, Registered;
  }

  // ---------------------------------------------------------------- who is called back, told by the actions alone

  /** Subscription `j` of the component to the room is the last one before step `i`, and gave this callback. */
  ghost predicate LastGiven(acts: seq<Action>, j: nat, i: nat, room: string, c: Id, cb: nat) {
    && j < i <= |acts| && acts[j] == Subscribe(room, c, cb)
    && forall k :: j < k < i && acts[k].Subscribe? ==> acts[k].room != room || acts[k].c != c
  }

  lemma StepKeepsCallback(s: State, a: Action, room: string, c: Id)
    requires Enabled(s, a) && Inv(s) && !(a.Subscribe? && a.room == room && a.c == c)
    requires c in Step(s, a).comps && Step(s, a).comps[c].alive && c in Members(Step(s, a).rooms, room)
    ensures c in s.comps && s.comps[c].alive && c in Members(s.rooms, room) && room in s.comps[c].callbacks
    ensures room in Step(s, a).comps[c].callbacks && Step(s, a).comps[c].callbacks[room] == s.comps[c].callbacks[room]
  {
    hide Deliveries, Enumerates;
    if a.Unsubscribe? { WithoutFirstSubset(Members(s.rooms, a.room), a.c); }
    MembersRegistered(s.rooms, s.comps, room);
  }

  lemma StepSetsCallback(s: State, room: string, c: Id, cb: nat)
    requires Inv(s) && c in s.comps && Subscribed(s, room, c, cb).comps[c].alive
    ensures room in Subscribed(s, room, c, cb).comps[c].callbacks
    ensures Subscribed(s, room, c, cb).comps[c].callbacks[room] == cb
  {
  }

  /** Whoever is alive and in a room has there the callback of its last subscription to that room. */
  lemma {:induction false} CallbackIsLastGiven(comps: Components, run: seq<State>, acts: seq<Action>, i: nat, room: string, c: Id)
    returns (j: nat)
    requires IsRun(run, acts) && i < |run| && run[0] == Initial(comps)
    requires c in run[i].comps && run[i].comps[c].alive && c in Members(run[i].rooms, room)
    ensures room in run[i].comps[c].callbacks && LastGiven(acts, j, i, room, c, run[i].comps[c].callbacks[room])
  {
    hide Inv, Step, Enabled, Subscribed;
    InitialInv(comps);
    if i == 0 {
      assert false;
    } else {
      var s, a := run[i - 1], acts[i - 1];
      RunKeepsInv(run, acts, i - 1);
      assert Enabled(s, a) && run[i - 1 + 1] == Step(s, a);
      if a.Subscribe? && a.room == room && a.c == c {
        j := i - 1;
        SubscribeStep(s, a);
        StepSetsCallback(s, room, c, a.cb);
      } else {
        StepKeepsCallback(s, a, room, c);
        j := CallbackIsLastGiven(comps, run, acts, i - 1, room, c);
      }
    }
  }

  lemma SubscribeStep(s: State, a: Action)
    requires a.Subscribe? && Enabled(s, a)
    ensures a.c in s.comps && Step(s, a) == Subscribed(s, a.room, a.c, a.cb)
  {
    hide Subscribed;
  }

  /**
   What one delivery of a run calls. The rooms visited are the message's and the broadcast room, or all for a broadcast
   message; in each of them, in the order of subscription, every member that still exists and is not named like the
   sender is called once per subscription with the text sent, nobody else is, and the callback is the one given in that
   component's last subscription to that room.
   */
  lemma DeliveredInTurn(comps: Components, run: seq<State>, acts: seq<Action>, i: nat) returns (places: seq<Place>)
    requires IsRun(run, acts) && i < |acts| && run[0] == Initial(comps) && acts[i].Deliver?
    ensures Registered(run[i].rooms, run[i].comps) && run[i].worker.Delivering? && run[i].calls <= run[i + 1].calls
    ensures |places| == |run[i + 1].calls| - |run[i].calls|
    ensures var s, m := run[i], run[i].worker.m;
            var visits := if m.room == "::broadcast::" then acts[i].order else [m.room, "::broadcast::"];
            && (forall k :: 0 <= k < |places| ==>
                  && Calls(places[k], visits, s.rooms, s.comps, m.from)
                  && var call := run[i + 1].calls[|s.calls| + k];
                     && call.room == visits[places[k].visit] && call.to == s.rooms[call.room][places[k].member]
                     && call.text == m.text && exists j :: LastGiven(acts, j, i, call.room, call.to, call.callback))
            && (forall k, l :: 0 <= k < l < |places| ==>
                  places[k].visit < places[l].visit
                  || (places[k].visit == places[l].visit && places[k].member < places[l].member))
            && (forall p :: Calls(p, visits, s.rooms, s.comps, m.from) ==> p in places)
  {
    hide *;
    var visits := DeliverStep(comps, run, acts, i);
    var s, m := run[i], run[i].worker.m;
    places := Places(visits, s.rooms, s.comps, m.from);
    OneCallPerPlace(visits, s.rooms, s.comps, m.text, m.from);
    forall k | 0 <= k < |places| {
      PlaceGiven(comps, run, acts, i, visits, k);
    }
    forall k, l | 0 <= k < l < |places| {
      PlacesInTurn(visits, s.rooms, s.comps, m.from, k, l);
    }
    forall p | Calls(p, visits, s.rooms, s.comps, m.from) {
      AllPlaced(visits, s.rooms, s.comps, m.from, p);
    }
  }

  lemma DeliverStep(comps: Components, run: seq<State>, acts: seq<Action>, i: nat) returns (visits: seq<string>)
    requires IsRun(run, acts) && i < |acts| && run[0] == Initial(comps) && acts[i].Deliver?
    ensures i + 1 < |run| && Registered(run[i].rooms, run[i].comps) && run[i].worker.Delivering?
    ensures visits == if run[i].worker.m.room == "::broadcast::" then acts[i].order else [run[i].worker.m.room, "::broadcast::"]
    ensures run[i + 1].calls
            == run[i].calls + CallsInAll(visits, run[i].rooms, run[i].comps, run[i].worker.m.text, run[i].worker.m.from)
  {
    hide Deliveries, CallsInAll, Enumerates, Registered;
    assert Enabled(run[i], acts[i]) && run[i + 1] == Step(run[i], acts[i]);
    DeliveriesVisit(run[i].rooms, run[i].comps, run[i].worker.m, acts[i].order);
    visits := Visits(run[i].worker.m, acts[i].order);
  }

  lemma PlaceGiven(comps: Components, run: seq<State>, acts: seq<Action>, i: nat, visits: seq<string>, k: nat)
    requires IsRun(run, acts) && i < |acts| && i + 1 < |run| && run[0] == Initial(comps)
    requires Registered(run[i].rooms, run[i].comps) && run[i].worker.Delivering?
    requires k < |Places(visits, run[i].rooms, run[i].comps, run[i].worker.m.from)|
    requires run[i + 1].calls
             == run[i].calls + CallsInAll(visits, run[i].rooms, run[i].comps, run[i].worker.m.text, run[i].worker.m.from)
    ensures var s, m := run[i], run[i].worker.m;
            var p := Places(visits, s.rooms, s.comps, m.from)[k];
            && |CallsInAll(visits, s.rooms, s.comps, m.text, m.from)| == |Places(visits, s.rooms, s.comps, m.from)|
            && Calls(p, visits, s.rooms, s.comps, m.from)
            && var call := run[i + 1].calls[|s.calls| + k];
               && call.room == visits[p.visit] && call.to == s.rooms[call.room][p.member]
               && call.text == m.text && exists j :: LastGiven(acts, j, i, call.room, call.to, call.callback)
  {
    hide Places, CallsInAll, LastGiven, Initial, IsRun;
    var s, m := run[i], run[i].worker.m;
    PlaceCalls(visits, s.rooms, s.comps, m.text, m.from, k);
    var p := Places(visits, s.rooms, s.comps, m.from)[k];
    assert s.rooms[visits[p.visit]][p.member] in Members(s.rooms, visits[p.visit]);
    var j := CallbackIsLastGiven(comps, run, acts, i, visits[p.visit], s.rooms[visits[p.visit]][p.member]);
  }

  // ---------------------------------------------------------------- subscriptions, told by the actions alone

  /** A component exists until it vanishes. */
  lemma {:induction false} AliveIff(comps: Components, run: seq<State>, acts: seq<Action>, i: nat, c: Id)
    requires IsRun(run, acts) && i < |run| && run[0] == Initial(comps)
    ensures c in run[i].comps <==> c in comps
    ensures c in comps ==> run[i].comps[c].name == comps[c].name
    ensures c in comps ==> (run[i].comps[c].alive <==> comps[c].alive && Vanish(c) !in acts[..i])
  {
    hide Enumerates, Registered, Members, WithoutFirst, Deliveries;
    if i > 0 {
      AliveIff(comps, run, acts, i - 1, c);
      assert Enabled(run[i - 1], acts[i - 1]) && run[i - 1 + 1] == Step(run[i - 1], acts[i - 1]);
      assert acts[..i] == acts[..i - 1] + [acts[i - 1]];
    }
  }

  /** Subscriptions after the first steps: one more for each subscription, one less, if there is one, for each leaving. */
  function Joined(acts: seq<Action>, room: string, c: Id): nat {
    if acts == [] then 0
    else
      var before := Joined(acts[..|acts| - 1], room, c);
      var a := acts[|acts| - 1];
      if Vanish(c) in acts then before
      else if a.Subscribe? && a.room == room && a.c == c then before + 1
      else if a.Unsubscribe? && a.room == room && a.c == c && before > 0 then before - 1
      else before
  }

  lemma {:induction false} SubscriptionsAreJoined(comps: Components, run: seq<State>, acts: seq<Action>, i: nat, room: string, c: Id)
    requires IsRun(run, acts) && i < |run| && run[0] == Initial(comps) && c in comps && comps[c].alive
    ensures (if room in run[i].rooms then multiset(run[i].rooms[room])[c] else 0) == Joined(acts[..i], room, c)
  {
    hide Enabled, Step, Joined;
    if i == 0 {
      NothingJoined(room, c);
    } else {
      var s, a := run[i - 1], acts[i - 1];
      SubscriptionsAreJoined(comps, run, acts, i - 1, room, c);
      AliveIff(comps, run, acts, i - 1, c);
      assert Enabled(s, a) && run[i - 1 + 1] == Step(s, a);
      assert acts[..i] == acts[..i - 1] + [a];
      JoinedNext(acts[..i - 1], a, room, c);
      StepJoins(s, a, room, c);
    }
  }

  lemma NothingJoined(room: string, c: Id)
    ensures Joined([], room, c) == 0
  {
  }

  lemma JoinedNext(acts: seq<Action>, a: Action, room: string, c: Id)
    ensures var was := Joined(acts, room, c);
            Joined(acts + [a], room, c)
            == if Vanish(c) in acts then was
               else if a.Subscribe? && a.room == room && a.c == c then was + 1
               else if a.Unsubscribe? && a.room == room && a.c == c && was > 0 then was - 1
               else was
  {
    assert (acts + [a])[..|acts|] == acts;
  }

  lemma StepJoins(s: State, a: Action, room: string, c: Id)
    requires Enabled(s, a) && c in s.comps
    ensures var was := multiset(Members(s.rooms, room))[c];
            multiset(Members(Step(s, a).rooms, room))[c]
            == if !s.comps[c].alive then was
               else if a.Subscribe? && a.room == room && a.c == c then was + 1
               else if a.Unsubscribe? && a.room == room && a.c == c && was > 0 then was - 1
               else was
  {
    hide Deliveries, Enumerates, Registered, WithoutFirst, Members, Subscribed, Unsubscribed;
    match a
    case Subscribe(r, d, cb) => SubscribedJoins(s, r, d, cb, room, c);
    case Unsubscribe(r, d) => UnsubscribedLeaves(s, r, d, room, c);
    case _ =>
  }

  lemma SubscribedJoins(s: State, r: string, d: Id, cb: nat, room: string, c: Id)
    requires c in s.comps && d in s.comps
    ensures multiset(Members(Subscribed(s, r, d, cb).rooms, room))[c]
            == multiset(Members(s.rooms, room))[c] + if s.comps[d].alive && r == room && d == c then 1 else 0
  {
  }

  lemma UnsubscribedLeaves(s: State, r: string, d: Id, room: string, c: Id)
    requires c in s.comps && d in s.comps
    ensures var was := multiset(Members(s.rooms, room))[c];
            multiset(Members(Unsubscribed(s, r, d).rooms, room))[c]
            == was - if s.comps[d].alive && r == room && d == c && was > 0 then 1 else 0
  {
    hide WithoutFirst;
    LeaveTakesOne(Members(s.rooms, r), d);
  }
}
