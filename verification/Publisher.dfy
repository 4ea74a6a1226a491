/** The pub/sub hub. Subscribe, cleanup and Shutdown hold the lock alone; notify holds it shared, so any
    number of notify calls run at once, each reaching the subscriptions one by one in an order of its own.
    A call is modelled as its begin, its single deliveries and its end, which other calls may come between. */
module Publisher {
  import opened Outcome
  import opened KvStore
  import opened Watch

  const BUFFER_SIZE := 100

  datatype Channel = Channel(open: bool, buffer: seq<Event>)

  /** A notify call under way, and the subscriptions it has still to look at. */
  datatype Flight = Flight(event: Event, todo: set<nat>)

  /** What one subscription has been through: its filter, the number of calls begun when it joined, the calls
      its channel accepted, how many of those its reader has taken, and the calls lost to a full buffer. */
  datatype Story = Story(filter: Filter, joined: nat, accepted: seq<nat>, taken: nat, dropped: set<nat>)

  // ---------------------------------------------------------------- one channel

  function EventsAt(calls: seq<Event>, tickets: seq<nat>): (ev: seq<Event>)
    requires forall i :: 0 <= i < |tickets| ==> tickets[i] < |calls|
  {
    seq(|tickets|, i requires 0 <= i < |tickets| => calls[tickets[i]])
  }

  /** The accepted calls began after the subscription and pass its filter, none twice, and never one after a
      call that began once it had ended. */
  ghost predicate Orderly(calls: seq<Event>, prior: seq<set<nat>>, st: Story) {
    && |prior| == |calls| && st.joined <= |calls| && st.taken <= |st.accepted|
    && (forall t :: t in st.dropped ==> t < |calls|)
    && (forall i :: 0 <= i < |st.accepted| ==>
          st.joined <= st.accepted[i] < |calls| && Passes(st.filter, calls[st.accepted[i]].name))
    && (forall i, j :: 0 <= i < j < |st.accepted| ==>
          st.accepted[i] != st.accepted[j] && st.accepted[j] !in prior[st.accepted[i]])
  }

  /** The buffer is bounded and holds what was accepted and not yet taken. */
  ghost predicate Told(calls: seq<Event>, prior: seq<set<nat>>, buffer: seq<Event>, st: Story) {
    && Orderly(calls, prior, st)
    && |buffer| <= BUFFER_SIZE
    && buffer == EventsAt(calls, st.accepted[st.taken..])
  }

  lemma BeginKeepsTold(calls: seq<Event>, prior: seq<set<nat>>, buffer: seq<Event>, st: Story, e: Event,
                       ended: set<nat>)
    requires Told(calls, prior, buffer, st)
    ensures Told(calls + [e], prior + [ended], buffer, st)
  {
    assert EventsAt(calls + [e], st.accepted[st.taken..]) == EventsAt(calls, st.accepted[st.taken..]);
  }

  /** A delivery of a call that has not ended goes to the back without breaking the order. */
  lemma AcceptKeepsTold(calls: seq<Event>, prior: seq<set<nat>>, buffer: seq<Event>, st: Story, t: nat)
    requires Told(calls, prior, buffer, st) && |buffer| < BUFFER_SIZE
    requires st.joined <= t < |calls| && Passes(st.filter, calls[t].name) && t !in st.accepted
    requires forall i :: 0 <= i < |prior| ==> t !in prior[i]
    ensures Told(calls, prior, buffer + [calls[t]], st.(accepted := st.accepted + [t]))
  {
    var accepted := st.accepted + [t];
    assert accepted[st.taken..] == st.accepted[st.taken..] + [t];
    assert EventsAt(calls, accepted[st.taken..]) == EventsAt(calls, st.accepted[st.taken..]) + [calls[t]];
  }

  lemma TakeKeepsTold(calls: seq<Event>, prior: seq<set<nat>>, buffer: seq<Event>, st: Story)
    requires Told(calls, prior, buffer, st) && buffer != []
    ensures Told(calls, prior, buffer[1..], st.(taken := st.taken + 1))
  {
    assert st.accepted[st.taken..][1..] == st.accepted[st.taken + 1..];
    assert EventsAt(calls, st.accepted[st.taken + 1..]) == EventsAt(calls, st.accepted[st.taken..])[1..];
  }

  /** No two calls overlapped. */
  ghost predicate OneAtATime(prior: seq<set<nat>>) {
    forall a: nat, b: nat :: a < b < |prior| ==> a in prior[b]
  }

  /** Then every channel holds its calls in the order they began; only overlapping calls can change places. */
  lemma OneAtATimeAscends(calls: seq<Event>, prior: seq<set<nat>>, st: Story, i: nat, j: nat)
    requires Orderly(calls, prior, st) && i < j < |st.accepted|
    ensures st.accepted[j] < st.accepted[i] ==> st.accepted[j] !in prior[st.accepted[i]]
    ensures OneAtATime(prior) ==> st.accepted[i] < st.accepted[j]
  {
  }

  // ---------------------------------------------------------------- the whole hub

  ghost predicate AllTold(calls: seq<Event>, prior: seq<set<nat>>, channels: map<nat, Channel>,
                          stories: map<nat, Story>) {
    && channels.Keys == stories.Keys
    && forall id {:trigger Told(calls, prior, channels[id].buffer, stories[id])} ::
         id in channels ==> Told(calls, prior, channels[id].buffer, stories[id])
  }

  /** A channel is open exactly while its id is subscribed, under its story's filter. */
  ghost predicate Wired(subscriptions: map<nat, Filter>, channels: map<nat, Channel>, stories: map<nat, Story>) {
    && (forall id :: id in subscriptions <==> id in channels && channels[id].open)
    && (forall id :: id in subscriptions && id in stories ==> subscriptions[id] == stories[id].filter)
  }

  /** Calls under way and ended calls are all there are; a call counts as earlier than another only if it had
      ended when that one began; and whom a call has still to look at is subscribed. */
  ghost predicate Tracked(subscriptions: map<nat, Filter>, flights: map<nat, Flight>, calls: seq<Event>,
                          ended: set<nat>, prior: seq<set<nat>>) {
    && |prior| == |calls|
    && (forall i :: 0 <= i < |prior| ==> prior[i] <= ended)
    && (forall t :: t in ended ==> t < |calls| && t !in flights)
    && (forall t: nat :: t < |calls| ==> t in ended || t in flights)
    && (forall t :: t in flights ==>
          t < |calls| && flights[t].event == calls[t] && flights[t].todo <= subscriptions.Keys)
  }

  /** A matching call reaches a subscription once: it is still on its way to it, or was accepted, or was lost
      to a full buffer. */
  ghost predicate Reached(flights: map<nat, Flight>, calls: seq<Event>, id: nat, st: Story) {
    && (forall t :: t in flights && id in flights[t].todo ==> st.joined <= t && t !in st.accepted && t !in st.dropped)
    && (forall t: nat :: st.joined <= t < |calls| && Passes(st.filter, calls[t].name) ==>
          t in st.accepted || t in st.dropped || (t in flights && id in flights[t].todo))
  }

  ghost predicate AllReached(subscriptions: map<nat, Filter>, flights: map<nat, Flight>, calls: seq<Event>,
                             stories: map<nat, Story>) {
    forall id {:trigger Reached(flights, calls, id, stories[id])} ::
      id in subscriptions && id in stories ==> Reached(flights, calls, id, stories[id])
  }

  // ---------------------------------------------------------------- one more delivery

  /** The channel after a call has looked at it. */
  function Offered(f: Filter, c: Channel, e: Event): (c': Channel)
    ensures c'.open == c.open
  {
    if Passes(f, e.name) && |c.buffer| < BUFFER_SIZE then c.(buffer := c.buffer + [e]) else c
  }

  function Retold(c: Channel, st: Story, t: nat, e: Event): (st': Story) {
    if !Passes(st.filter, e.name) then st
    else if |c.buffer| < BUFFER_SIZE then st.(accepted := st.accepted + [t])
    else st.(dropped := st.dropped + {t})
  }

  lemma DeliverKeepsTold(calls: seq<Event>, prior: seq<set<nat>>, channels: map<nat, Channel>, stories: map<nat, Story>,
                         id: nat, t: nat)
    requires AllTold(calls, prior, channels, stories) && id in channels && t < |calls|
    requires stories[id].joined <= t && t !in stories[id].accepted && forall i :: 0 <= i < |prior| ==> t !in prior[i]
    ensures AllTold(calls, prior, channels[id := Offered(stories[id].filter, channels[id], calls[t])],
                    stories[id := Retold(channels[id], stories[id], t, calls[t])])
  {
    var c, st := channels[id], stories[id];
    var channels' := channels[id := Offered(st.filter, c, calls[t])];
    var stories' := stories[id := Retold(c, st, t, calls[t])];
    assert Told(calls, prior, c.buffer, st);
    if Passes(st.filter, calls[t].name) && |c.buffer| < BUFFER_SIZE {
      AcceptKeepsTold(calls, prior, c.buffer, st, t);
    }
    forall x | x in channels'
      ensures Told(calls, prior, channels'[x].buffer, stories'[x])
    {
      assert x != id ==> Told(calls, prior, channels[x].buffer, stories[x]);
    }
  }

  lemma DeliverKeepsReached(subscriptions: map<nat, Filter>, flights: map<nat, Flight>, calls: seq<Event>,
                            stories: map<nat, Story>, channels: map<nat, Channel>, id: nat, t: nat)
    requires AllReached(subscriptions, flights, calls, stories) && id in stories && id in channels &&
             id in subscriptions
    requires t in flights && t < |calls| && id in flights[t].todo
    ensures AllReached(subscriptions, flights[t := flights[t].(todo := flights[t].todo - {id})], calls,
                       stories[id := Retold(channels[id], stories[id], t, calls[t])])
  {
    var flights' := flights[t := flights[t].(todo := flights[t].todo - {id})];
    var stories' := stories[id := Retold(channels[id], stories[id], t, calls[t])];
    forall x | x in subscriptions && x in stories'
      ensures Reached(flights', calls, x, stories'[x])
    {
      assert Reached(flights, calls, x, stories[x]);
    }
  }

  lemma BeginKeepsReached(subscriptions: map<nat, Filter>, flights: map<nat, Flight>, calls: seq<Event>,
                          stories: map<nat, Story>, e: Event)
    requires AllReached(subscriptions, flights, calls, stories) && |calls| !in flights
    requires forall id :: id in stories ==>
      stories[id].joined <= |calls| && |calls| !in stories[id].accepted && |calls| !in stories[id].dropped
    ensures AllReached(subscriptions, flights[|calls| := Flight(e, subscriptions.Keys)], calls + [e], stories)
  {
    var flights' := flights[|calls| := Flight(e, subscriptions.Keys)];
    forall id | id in subscriptions && id in stories
      ensures Reached(flights', calls + [e], id, stories[id])
    {
      assert Reached(flights, calls, id, stories[id]);
    }
  }

  lemma EndKeepsReached(subscriptions: map<nat, Filter>, flights: map<nat, Flight>, calls: seq<Event>,
                        stories: map<nat, Story>, t: nat)
    requires AllReached(subscriptions, flights, calls, stories) && t in flights && flights[t].todo == {}
    ensures AllReached(subscriptions, flights - {t}, calls, stories)
  {
    forall id | id in subscriptions && id in stories
      ensures Reached(flights - {t}, calls, id, stories[id])
    {
      assert Reached(flights, calls, id, stories[id]);
    }
  }

  lemma CloseKeepsTold(calls: seq<Event>, prior: seq<set<nat>>, channels: map<nat, Channel>, stories: map<nat, Story>,
                       id: nat)
    requires AllTold(calls, prior, channels, stories) && id in channels
    ensures AllTold(calls, prior, channels[id := channels[id].(open := false)], stories)
  {
    var channels' := channels[id := channels[id].(open := false)];
    forall x | x in channels'
      ensures Told(calls, prior, channels'[x].buffer, stories[x])
    {
      assert Told(calls, prior, channels[x].buffer, stories[x]);
    }
  }

  lemma JoinKeepsTold(calls: seq<Event>, prior: seq<set<nat>>, channels: map<nat, Channel>, stories: map<nat, Story>,
                      id: nat, f: Filter)
    requires AllTold(calls, prior, channels, stories) && id !in channels && |prior| == |calls|
    ensures AllTold(calls, prior, channels[id := Channel(true, [])], stories[id := Story(f, |calls|, [], 0, {})])
  {
    var channels', stories' := channels[id := Channel(true, [])], stories[id := Story(f, |calls|, [], 0, {})];
    forall x | x in channels'
      ensures Told(calls, prior, channels'[x].buffer, stories'[x])
    {
      assert x != id ==> Told(calls, prior, channels[x].buffer, stories[x]);
    }
  }

  lemma BeginKeepsAllTold(calls: seq<Event>, prior: seq<set<nat>>, channels: map<nat, Channel>,
                          stories: map<nat, Story>, e: Event, ended: set<nat>)
    requires AllTold(calls, prior, channels, stories)
    ensures AllTold(calls + [e], prior + [ended], channels, stories)
  {
    forall x | x in channels
      ensures Told(calls + [e], prior + [ended], channels[x].buffer, stories[x])
    {
      BeginKeepsTold(calls, prior, channels[x].buffer, stories[x], e, ended);
    }
  }

  lemma TakeKeepsAllTold(calls: seq<Event>, prior: seq<set<nat>>, channels: map<nat, Channel>,
                         stories: map<nat, Story>, id: nat)
    requires AllTold(calls, prior, channels, stories) && id in channels && channels[id].buffer != []
    ensures var c, st := channels[id], stories[id];
            AllTold(calls, prior, channels[id := c.(buffer := c.buffer[1..])],
                    stories[id := st.(taken := st.taken + 1)])
  {
    var c, st := channels[id], stories[id];
    TakeKeepsTold(calls, prior, c.buffer, st);
    var channels', stories' := channels[id := c.(buffer := c.buffer[1..])], stories[id := st.(taken := st.taken + 1)];
    forall x | x in channels'
      ensures Told(calls, prior, channels'[x].buffer, stories'[x])
    {
      assert x != id ==> Told(calls, prior, channels[x].buffer, stories[x]);
    }
  }

  lemma TakeKeepsReached(subscriptions: map<nat, Filter>, flights: map<nat, Flight>, calls: seq<Event>,
                         stories: map<nat, Story>, id: nat)
    requires AllReached(subscriptions, flights, calls, stories) && id in stories
    ensures AllReached(subscriptions, flights, calls, stories[id := stories[id].(taken := stories[id].taken + 1)])
  {
    var stories' := stories[id := stories[id].(taken := stories[id].taken + 1)];
    forall x | x in subscriptions && x in stories'
      ensures Reached(flights, calls, x, stories'[x])
    {
      assert Reached(flights, calls, x, stories[x]);
    }
  }

  lemma JoinKeepsReached(subscriptions: map<nat, Filter>, calls: seq<Event>, stories: map<nat, Story>, id: nat,
                         f: Filter)
    requires AllReached(subscriptions, map[], calls, stories) && id !in subscriptions
    ensures AllReached(subscriptions[id := f], map[], calls, stories[id := Story(f, |calls|, [], 0, {})])
  {
    var stories' := stories[id := Story(f, |calls|, [], 0, {})];
    forall x | x in subscriptions[id := f] && x in stories'
      ensures Reached(map[], calls, x, stories'[x])
    {
      assert x != id ==> Reached(map[], calls, x, stories[x]);
    }
  }

  lemma JoinKeepsWired(subscriptions: map<nat, Filter>, channels: map<nat, Channel>, stories: map<nat, Story>, id: nat,
                       f: Filter, n: nat)
    requires Wired(subscriptions, channels, stories)
    ensures Wired(subscriptions[id := f], channels[id := Channel(true, [])], stories[id := Story(f, n, [], 0, {})])
  {
  }

  lemma DeliverKeepsWired(subscriptions: map<nat, Filter>, channels: map<nat, Channel>, stories: map<nat, Story>,
                          id: nat, c: Channel, st: Story)
    requires Wired(subscriptions, channels, stories) && id in channels && id in stories
    requires c.open == channels[id].open && st.filter == stories[id].filter
    ensures Wired(subscriptions, channels[id := c], stories[id := st])
  {
  }

  lemma DeliverKeepsTracked(subscriptions: map<nat, Filter>, flights: map<nat, Flight>, calls: seq<Event>,
                            ended: set<nat>, prior: seq<set<nat>>, t: nat, id: nat)
    requires Tracked(subscriptions, flights, calls, ended, prior) && t in flights
    ensures Tracked(subscriptions, flights[t := flights[t].(todo := flights[t].todo - {id})], calls, ended, prior)
  {
  }

  /** The channels once a call has looked at all subscriptions but some. */
  ghost predicate Spread(before: map<nat, Channel>, now: map<nat, Channel>, subscriptions: map<nat, Filter>,
                         todo: set<nat>, e: Event) {
    && now.Keys == before.Keys
    && forall id :: id in now ==>
         now[id] == if id in subscriptions && id !in todo then Offered(subscriptions[id], before[id], e) else before[id]
  }

  lemma SpreadStep(before: map<nat, Channel>, now: map<nat, Channel>, subscriptions: map<nat, Filter>, todo: set<nat>,
                   e: Event, id: nat)
    requires Spread(before, now, subscriptions, todo, e) && id in todo && id in subscriptions && id in now
    ensures Spread(before, now[id := Offered(subscriptions[id], now[id], e)], subscriptions, todo - {id}, e)
  {
  }

  class Hub {
    var subscriptions: map<nat, Filter>
    var channels: map<nat, Channel>
    var flights: map<nat, Flight>
    var nextID: nat
    var cleaned: set<nat>
    var nextCall: nat
    ghost var calls: seq<Event>
    ghost var ended: set<nat>
    ghost var prior: seq<set<nat>>
    ghost var stories: map<nat, Story>

    ghost predicate Valid()
      reads this
    {
      && nextCall == |calls|
      && (forall id :: id in channels ==> 1 <= id <= nextID)
      && Wired(subscriptions, channels, stories)
      && AllTold(calls, prior, channels, stories)
      && Tracked(subscriptions, flights, calls, ended, prior)
      && AllReached(subscriptions, flights, calls, stories)
    }

    constructor ()
      ensures Valid() && subscriptions == map[] && channels == map[] && flights == map[] && calls == []
    {
      subscriptions, channels, flights, nextID, cleaned, nextCall := map[], map[], map[], 0, {}, 0;
      calls, ended, prior, stories := [], {}, [], map[];
    }

    // ------------------------------------------------------------ with the lock alone

    /** The lock is granted once no notify call is under way. */
    method Subscribe(f: Filter) returns (id: nat)
      requires Valid() && flights == map[]
      modifies this
      ensures Valid() && flights == map[] && calls == old(calls)
      ensures id !in old(channels) && subscriptions == old(subscriptions)[id := f]
      ensures channels == old(channels)[id := Channel(true, [])]
      ensures stories == old(stories)[id := Story(f, |calls|, [], 0, {})]
    {
      id := nextID + 1;
      JoinKeepsTold(calls, prior, channels, stories, id, f);
      JoinKeepsReached(subscriptions, calls, stories, id, f);
      JoinKeepsWired(subscriptions, channels, stories, id, f, |calls|);
      nextID := id;
      subscriptions := subscriptions[id := f];
      channels := channels[id := Channel(true, [])];
      stories := stories[id := Story(f, |calls|, [], 0, {})];
    }

    /** close(ch), then delete from the map. Go panics on a second close: the channel is open. */
    method Close(id: nat)
      requires Valid() && flights == map[] && id in subscriptions
      modifies this`channels, this`subscriptions
      ensures Valid()
      ensures old(channels)[id].open
      ensures channels == old(channels)[id := old(channels)[id].(open := false)]
      ensures subscriptions == old(subscriptions) - {id}
    {
      CloseKeepsTold(calls, prior, channels, stories, id);
      channels := channels[id := channels[id].(open := false)];
      subscriptions := subscriptions - {id};
      forall x | x in subscriptions && x in stories ensures Reached(flights, calls, x, stories[x]) {
        assert x in old(subscriptions);
      }
    }

    /** The cleanup function of a subscription, any number of times. */
    method Cleanup(id: nat)
      requires Valid() && flights == map[]
      modifies this
      ensures Valid() && flights == map[] && calls == old(calls) && stories == old(stories)
      ensures subscriptions == if id in old(cleaned) then old(subscriptions) else old(subscriptions) - {id}
      ensures channels == if id in old(cleaned) || id !in old(subscriptions) then old(channels)
                          else old(channels)[id := old(channels)[id].(open := false)]
    {
      if id in cleaned { return; }
      cleaned := cleaned + {id};
      if id in subscriptions {
        Close(id);
      }
    }

    method Shutdown()
      requires Valid() && flights == map[]
      modifies this
      ensures Valid() && flights == map[] && subscriptions == map[]
      ensures calls == old(calls) && stories == old(stories)
      ensures forall id :: id in channels ==> !channels[id].open
    {
      while subscriptions != map[]
        invariant Valid() && flights == map[] && calls == old(calls) && stories == old(stories)
        decreases |subscriptions|
      {
        var id :| id in subscriptions;
        Close(id);
      }
    }

    // ------------------------------------------------------------ with the lock shared

    /** A notify call begins: it will look at every subscription there is. */
    method BeginNotify(e: Event) returns (t: nat)
      requires Valid()
      modifies this`flights, this`nextCall, this`calls, this`prior
      ensures Valid() && t == |old(calls)| && t !in old(flights)
      ensures calls == old(calls) + [e] && prior == old(prior) + [ended]
      ensures flights == old(flights)[t := Flight(e, subscriptions.Keys)]
    {
      t := nextCall;
      nextCall := nextCall + 1;
      forall id | id in stories
        ensures stories[id].joined <= |calls| && |calls| !in stories[id].accepted && |calls| !in stories[id].dropped
      {
        assert Told(calls, prior, channels[id].buffer, stories[id]);
      }
      BeginKeepsReached(subscriptions, flights, calls, stories, e);
      BeginKeepsAllTold(calls, prior, channels, stories, e, ended);
      flights := flights[t := Flight(e, subscriptions.Keys)];
      calls, prior := calls + [e], prior + [ended];
    }

    /** It looks at one of them: the event goes to the back of the buffer if it matches and there is room. Go
        panics on a send to a closed channel: the channel is open. */
    method Deliver(t: nat, id: nat)
      requires Valid() && t in flights && id in flights[t].todo
      modifies this`flights, this`channels, this`stories
      ensures Valid()
      ensures id in old(subscriptions) && id in old(channels) && old(channels)[id].open
      ensures flights == old(flights)[t := old(flights)[t].(todo := old(flights)[t].todo - {id})]
      ensures channels == old(channels)[id := Offered(subscriptions[id], old(channels)[id], old(flights)[t].event)]
      ensures id in old(stories) &&
              stories == old(stories)[id := Retold(old(channels)[id], old(stories)[id], t, old(flights)[t].event)]
    {
      var e := flights[t].event;
      assert Reached(flights, calls, id, stories[id]);
      DeliverKeepsTold(calls, prior, channels, stories, id, t);
      DeliverKeepsReached(subscriptions, flights, calls, stories, channels, id, t);
      DeliverKeepsTracked(subscriptions, flights, calls, ended, prior, t, id);
      DeliverKeepsWired(subscriptions, channels, stories, id, Offered(subscriptions[id], channels[id], e),
                        Retold(channels[id], stories[id], t, e));
      stories := stories[id := Retold(channels[id], stories[id], t, e)];
      if Passes(subscriptions[id], e.name) && |channels[id].buffer| < BUFFER_SIZE {
        channels := channels[id := channels[id].(buffer := channels[id].buffer + [e])];
      }
      flights := flights[t := flights[t].(todo := flights[t].todo - {id})];
    }

    method EndNotify(t: nat)
      requires Valid() && t in flights && flights[t].todo == {}
      modifies this`flights, this`ended
      ensures Valid() && flights == old(flights) - {t} && ended == old(ended) + {t}
    {
      EndKeepsReached(subscriptions, flights, calls, stories, t);
      flights := flights - {t};
      ended := ended + {t};
    }

    /** The loop of a call nobody comes between. */
    method DeliverAll(t: nat)
      requires Valid() && t in flights && flights[t].todo == subscriptions.Keys
      modifies this`flights, this`channels, this`stories
      ensures Valid() && t in flights && flights[t].todo == {}
      ensures Spread(old(channels), channels, subscriptions, {}, old(flights)[t].event)
    {
      ghost var e := flights[t].event;
      while flights[t].todo != {}
        invariant Valid() && t in flights && flights[t].event == e
        invariant Spread(old(channels), channels, subscriptions, flights[t].todo, e)
        decreases flights[t].todo
      {
        var id :| id in flights[t].todo;
        SpreadStep(old(channels), channels, subscriptions, flights[t].todo, e, id);
        Deliver(t, id);
      }
    }

    method Notify(e: Event)
      requires Valid()
      modifies this
      ensures Valid() && subscriptions == old(subscriptions) && calls == old(calls) + [e]
      ensures |old(calls)| in ended && prior == old(prior) + [old(ended)]
      ensures Spread(old(channels), channels, subscriptions, {}, e)
    {
      var t := BeginNotify(e);
      DeliverAll(t);
      EndNotify(t);
    }

    // ------------------------------------------------------------ the reading end

    /** A reader takes the oldest buffered event; None means the channel is closed and drained. */
    method Receive(id: nat) returns (e: Option<Event>)
      requires Valid() && id in channels && (channels[id].buffer != [] || !channels[id].open)
      modifies this`channels, this`stories
      ensures Valid()
      ensures e == if old(channels)[id].buffer == [] then None else Some(old(channels)[id].buffer[0])
      ensures channels == if e.None? then old(channels)
                          else old(channels)[id := old(channels)[id].(buffer := old(channels)[id].buffer[1..])]
    {
      var c := channels[id];
      if c.buffer == [] { return None; }
      TakeKeepsAllTold(calls, prior, channels, stories, id);
      TakeKeepsReached(subscriptions, flights, calls, stories, id);
      e := Some(c.buffer[0]);
      channels := channels[id := c.(buffer := c.buffer[1..])];
      stories := stories[id := stories[id].(taken := stories[id].taken + 1)];
    }
  }

  // ---------------------------------------------------------------- what a subscriber gets

  /** Strictly rising tickets from lo on. */
  ghost predicate Picks(calls: seq<Event>, lo: nat, picked: seq<nat>) {
    && (forall i :: 0 <= i < |picked| ==> lo <= picked[i] < |calls|)
    && (forall i, j :: 0 <= i < j < |picked| ==> picked[i] < picked[j])
  }

  lemma PicksStep(calls: seq<Event>, lo: nat, picked: seq<nat>)
    requires Picks(calls, lo, picked)
    ensures lo in picked ==> picked[0] == lo && Picks(calls, lo + 1, picked[1..])
    ensures lo !in picked ==> Picks(calls, lo + 1, picked)
    ensures lo in picked ==> forall t :: t > lo ==> (t in picked[1..] <==> t in picked)
  {
    if lo in picked {
      var i :| 0 <= i < |picked| && picked[i] == lo;
      assert picked[0] == lo;
      assert picked == [lo] + picked[1..];
    } else {
      assert forall i :: 0 <= i < |picked| ==> picked[i] in picked;
    }
  }

  lemma EventsAtSplit(calls: seq<Event>, picked: seq<nat>)
    requires picked != [] && forall i :: 0 <= i < |picked| ==> picked[i] < |calls|
    ensures EventsAt(calls, picked) == [calls[picked[0]]] + EventsAt(calls, picked[1..])
  {
  }

  ghost predicate Chosen(f: Filter, calls: seq<Event>, lo: nat, picked: seq<nat>) {
    forall t: nat :: lo <= t < |calls| ==> (Passes(f, calls[t].name) <==> t in picked)
  }

  lemma {:induction false} SelectedIsReceived(f: Filter, calls: seq<Event>, lo: nat, picked: seq<nat>)
    requires lo <= |calls| && Picks(calls, lo, picked) && Chosen(f, calls, lo, picked)
    ensures EventsAt(calls, picked) == Received(f, calls[lo..])
    decreases |calls| - lo
  {
    if picked == [] {
      NoneChosen(f, calls, lo);
    } else {
      assert lo <= picked[0] < |calls|;
      ReceivedStep(f, calls, lo);
      PicksStep(calls, lo, picked);
      var rest := if lo in picked then picked[1..] else picked;
      ChosenStep(f, calls, lo, picked, rest);
      SelectedIsReceived(f, calls, lo + 1, rest);
      if lo in picked {
        EventsAtSplit(calls, picked);
      }
    }
  }

  lemma ChosenStep(f: Filter, calls: seq<Event>, lo: nat, picked: seq<nat>, rest: seq<nat>)
    requires Chosen(f, calls, lo, picked) && forall t :: t > lo ==> (t in rest <==> t in picked)
    ensures Chosen(f, calls, lo + 1, rest)
  {
  }

  lemma ReceivedStep(f: Filter, calls: seq<Event>, lo: nat)
    requires lo < |calls|
    ensures Received(f, calls[lo..]) ==
            (if Passes(f, calls[lo].name) then [calls[lo]] else []) + Received(f, calls[lo + 1..])
  {
    assert calls[lo..][0] == calls[lo] && calls[lo..][1..] == calls[lo + 1..];
    assert [] + Received(f, calls[lo + 1..]) == Received(f, calls[lo + 1..]);
  }

  lemma NoneChosen(f: Filter, calls: seq<Event>, lo: nat)
    requires lo <= |calls| && Chosen(f, calls, lo, [])
    ensures Received(f, calls[lo..]) == []
  {
    ReceivedNothing(f, calls[lo..]);
  }

  lemma {:induction false} ReceivedNothing(f: Filter, events: seq<Event>)
    requires forall i :: 0 <= i < |events| ==> !Passes(f, events[i].name)
    ensures Received(f, events) == []
  {
    if events != [] {
      ReceivedNothing(f, events[1..]);
    }
  }

  /** When calls came one at a time and all have ended, and no buffer overflowed, a subscriber was given
      exactly the matching events published since it joined, in order. */
  lemma Undisturbed(calls: seq<Event>, prior: seq<set<nat>>, id: nat, st: Story)
    requires Orderly(calls, prior, st) && OneAtATime(prior) && Reached(map[], calls, id, st) && st.dropped == {}
    ensures EventsAt(calls, st.accepted) == Received(st.filter, calls[st.joined..])
  {
    forall i, j | 0 <= i < j < |st.accepted| ensures st.accepted[i] < st.accepted[j] {
      OneAtATimeAscends(calls, prior, st, i, j);
    }
    forall t: nat | st.joined <= t < |calls| && t in st.accepted ensures Passes(st.filter, calls[t].name) {
      var i :| 0 <= i < |st.accepted| && st.accepted[i] == t;
    }
    SelectedIsReceived(st.filter, calls, st.joined, st.accepted);
  }

  /** Two calls under way to a subscription that wants both and has room for both. */
  ghost predicate BothPending(hub: Hub, s: nat, t: nat, id: nat)
    reads hub
  {
    && s != t && s in hub.flights && t in hub.flights && id in hub.flights[s].todo && id in hub.flights[t].todo
    && id in hub.subscriptions && id in hub.channels && |hub.channels[id].buffer| + 2 <= BUFFER_SIZE
    && Passes(hub.subscriptions[id], hub.flights[s].event.name)
    && Passes(hub.subscriptions[id], hub.flights[t].event.name)
  }

  /** A wanted event finds room. */
  method Accept(hub: Hub, t: nat, id: nat)
    requires hub.Valid() && t in hub.flights && id in hub.flights[t].todo
    requires id in hub.subscriptions && id in hub.channels
    requires Passes(hub.subscriptions[id], hub.flights[t].event.name) && |hub.channels[id].buffer| < BUFFER_SIZE
    modifies hub`flights, hub`channels, hub`stories
    ensures hub.Valid()
    ensures hub.flights == old(hub.flights)[t := old(hub.flights)[t].(todo := old(hub.flights)[t].todo - {id})]
    ensures var c := old(hub.channels)[id];
            hub.channels == old(hub.channels)[id := c.(buffer := c.buffer + [old(hub.flights)[t].event])]
  {
    hub.Deliver(t, id);
  }

  lemma Overwritten<K, V>(m: map<K, V>, k: K, a: V, b: V)
    ensures m[k := a][k := b] == m[k := b]
  {
  }

  /** In any hub, whichever of the two is taken first comes first. */
  method EitherOrder(hub: Hub, s: nat, t: nat, id: nat)
    requires hub.Valid() && BothPending(hub, s, t, id)
    modifies hub`flights, hub`channels, hub`stories
    ensures hub.Valid()
    ensures var f, g := old(hub.flights)[s], old(hub.flights)[t];
            hub.flights == old(hub.flights)[s := f.(todo := f.todo - {id})][t := g.(todo := g.todo - {id})]
    ensures var c, f, g := old(hub.channels)[id], old(hub.flights)[s], old(hub.flights)[t];
            hub.channels == old(hub.channels)[id := c.(buffer := c.buffer + [f.event, g.event])]
  {
    ghost var c, f, g := hub.channels[id], hub.flights[s].event, hub.flights[t].event;
    assert c.buffer + [f] + [g] == c.buffer + [f, g];
    Overwritten(hub.channels, id, c.(buffer := c.buffer + [f]), c.(buffer := c.buffer + [f, g]));
    Accept(hub, s, id);
    Accept(hub, t, id);
  }

  /** So two calls that overlap may reach two subscribers in opposite orders, whatever else is going on: there is
      no one stream of which both see a part. */
  method SubscribersMayDisagree(hub: Hub, s: nat, t: nat, x: nat, y: nat)
    requires hub.Valid() && x != y && BothPending(hub, s, t, x) && BothPending(hub, s, t, y)
    modifies hub`flights, hub`channels, hub`stories
    ensures hub.Valid() && x in hub.channels && y in hub.channels
    ensures var first, second := old(hub.flights)[s].event, old(hub.flights)[t].event;
            && hub.channels[x].buffer == old(hub.channels)[x].buffer + [first, second]
            && hub.channels[y].buffer == old(hub.channels)[y].buffer + [second, first]
  {
    EitherOrder(hub, s, t, x);
    EitherOrder(hub, t, s, y);
  }

  /** And any two events may come to that. */
  method Overlapping(first: Event, second: Event) returns (hub: Hub, s: nat, t: nat, x: nat, y: nat)
    ensures fresh(hub) && hub.Valid() && x != y && BothPending(hub, s, t, x) && BothPending(hub, s, t, y)
    ensures hub.flights[s].event == first && hub.flights[t].event == second
    ensures hub.channels[x].buffer == [] && hub.channels[y].buffer == []
  {
    hub := new Hub();
    x := hub.Subscribe(Filter([], []));
    y := hub.Subscribe(Filter([], []));
    assert hub.subscriptions.Keys == {x, y};
    s := hub.BeginNotify(first);
    t := hub.BeginNotify(second);
  }
}
