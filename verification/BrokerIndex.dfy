/** rocketmq/client/route.go: the route map and the broker index, which shares the broker records of the routes. */
module BrokerIndex {
  import opened Common
  import opened Bytes
  import opened Route
  import opened PublishInfo

  type IndexView = map<bytes, Addresses>

  function LiveOnly(m: Addresses, live: set<bytes>): Addresses {
    map k | k in m && m[k] in live :: m[k]
  }

  /** What cleaning makes of the index: live addresses only, and no broker without one. */
  function Cleaned(index: IndexView, live: set<bytes>): IndexView {
    map name | name in index && LiveOnly(index[name], live) != map[] :: LiveOnly(index[name], live)
  }

  /** A broker stays exactly when it has a live address, and then with exactly those. */
  lemma CleanedIff(index: IndexView, live: set<bytes>, name: bytes, k: int)
    ensures name in Cleaned(index, live) <==> name in index && exists id | id in index[name] :: index[name][id] in live
    ensures name in Cleaned(index, live) ==>
              && (k in Cleaned(index, live)[name] <==> k in index[name] && index[name][k] in live)
              && (k in Cleaned(index, live)[name] ==> Cleaned(index, live)[name][k] == index[name][k])
  {
    if name in index {
      var kept := LiveOnly(index[name], live);
      if id :| id in index[name] && index[name][id] in live {
        assert id in kept;
      }
      if forall id | id in index[name] :: index[name][id] !in live {
        assert kept == map[];
      }
    }
  }

  lemma CleanedTwice(index: IndexView, live: set<bytes>)
    ensures Cleaned(Cleaned(index, live), live) == Cleaned(index, live)
  {
    var once := Cleaned(index, live);
    forall name | name in once ensures LiveOnly(once[name], live) == once[name] {}
  }

  /** cleanOfflineBroker with `names` still to come: `kept` is still in the index, `now` are the addresses of what
      the index held `before`. */
  ghost predicate Cleaning(names: set<bytes>, kept: set<bytes>, now: IndexView, before: IndexView, live: set<bytes>) {
    && now.Keys == before.Keys && names <= kept <= before.Keys
    && (forall name | name in before :: now[name] == before[name] || now[name] == LiveOnly(before[name], live))
    && (forall name | name in before && name !in names :: now[name] == LiveOnly(before[name], live))
    && (forall name | name in before :: name in kept <==> name in names || LiveOnly(before[name], live) != map[])
  }

  lemma CleaningStarts(names: set<bytes>, before: IndexView, live: set<bytes>)
    requires names == before.Keys
    ensures Cleaning(names, names, before, before, live)
  {
  }

  lemma CleaningStep(name: bytes, names: set<bytes>, kept: set<bytes>, kept': set<bytes>,
                     now: IndexView, now': IndexView, before: IndexView, live: set<bytes>)
    requires Cleaning(names, kept, now, before, live) && name in names && now'.Keys == now.Keys
    requires now'[name] == LiveOnly(now[name], live)
    requires forall n | n in now :: now'[n] == now[n] || now'[n] == LiveOnly(now[n], live)
    requires kept' == if now'[name] == map[] then kept - {name} else kept
    ensures Cleaning(names - {name}, kept', now', before, live)
  {
    forall n | n in before ensures LiveOnly(LiveOnly(before[n], live), live) == LiveOnly(before[n], live) {
      LiveOnlyTwice(before[n], live);
    }
    hide LiveOnly;
  }

  lemma CleaningEnds(kept: set<bytes>, now: IndexView, before: IndexView, live: set<bytes>)
    requires Cleaning({}, kept, now, before, live)
    ensures Cleaned(before, live) == map name | name in kept :: now[name]
  {
  }

  ghost function AddressesOf(index: map<bytes, BrokerData>): IndexView
    reads index.Values
  {
    map name | name in index :: index[name].addresses
  }

  /** Storing the brokers of a route: later records of a name replace earlier ones. */
  function Stored(index: map<bytes, BrokerData>, brokers: seq<BrokerData>): map<bytes, BrokerData> {
    if brokers == [] then index
    else Stored(index, brokers[..|brokers| - 1])[brokers[|brokers| - 1].name := brokers[|brokers| - 1]]
  }

  /** The index holds, under each name, the last record of that name, or what it held before if there is none. */
  lemma {:induction false} StoredAt(index: map<bytes, BrokerData>, brokers: seq<BrokerData>, i: nat)
    ensures forall name | forall j | 0 <= j < |brokers| :: brokers[j].name != name ::
              (name in Stored(index, brokers) <==> name in index) && (name in index ==> Stored(index, brokers)[name] == index[name])
    ensures i < |brokers| && (forall j | i < j < |brokers| :: brokers[j].name != brokers[i].name) ==>
              brokers[i].name in Stored(index, brokers) && Stored(index, brokers)[brokers[i].name] == brokers[i]
  {
    if brokers != [] {
      StoredAt(index, brokers[..|brokers| - 1], i);
    }
  }

  class Namesrvs {
    var brokerIndex: map<bytes, BrokerData>
    var routes: map<bytes, TopicRouteData>

    constructor ()
      ensures brokerIndex == map[] && routes == map[]
    {
      brokerIndex, routes := map[], map[];
    }

    ghost function RouteBrokers(): set<BrokerData>
      reads this, set t | t in routes.Values :: t.brokers
    {
      set t, i | t in routes.Values && 0 <= i < t.brokers.Length :: t.brokers[i]
    }

    /** The addresses that occur in some stored route. */
    ghost function LiveAddresses(): set<bytes>
      reads this, (set t | t in routes.Values :: t.brokers), RouteBrokers()
    {
      set b, k | b in RouteBrokers() && k in b.addresses :: b.addresses[k]
    }

    ghost function Index(): IndexView
      reads this, brokerIndex.Values
    {
      AddressesOf(brokerIndex)
    }

    /** The search of cleanOfflineBroker for one address. */
    method OccursInRoutes(address: bytes) returns (found: bool)
      ensures found <==> address in LiveAddresses()
    {
      var rest := routes.Values;
      while rest != {}
        invariant rest <= routes.Values
        invariant forall t, i, k | t in routes.Values && t !in rest && 0 <= i < t.brokers.Length && k in t.brokers[i].addresses ::
                    t.brokers[i].addresses[k] != address
        decreases rest
      {
        var trd :| trd in rest;
        for idx := 0 to trd.brokers.Length
          invariant forall i, k | 0 <= i < idx && k in trd.brokers[i].addresses :: trd.brokers[i].addresses[k] != address
        {
          var bd := trd.brokers[idx];
          if exists k | k in bd.addresses :: bd.addresses[k] == address {
            assert bd in RouteBrokers();
            return true;
          }
        }
        rest := rest - {trd};
      }
      return false;
    }

    lemma ReachableIsLive(b: BrokerData)
      requires b in RouteBrokers()
      ensures forall k | k in b.addresses :: b.addresses[k] in LiveAddresses()
    {
    }

    /** What the routes reach depends on the routes and on the records they reach, not on the index. */
    twostate lemma RoutesUnchanged()
      requires routes == old(routes)
      requires forall t | t in routes.Values :: unchanged(t.brokers)
      requires forall b | b in old(RouteBrokers()) :: b.addresses == old(b.addresses)
      ensures RouteBrokers() == old(RouteBrokers()) && LiveAddresses() == old(LiveAddresses())
    {
      forall b ensures b in RouteBrokers() <==> b in old(RouteBrokers()) {
        if b in RouteBrokers() {
          var t, i :| t in routes.Values && 0 <= i < t.brokers.Length && t.brokers[i] == b;
          assert old(t.brokers[i]) == b;
        }
        if b in old(RouteBrokers()) {
          var t, i :| t in routes.Values && 0 <= i < t.brokers.Length && old(t.brokers[i]) == b;
          assert t.brokers[i] == b;
        }
      }
    }

    /** One address of one broker of the index. */
    method DropIfOffline(bd: BrokerData, k: int)
      requires k in bd.addresses
      modifies bd
      ensures bd.addresses == if old(bd.addresses[k]) in old(LiveAddresses()) then old(bd.addresses) else old(bd.addresses) - {k}
      ensures bd in old(RouteBrokers()) ==> bd.addresses == old(bd.addresses)
      ensures RouteBrokers() == old(RouteBrokers()) && LiveAddresses() == old(LiveAddresses())
    {
      hide LiveAddresses;
      if bd in RouteBrokers() {
        ReachableIsLive(bd);
      }
      var isLive := OccursInRoutes(bd.addresses[k]);
      RoutesUnchanged();
      if !isLive {
        bd.addresses := bd.addresses - {k};
      }
      RoutesUnchanged();
    }

    /** The loop over one broker of the index. */
    method DropOffline(bd: BrokerData)
      modifies bd
      ensures bd.addresses == LiveOnly(old(bd.addresses), old(LiveAddresses()))
      ensures bd in old(RouteBrokers()) ==> bd.addresses == old(bd.addresses)
      ensures RouteBrokers() == old(RouteBrokers()) && LiveAddresses() == old(LiveAddresses())
    {
      hide LiveAddresses;
      ghost var all, live := bd.addresses, LiveAddresses();
      var rest: set<int> := bd.addresses.Keys;
      while exists k :: k in rest
        invariant rest <= all.Keys && bd.addresses.Keys <= all.Keys
        invariant forall k | k in all :: k in bd.addresses <==> k in rest || all[k] in live
        invariant forall k | k in bd.addresses :: bd.addresses[k] == all[k]
        invariant bd in RouteBrokers() ==> bd.addresses == all
        invariant RouteBrokers() == old(RouteBrokers()) && LiveAddresses() == live
        decreases rest
      {
        var k :| k in rest;
        DropIfOffline(bd, k);
        rest := rest - {k};
      }
      ghost var cleaned := LiveOnly(all, live);
      assert forall k | k in bd.addresses :: k in cleaned && bd.addresses[k] == cleaned[k];
      assert forall k | k in cleaned :: k in bd.addresses;
      assert bd.addresses == cleaned;
    }

    /** `snapshot` holds what the routes reach. */
    ghost predicate Holds(snapshot: map<BrokerData, Addresses>)
      reads this, (set t | t in routes.Values :: t.brokers), snapshot.Keys
    {
      snapshot.Keys == RouteBrokers() && forall b | b in snapshot :: b.addresses == snapshot[b]
    }

    /** cleanOfflineBroker. The index keeps exactly the live addresses it had, no name keeps none, and no broker
        object that some route reaches is changed, although the index may share it. */
    method CleanOfflineBroker()
      modifies this`brokerIndex, brokerIndex.Values
      ensures Index() == Cleaned(old(Index()), old(LiveAddresses()))
      ensures forall name | name in brokerIndex :: name in old(brokerIndex) && brokerIndex[name] == old(brokerIndex[name])
      ensures forall b | b in old(RouteBrokers()) :: b.addresses == old(b.addresses)
      ensures RouteBrokers() == old(RouteBrokers()) && LiveAddresses() == old(LiveAddresses())
    {
      hide LiveAddresses, RouteBrokers, LiveOnly, Cleaned, Cleaning;
      ghost var index, before, live := brokerIndex, Index(), LiveAddresses();
      ghost var snapshot := map b | b in RouteBrokers() :: b.addresses;
      var names := brokerIndex.Keys;
      CleaningStarts(names, before, live);
      while names != {}
        invariant names <= brokerIndex.Keys && brokerIndex.Keys <= index.Keys
        invariant forall name | name in brokerIndex :: brokerIndex[name] == index[name]
        invariant Cleaning(names, brokerIndex.Keys, AddressesOf(index), before, live)
        invariant Holds(snapshot) && LiveAddresses() == live
        decreases names
      {
        var name :| name in names;
        ghost var kept, now := brokerIndex.Keys, AddressesOf(index);
        CleanName(name, index, snapshot);
        CleaningStep(name, names, kept, brokerIndex.Keys, now, AddressesOf(index), before, live);
        names := names - {name};
      }
      CleaningEnds(brokerIndex.Keys, AddressesOf(index), before, live);
      assert Index() == map name | name in brokerIndex.Keys :: AddressesOf(index)[name];
    }

    /** The loop body of cleanOfflineBroker; `index` is what the index held when the loop began. */
    method CleanName(name: bytes, ghost index: map<bytes, BrokerData>, ghost snapshot: map<BrokerData, Addresses>)
      requires name in brokerIndex && name in index && brokerIndex[name] == index[name] && Holds(snapshot)
      modifies this`brokerIndex, brokerIndex[name]
      ensures brokerIndex == if index[name].addresses == map[] then old(brokerIndex) - {name} else old(brokerIndex)
      ensures AddressesOf(index)[name] == LiveOnly(old(AddressesOf(index))[name], old(LiveAddresses()))
      ensures forall n | n in index :: AddressesOf(index)[n] == old(AddressesOf(index))[n] ||
                                       AddressesOf(index)[n] == LiveOnly(old(AddressesOf(index))[n], old(LiveAddresses()))
      ensures Holds(snapshot) && LiveAddresses() == old(LiveAddresses())
    {
      hide LiveAddresses, LiveOnly;
      var bd := brokerIndex[name];
      DropOffline(bd);
      if bd.addresses == map[] {
        brokerIndex := brokerIndex - {name};
      }
      RoutesUnchanged();
    }

    /** AddBroker. */
    method AddBroker(routeData: TopicRouteData)
      modifies this`brokerIndex
      ensures brokerIndex == Stored(old(brokerIndex), routeData.brokers[..])
    {
      for i := 0 to routeData.brokers.Length
        invariant brokerIndex == Stored(old(brokerIndex), routeData.brokers[..i])
      {
        assert routeData.brokers[..i + 1][..i] == routeData.brokers[..i];
        brokerIndex := brokerIndex[routeData.brokers[i].name := routeData.brokers[i]];
      }
      assert routeData.brokers[..routeData.brokers.Length] == routeData.brokers[..];
    }

    /** A changed route is told to the producers, stored, and its brokers indexed. */
    method StoreRoute(topic: bytes, fetched: TopicRouteData, producers: nat) returns (published: seq<seq<MessageQueue>>)
      modifies this, fetched.queues
      ensures multiset(fetched.queues[..]) == multiset(old(fetched.queues[..]))
      ensures routes == old(routes)[topic := fetched] && brokerIndex == Stored(old(brokerIndex), fetched.brokers[..])
      ensures |published| == producers
      ensures forall mqs | mqs in published :: multiset(mqs) == multiset(Expand(topic, fetched.queues[..], Views(fetched.brokers[..])))
    {
      hide Expand, Stored;
      published := Publish(topic, fetched, producers);
      routes := routes[topic := fetched];
      AddBroker(fetched);
    }

    /** UpdateTopicRouteInfoWithDefault once a route has been fetched; `queueLimit` is set for the default topic, and
        `producers` producers are to be told. Afterwards the stored route of the topic holds the records of the
        fetched one, whether it was stored or found unchanged (with no empty address in the route that was stored),
        and so does the copy that is returned. */
    method UpdateTopicRoute(topic: bytes, fetched: TopicRouteData, queueLimit: Option<int>, producers: nat)
        returns (copy: TopicRouteData, changed: bool, published: seq<seq<MessageQueue>>)
      requires topic in routes ==> routes[topic].queues != fetched.queues
      modifies this, fetched.queues
      ensures multiset(fetched.queues[..]) == multiset(Limited(old(fetched.queues[..]), queueLimit))
      ensures fresh(copy) && RouteOf(copy) == RouteOf(fetched)
      ensures topic in routes
      ensures (topic in old(routes) ==> AddressesFilled(old(RouteOf(routes[topic])))) ==> SameRecords(RouteOf(routes[topic]), RouteOf(fetched))
      ensures topic !in old(routes) ==> changed
      ensures topic in old(routes) && AddressesFilled(old(RouteOf(routes[topic]))) && !changed ==>
                SameRecords(old(RouteOf(routes[topic])), RouteOf(fetched))
      ensures topic in old(routes) && NamesUnambiguous(old(RouteOf(routes[topic]))) && changed ==>
                !SameRecords(old(RouteOf(routes[topic])), RouteOf(fetched))
      ensures changed ==> routes == old(routes)[topic := fetched] && brokerIndex == Stored(old(brokerIndex), fetched.brokers[..])
      ensures !changed ==> routes == old(routes) && brokerIndex == old(brokerIndex)
      ensures |published| == if changed then producers else 0
      ensures forall mqs | mqs in published :: multiset(mqs) == multiset(Expand(topic, fetched.queues[..], Views(fetched.brokers[..])))
    {
      hide SameRecords, Expand, Limited, AddressesFilled, NamesUnambiguous, Stored, View, Views;
      LimitedNot(fetched.queues[..]);
      if queueLimit.Some? {
        LimitQueues(fetched.queues, queueLimit.value);
      }
      changed, published := true, [];
      if topic in routes {
        changed := TopicRouteDataIsChange(routes[topic], fetched);
      }
      ghost var limited := RouteOf(fetched);
      if changed {
        published := StoreRoute(topic, fetched, producers);
      }
      if topic in old(routes) {
        PermutedRecords(old(RouteOf(routes[topic])), limited, RouteOf(fetched));
      }
      SameAsItself(RouteOf(fetched));
      copy := fetched.Clone();
    }
  }

  /** Telling the producers: each expansion leaves the route's list in some order, and none sees other queues. */
  method Publish(topic: bytes, fetched: TopicRouteData, producers: nat) returns (published: seq<seq<MessageQueue>>)
    modifies fetched.queues
    ensures multiset(fetched.queues[..]) == multiset(old(fetched.queues[..])) && |published| == producers
    ensures forall mqs | mqs in published :: multiset(mqs) == multiset(Expand(topic, fetched.queues[..], Views(fetched.brokers[..])))
  {
    hide Expand;
    ghost var before, brokers := fetched.queues[..], Views(fetched.brokers[..]);
    published := [];
    for p := 0 to producers
      invariant multiset(fetched.queues[..]) == multiset(before) && Views(fetched.brokers[..]) == brokers
      invariant |published| == p
      invariant forall mqs | mqs in published :: multiset(mqs) == multiset(Expand(topic, before, brokers))
    {
      var mqs := RouteToPublishInfo(topic, fetched);
      ExpansionOfPermutation(topic, before, fetched.queues[..], brokers);
      published := published + [mqs];
    }
    ExpansionOfPermutation(topic, before, fetched.queues[..], brokers);
  }

  lemma LiveOnlyTwice(m: Addresses, live: set<bytes>)
    ensures LiveOnly(LiveOnly(m, live), live) == LiveOnly(m, live)
  {
  }

  function Limited(qs: seq<QueueData>, limit: Option<int>): (r: seq<QueueData>)
    ensures |r| == |qs|
  {
    if limit.None? then qs
    else seq(|qs|, i requires 0 <= i < |qs| =>
           if qs[i].readQueueNums > limit.value
           then qs[i].(readQueueNums := limit.value, writeQueueNums := limit.value) else qs[i])
  }

  /** A limit: no record is read from more queues than that; one within it stays as it is, and of one that is cut down
      only the two numbers of queues change, to the limit. Limiting again changes nothing. */
  lemma LimitedRecords(qs: seq<QueueData>, n: int, i: nat)
    requires i < |qs|
    ensures var q, r := qs[i], Limited(qs, Some(n))[i];
            && r.readQueueNums <= n && (q.readQueueNums <= n ==> r == q)
            && (q.readQueueNums > n ==> r.readQueueNums == n && r.writeQueueNums == n)
            && r.name == q.name && r.perm == q.perm && r.topicSynFlag == q.topicSynFlag
    ensures Limited(Limited(qs, Some(n)), Some(n)) == Limited(qs, Some(n))
  {
    assert Limited(Limited(qs, Some(n)), Some(n)) == Limited(qs, Some(n));
  }

  lemma PermutedRecords(r: RouteView, s: RouteView, t: RouteView)
    requires multiset(s.queues) == multiset(t.queues) && s.brokers == t.brokers
    ensures SameRecords(r, s) <==> SameRecords(r, t)
  {
  }

  lemma SameAsItself(r: RouteView)
    ensures SameRecords(r, r)
  {
  }

  lemma LimitedNot(qs: seq<QueueData>)
    ensures Limited(qs, None) == qs
  {
  }

  method LimitQueues(qs: array<QueueData>, limit: int)
    modifies qs
    ensures qs[..] == Limited(old(qs[..]), Some(limit))
  {
    ghost var before := qs[..];
    for i := 0 to qs.Length
      invariant forall j | 0 <= j < i :: qs[j] == Limited(before, Some(limit))[j]
      invariant forall j | i <= j < qs.Length :: qs[j] == before[j]
    {
      if qs[i].readQueueNums > limit {
        qs[i] := qs[i].(readQueueNums := limit, writeQueueNums := limit);
      }
    }
  }
}
