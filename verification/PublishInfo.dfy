/** rocketmq/client/route.go: expanding a route into the message queues a producer may write to. */
module PublishInfo {
  import opened Common
  import opened Bytes
  import opened Ordering
  import opened Route

  const MASTER_ID := 0

  datatype MessageQueue = MessageQueue(topic: bytes, broker: bytes, queueId: int)

  /** queueIsWriteable: the second bit of the permissions. */
  predicate Writeable(perm: int) {
    perm / 2 % 2 == 1
  }

  /** The master address of the first broker record with this name; empty when there is none. */
  function MasterOf(brokers: seq<BrokerView>, name: bytes): bytes {
    if brokers == [] then []
    else if brokers[0].name == name then Lookup(brokers[0].addresses, MASTER_ID)
    else MasterOf(brokers[1..], name)
  }

  /** How many queues one record contributes. */
  function Yields(q: QueueData, brokers: seq<BrokerView>): nat {
    if Writeable(q.perm) && MasterOf(brokers, q.name) != [] && q.writeQueueNums > 0 then q.writeQueueNums else 0
  }

  function ExpandRecord(topic: bytes, q: QueueData, brokers: seq<BrokerView>): seq<MessageQueue> {
    seq(Yields(q, brokers), i => MessageQueue(topic, q.name, i))
  }

  function Expand(topic: bytes, qs: seq<QueueData>, brokers: seq<BrokerView>): seq<MessageQueue> {
    if qs == [] then []
    else Expand(topic, qs[..|qs| - 1], brokers) + ExpandRecord(topic, qs[|qs| - 1], brokers)
  }

  function Sum(s: seq<nat>): nat {
    if s == [] then 0 else Sum(s[..|s| - 1]) + s[|s| - 1]
  }

  /** How many of the records list the queue `id` of `broker`. */
  function Listing(qs: seq<QueueData>, brokers: seq<BrokerView>, broker: bytes, id: int): nat {
    if qs == [] then 0
    else Listing(qs[..|qs| - 1], brokers, broker, id) + (if Lists(qs[|qs| - 1], brokers, broker, id) then 1 else 0)
  }

  predicate Lists(q: QueueData, brokers: seq<BrokerView>, broker: bytes, id: int) {
    q.name == broker && 0 <= id < Yields(q, brokers)
  }

  /** Two records contribute under one broker name. */
  ghost predicate NameTwice(qs: seq<QueueData>, brokers: seq<BrokerView>) {
    exists i, j | 0 <= i < j < |qs| :: qs[i].name == qs[j].name && Yields(qs[i], brokers) > 0 && Yields(qs[j], brokers) > 0
  }

  lemma {:induction false} RecordListsOnce(topic: bytes, name: bytes, n: nat, m: MessageQueue)
    ensures multiset(seq(n, i => MessageQueue(topic, name, i)))[m] ==
            if m.topic == topic && m.broker == name && 0 <= m.queueId < n then 1 else 0
  {
    var s := seq(n, i => MessageQueue(topic, name, i));
    if n > 0 {
      RecordListsOnce(topic, name, n - 1, m);
      assert s == seq(n - 1, i => MessageQueue(topic, name, i)) + [MessageQueue(topic, name, n - 1)];
    }
  }

  /** Each queue appears once for every record that lists it. */
  lemma {:induction false} ListedPerRecord(topic: bytes, qs: seq<QueueData>, brokers: seq<BrokerView>, m: MessageQueue)
    ensures multiset(Expand(topic, qs, brokers))[m] == if m.topic == topic then Listing(qs, brokers, m.broker, m.queueId) else 0
  {
    if qs != [] {
      var q := qs[|qs| - 1];
      ListedPerRecord(topic, qs[..|qs| - 1], brokers, m);
      RecordListsOnce(topic, q.name, Yields(q, brokers), m);
    }
  }

  lemma {:induction false} LengthIsSum(topic: bytes, qs: seq<QueueData>, brokers: seq<BrokerView>)
    ensures |Expand(topic, qs, brokers)| == Sum(seq(|qs|, i requires 0 <= i < |qs| => Yields(qs[i], brokers)))
  {
    if qs != [] {
      var front := qs[..|qs| - 1];
      var counts: seq<nat> := seq(|qs|, i requires 0 <= i < |qs| => Yields(qs[i], brokers));
      LengthIsSum(topic, front, brokers);
      assert counts[..|qs| - 1] == seq(|front|, i requires 0 <= i < |front| => Yields(front[i], brokers));
    }
  }

  lemma {:induction false} ListingCounts(qs: seq<QueueData>, brokers: seq<BrokerView>, broker: bytes, id: int)
    ensures Listing(qs, brokers, broker, id) > 0 <==> exists i :: 0 <= i < |qs| && Lists(qs[i], brokers, broker, id)
    ensures Listing(qs, brokers, broker, id) > 1 <==>
            exists i, j :: 0 <= i < j < |qs| && Lists(qs[i], brokers, broker, id) && Lists(qs[j], brokers, broker, id)
  {
    hide Lists;
    if qs != [] {
      var front := qs[..|qs| - 1];
      ListingCounts(front, brokers, broker, id);
      assert forall i | 0 <= i < |front| :: front[i] == qs[i];
    }
  }

  /** The order of the records does not matter. */
  lemma {:induction false} ListingOfPermutation(qs: seq<QueueData>, rs: seq<QueueData>, brokers: seq<BrokerView>,
                                               broker: bytes, id: int)
    requires multiset(qs) == multiset(rs)
    ensures Listing(qs, brokers, broker, id) == Listing(rs, brokers, broker, id)
    decreases |qs|
  {
    assert |qs| == |multiset(qs)| == |multiset(rs)| == |rs|;
    if qs != [] {
      var q := qs[|qs| - 1];
      assert q in multiset(rs);
      var i :| 0 <= i < |rs| && rs[i] == q;
      var without := rs[..i] + rs[i + 1..];
      assert qs == qs[..|qs| - 1] + [q];
      TakeOut(rs, i);
      ListingOfPermutation(qs[..|qs| - 1], without, brokers, broker, id);
      ListingWithout(rs, i, brokers, broker, id);
    }
  }

  lemma {:induction false} ListingAppend(qs: seq<QueueData>, rs: seq<QueueData>, brokers: seq<BrokerView>, broker: bytes, id: int)
    ensures Listing(qs + rs, brokers, broker, id) == Listing(qs, brokers, broker, id) + Listing(rs, brokers, broker, id)
  {
    hide Lists;
    if rs == [] {
      assert qs + rs == qs;
    } else {
      ListingAppend(qs, rs[..|rs| - 1], brokers, broker, id);
      assert (qs + rs)[..|qs + rs| - 1] == qs + rs[..|rs| - 1];
    }
  }

  lemma ListingWithout(rs: seq<QueueData>, i: nat, brokers: seq<BrokerView>, broker: bytes, id: int)
    requires i < |rs|
    ensures Listing(rs, brokers, broker, id) ==
            Listing(rs[..i] + rs[i + 1..], brokers, broker, id) + (if Lists(rs[i], brokers, broker, id) then 1 else 0)
  {
    hide Lists;
    ListingAppend(rs[..i], rs[i + 1..], brokers, broker, id);
    ListingAppend(rs[..i + 1], rs[i + 1..], brokers, broker, id);
    assert rs == rs[..i + 1] + rs[i + 1..] && rs[..i + 1][..i] == rs[..i];
  }

  /** Whatever permutation `qs` of the stored records the sort call leaves, the list holds each queue once for
      every stored record that lists it, so a queue is there exactly when some record lists it; nothing is there
      twice exactly when no two contributing records share a broker name. */
  lemma ExpansionOfPermutation(topic: bytes, stored: seq<QueueData>, qs: seq<QueueData>, brokers: seq<BrokerView>)
    requires multiset(qs) == multiset(stored)
    ensures forall m :: m in Expand(topic, qs, brokers) <==>
                        m.topic == topic && exists i :: 0 <= i < |stored| && Lists(stored[i], brokers, m.broker, m.queueId)
    ensures multiset(Expand(topic, qs, brokers)) == multiset(Expand(topic, stored, brokers))
    ensures |Expand(topic, qs, brokers)| == Sum(seq(|stored|, i requires 0 <= i < |stored| => Yields(stored[i], brokers)))
    ensures Distinct(Expand(topic, qs, brokers)) <==> !NameTwice(stored, brokers)
  {
    var mqs := Expand(topic, qs, brokers);
    forall m ensures multiset(mqs)[m] == multiset(Expand(topic, stored, brokers))[m]
             ensures m in mqs <==> m.topic == topic && exists i :: 0 <= i < |stored| && Lists(stored[i], brokers, m.broker, m.queueId)
    {
      ListedPerRecord(topic, qs, brokers, m);
      ListedPerRecord(topic, stored, brokers, m);
      ListingOfPermutation(qs, stored, brokers, m.broker, m.queueId);
      ListingCounts(stored, brokers, m.broker, m.queueId);
      assert m in mqs <==> multiset(mqs)[m] > 0;
    }
    assert multiset(mqs) == multiset(Expand(topic, stored, brokers));
    assert |mqs| == |multiset(mqs)| == |multiset(Expand(topic, stored, brokers))| == |Expand(topic, stored, brokers)|;
    LengthIsSum(topic, stored, brokers);
    DistinctIff(topic, stored, mqs, brokers);
  }

  lemma DistinctIff(topic: bytes, stored: seq<QueueData>, mqs: seq<MessageQueue>, brokers: seq<BrokerView>)
    requires multiset(mqs) == multiset(Expand(topic, stored, brokers))
    ensures Distinct(mqs) <==> !NameTwice(stored, brokers)
  {
    DistinctIffCounts(mqs);
    if NameTwice(stored, brokers) {
      var i, j :| 0 <= i < j < |stored| && stored[i].name == stored[j].name
                   && Yields(stored[i], brokers) > 0 && Yields(stored[j], brokers) > 0;
      var m := MessageQueue(topic, stored[i].name, 0);
      ListedPerRecord(topic, stored, brokers, m);
      ListingCounts(stored, brokers, m.broker, 0);
      assert Lists(stored[i], brokers, m.broker, 0) && Lists(stored[j], brokers, m.broker, 0);
      assert multiset(mqs)[m] > 1;
    } else {
      forall m ensures multiset(mqs)[m] <= 1 {
        ListedPerRecord(topic, stored, brokers, m);
        ListingCounts(stored, brokers, m.broker, m.queueId);
      }
    }
  }

  // ---------------------------------------------------------------------------
  // In terms of the records
  // ---------------------------------------------------------------------------

  /** Permissions are inheriting, writing and reading, from the lowest bit up; whatever is above them does not matter. */
  lemma WriteableIsBitOne(perm: int, inherit: nat, write: nat, read: nat, above: int)
    requires inherit < 2 && write < 2 && read < 2 && perm == inherit + 2 * write + 4 * read + 8 * above
    ensures Writeable(perm) <==> write == 1
  {
    assert perm / 2 == write + 2 * (read + 2 * above);
  }

  /** The first broker record of the name, and a master address in it. */
  ghost predicate HasMaster(brokers: seq<BrokerView>, name: bytes, k: nat) {
    && k < |brokers| && brokers[k].name == name && (forall j | 0 <= j < k :: brokers[j].name != name)
    && 0 in brokers[k].addresses && brokers[k].addresses[0] != []
  }

  lemma {:induction false} MasterIff(brokers: seq<BrokerView>, name: bytes)
    ensures MasterOf(brokers, name) != [] <==> exists k: nat :: HasMaster(brokers, name, k)
  {
    if brokers != [] {
      var rest := brokers[1..];
      MasterIff(rest, name);
      if brokers[0].name == name {
        assert HasMaster(brokers, name, 0) <==> MasterOf(brokers, name) != [];
        assert forall k: nat :: HasMaster(brokers, name, k) ==> k == 0;
      } else {
        forall k: nat ensures HasMaster(rest, name, k) <==> HasMaster(brokers, name, k + 1) {
          if HasMaster(rest, name, k) {
            assert forall j | 0 < j <= k :: brokers[j] == rest[j - 1];
          }
          if HasMaster(brokers, name, k + 1) {
            assert forall j | 0 <= j < k :: rest[j] == brokers[j + 1];
          }
        }
        if k: nat :| HasMaster(brokers, name, k) {
          assert HasMaster(rest, name, k - 1);
        }
      }
    }
  }

  /** One record is published as the queues 0 to writeQueueNums of its broker, each once, exactly when its write bit is set
      and the first broker record of its name has a master with an address. */
  lemma RecordPublishes(topic: bytes, q: QueueData, brokers: seq<BrokerView>, inherit: nat, write: nat, read: nat, above: int,
                        m: MessageQueue)
    requires inherit < 2 && write < 2 && read < 2 && q.perm == inherit + 2 * write + 4 * read + 8 * above
    ensures m in Expand(topic, [q], brokers) <==>
            && write == 1 && (exists k: nat :: HasMaster(brokers, q.name, k))
            && m.topic == topic && m.broker == q.name && 0 <= m.queueId < q.writeQueueNums
    ensures Distinct(Expand(topic, [q], brokers))
  {
    WriteableIsBitOne(q.perm, inherit, write, read, above);
    MasterIff(brokers, q.name);
    ExpansionOfPermutation(topic, [q], [q], brokers);
    assert forall i | 0 <= i < 1 :: [q][i] == q;
  }

  /** A list is published record by record, in its order. */
  lemma {:induction false} ExpandAppend(topic: bytes, qs: seq<QueueData>, rs: seq<QueueData>, brokers: seq<BrokerView>)
    ensures Expand(topic, qs + rs, brokers) == Expand(topic, qs, brokers) + Expand(topic, rs, brokers)
    decreases |rs|
  {
    hide ExpandRecord;
    if rs == [] {
      assert qs + rs == qs;
    } else {
      ExpandAppend(topic, qs, rs[..|rs| - 1], brokers);
      assert (qs + rs)[..|qs + rs| - 1] == qs + rs[..|rs| - 1];
    }
  }

  /** The search for the broker of a queue record. */
  method MasterAddress(brokers: array<BrokerData>, name: bytes) returns (address: bytes)
    ensures address == MasterOf(Views(brokers[..]), name)
  {
    var idx := 0;
    while idx < brokers.Length && brokers[idx].name != name
      invariant idx <= brokers.Length
      invariant MasterOf(Views(brokers[..]), name) == MasterOf(Views(brokers[..])[idx..], name)
    {
      assert Views(brokers[..])[idx..][0] == View(brokers[idx]);
      assert Views(brokers[..])[idx..][1..] == Views(brokers[..])[idx + 1..];
      idx := idx + 1;
    }
    if idx == brokers.Length {
      return [];
    }
    assert Views(brokers[..])[idx..][0] == View(brokers[idx]);
    return Lookup(brokers[idx].addresses, MASTER_ID);
  }

  /** The loop body of routeData2PublishInfo for one queue record. */
  method QueuesOf(topic: bytes, qd: QueueData, brokers: array<BrokerData>) returns (mqs: seq<MessageQueue>)
    ensures mqs == ExpandRecord(topic, qd, Views(brokers[..]))
  {
    mqs := [];
    if !Writeable(qd.perm) {
      return;
    }
    var master := MasterAddress(brokers, qd.name);
    if master == [] {
      return;
    }
    ghost var record := ExpandRecord(topic, qd, Views(brokers[..]));
    var i := 0;
    while i < qd.writeQueueNums
      invariant 0 <= i <= |record| && (i < |record| <==> i < qd.writeQueueNums)
      invariant mqs == record[..i]
    {
      mqs := mqs + [MessageQueue(topic, qd.name, i)];
      i := i + 1;
    }
  }

  /** routeData2PublishInfo without an order configuration. The sort call's comparison is no order, and it sorts
      the route's own list. */
  method RouteToPublishInfo(topic: bytes, data: TopicRouteData) returns (mqs: seq<MessageQueue>)
    modifies data.queues
    ensures multiset(data.queues[..]) == multiset(old(data.queues[..]))
    ensures mqs == Expand(topic, data.queues[..], Views(data.brokers[..]))
  {
    hide ExpandRecord;
    Permute(data.queues);
    ghost var sorted, brokers := data.queues[..], Views(data.brokers[..]);
    mqs := [];
    for idx := 0 to data.queues.Length
      invariant data.queues[..] == sorted && Views(data.brokers[..]) == brokers
      invariant mqs == Expand(topic, sorted[..idx], brokers)
    {
      assert sorted[..idx + 1][..idx] == sorted[..idx];
      var part := QueuesOf(topic, data.queues[idx], data.brokers);
      mqs := mqs + part;
    }
    assert sorted[..data.queues.Length] == sorted;
  }
}
