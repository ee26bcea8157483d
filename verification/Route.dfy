/** rocketmq/client/route.go: routes as the client stores them, and how it tells that a route has changed. */
module Route {
  import opened Common
  import opened Bytes
  import opened Ordering

  type Addresses = map<int, bytes>

  class BrokerData {
    const cluster: bytes
    const name: bytes
    var addresses: Addresses

    constructor (cluster: bytes, name: bytes, addresses: Addresses)
      ensures this.cluster == cluster && this.name == name && this.addresses == addresses
    {
      this.cluster, this.name, this.addresses := cluster, name, addresses;
    }
  }

  datatype QueueData = QueueData(name: bytes, readQueueNums: int, writeQueueNums: int, perm: int, topicSynFlag: int)

  class TopicRouteData {
    const queues: array<QueueData>
    const brokers: array<BrokerData>

    constructor (queues: array<QueueData>, brokers: array<BrokerData>)
      ensures this.queues == queues && this.brokers == brokers
    {
      this.queues, this.brokers := queues, brokers;
    }

    /** clone: new slices, the same records. */
    method Clone() returns (cloned: TopicRouteData)
      ensures fresh(cloned) && fresh(cloned.queues) && fresh(cloned.brokers)
      ensures cloned.queues[..] == queues[..] && cloned.brokers[..] == brokers[..]
    {
      var qs := new QueueData[queues.Length](i requires 0 <= i < queues.Length reads queues => queues[i]);
      var bs := new BrokerData[brokers.Length](i requires 0 <= i < brokers.Length reads brokers => brokers[i]);
      cloned := new TopicRouteData(qs, bs);
    }
  }

  // ---------------------------------------------------------------------------
  // Change detection
  // ---------------------------------------------------------------------------

  datatype BrokerView = BrokerView(cluster: bytes, name: bytes, addresses: Addresses)

  ghost function View(b: BrokerData): BrokerView
    reads b
  {
    BrokerView(b.cluster, b.name, b.addresses)
  }

  ghost function Views(bs: seq<BrokerData>): seq<BrokerView>
    reads bs
  {
    seq(|bs|, i requires 0 <= i < |bs| reads bs => View(bs[i]))
  }

  /** Reading a Go map: the empty string for a missing key. */
  function Lookup(m: Addresses, k: int): bytes {
    if k in m then m[k] else []
  }

  /** BrokerData.Equals. */
  predicate BrokerEquals(b: BrokerView, bd: BrokerView) {
    && b.cluster == bd.cluster && b.name == bd.name && |b.addresses| == |bd.addresses|
    && forall k | k in b.addresses :: Lookup(bd.addresses, k) == b.addresses[k]
  }

  ghost predicate NoEmptyAddress(b: BrokerView) {
    forall k | k in b.addresses :: b.addresses[k] != []
  }

  lemma FilledEquals(b: BrokerView, bd: BrokerView)
    requires NoEmptyAddress(b)
    ensures BrokerEquals(b, bd) <==> b == bd
  {
    if BrokerEquals(b, bd) {
      forall k | k in b.addresses ensures k in bd.addresses && bd.addresses[k] == b.addresses[k] {
        assert Lookup(bd.addresses, k) == b.addresses[k] != [];
      }
      SubsetOfSameSize(b.addresses.Keys, bd.addresses.Keys);
      assert b.addresses == bd.addresses;
    }
  }

  lemma SubsetOfSameSize(s: set<int>, t: set<int>)
    requires s <= t && |s| == |t|
    ensures s == t
  {
    assert |t - s| == |t| - |s|;
  }

  lemma {:induction false} FreshKey(s: set<int>) returns (bound: int)
    ensures forall k | k in s :: k < bound
    decreases |s|
  {
    bound := 0;
    if k :| k in s {
      var rest := FreshKey(s - {k});
      bound := if rest > k then rest else k + 1;
      assert forall x | x in s :: x == k || x in s - {k};
    }
  }

  /** A record with an empty address equals one in which another key takes the place of that address. */
  lemma EmptyAddressEqualsMissing(b: BrokerView) returns (bd: BrokerView)
    requires !NoEmptyAddress(b)
    ensures BrokerEquals(b, bd) && b != bd && bd.name == b.name
  {
    var k :| k in b.addresses && b.addresses[k] == [];
    var key := FreshKey(b.addresses.Keys);
    bd := b.(addresses := (b.addresses - {k})[key := [0]]);
    assert bd.addresses.Keys == b.addresses.Keys - {k} + {key};
    assert key in bd.addresses && key !in b.addresses;
  }

  /** Equals is equality of records exactly for records without an empty address. */
  lemma BrokerEqualsIff(b: BrokerView)
    ensures (forall bd :: BrokerEquals(b, bd) <==> b == bd) <==> NoEmptyAddress(b)
  {
    hide BrokerEquals;
    if NoEmptyAddress(b) {
      forall bd ensures BrokerEquals(b, bd) <==> b == bd {
        FilledEquals(b, bd);
      }
    } else {
      var bd := EmptyAddressEqualsMissing(b);
    }
  }

  predicate SameBrokers(s: seq<BrokerView>, t: seq<BrokerView>) {
    |s| == |t| && forall i | 0 <= i < |s| :: BrokerEquals(s[i], t[i])
  }

  function QueueName(q: QueueData): bytes { q.name }
  function BrokerName(b: BrokerView): bytes { b.name }

  /** A route as a value. */
  datatype RouteView = RouteView(queues: seq<QueueData>, brokers: seq<BrokerView>)

  ghost predicate SameRecords(r: RouteView, s: RouteView) {
    multiset(r.queues) == multiset(s.queues) && multiset(r.brokers) == multiset(s.brokers)
  }

  ghost predicate AddressesFilled(r: RouteView) {
    forall b | b in r.brokers :: NoEmptyAddress(b)
  }

  /** Records of one name are equal to each other, in the sense of BrokerData.Equals. */
  ghost predicate NamesakesEqual(brokers: seq<BrokerView>) {
    forall b, bd | b in brokers && bd in brokers && b.name == bd.name :: BrokerEquals(b, bd)
  }

  /** Within a list, records of one name cannot be told apart by the comparison. */
  ghost predicate NamesUnambiguous(r: RouteView) {
    NamesTell(r.queues, QueueName) && NamesakesEqual(r.brokers)
  }

  lemma {:induction false} PairwiseEqual(s: seq<BrokerView>, t: seq<BrokerView>)
    requires SameBrokers(s, t) && forall b | b in s :: NoEmptyAddress(b)
    ensures s == t
  {
    forall i | 0 <= i < |s| ensures s[i] == t[i] {
      FilledEquals(s[i], t[i]);
    }
  }

  lemma EqualsItself(b: BrokerView)
    ensures BrokerEquals(b, b)
  {
  }

  lemma SelfEqual(s: seq<BrokerView>)
    ensures SameBrokers(s, s)
  {
  }

  /** The outcomes of the four unstable sorts. */
  ghost predicate Sorted(r: RouteView, rq: seq<QueueData>, rb: seq<BrokerView>) {
    SortOf(rq, r.queues, QueueName) && SortOf(rb, r.brokers, BrokerName)
  }

  predicate FoundUnchanged(rq: seq<QueueData>, rb: seq<BrokerView>, sq: seq<QueueData>, sb: seq<BrokerView>) {
    SameBrokers(rb, sb) && rq == sq
  }

  lemma NamesakesPairUp(brokers: seq<BrokerView>, rb: seq<BrokerView>, sb: seq<BrokerView>)
    requires NamesakesEqual(brokers) && SortOf(rb, brokers, BrokerName) && SortOf(sb, brokers, BrokerName)
    ensures SameBrokers(rb, sb)
  {
    hide AtMost, BrokerEquals;
    SortsNameAlike(rb, sb, BrokerName);
    forall i | 0 <= i < |rb| ensures BrokerEquals(rb[i], sb[i]) {
      assert rb[i] in multiset(brokers) && sb[i] in multiset(brokers);
      assert BrokerName(rb[i]) == BrokerName(sb[i]);
    }
  }

  /** Whatever the unstable sorts leave, two routes that compare as unchanged hold the same records; and routes
      with unambiguous names that hold the same records compare as unchanged. List order plays no part. */
  lemma ComparisonIgnoresOrder(r: RouteView, s: RouteView, rq: seq<QueueData>, rb: seq<BrokerView>,
                               sq: seq<QueueData>, sb: seq<BrokerView>)
    requires Sorted(r, rq, rb) && Sorted(s, sq, sb)
    ensures AddressesFilled(r) && FoundUnchanged(rq, rb, sq, sb) ==> SameRecords(r, s)
    ensures NamesUnambiguous(r) && SameRecords(r, s) ==> FoundUnchanged(rq, rb, sq, sb)
  {
    if AddressesFilled(r) && SameBrokers(rb, sb) {
      forall b | b in rb ensures NoEmptyAddress(b) {
        assert b in multiset(r.brokers);
      }
      PairwiseEqual(rb, sb);
    }
    if NamesUnambiguous(r) && SameRecords(r, s) {
      NamesTellPermuted(r.queues, rq, QueueName);
      SortByNameIsUnique(rq, sq, QueueName);
      NamesakesPairUp(r.brokers, rb, sb);
    }
  }

  /** No change of a route goes unseen, whatever the sorts leave, exactly when its addresses are filled. */
  lemma ChangesSeenIff(r: RouteView)
    ensures (forall s, rq, rb, sq, sb | Sorted(r, rq, rb) && Sorted(s, sq, sb) && FoundUnchanged(rq, rb, sq, sb) :: SameRecords(r, s))
            <==> AddressesFilled(r)
  {
    hide SortOf, SameBrokers, SameRecords;
    if AddressesFilled(r) {
      forall s, rq, rb, sq, sb | Sorted(r, rq, rb) && Sorted(s, sq, sb) && FoundUnchanged(rq, rb, sq, sb) ensures SameRecords(r, s) {
        ComparisonIgnoresOrder(r, s, rq, rb, sq, sb);
      }
    } else {
      var s, rq, rb, sb := UnseenChange(r);
      assert Sorted(r, rq, rb) && Sorted(s, rq, sb) && FoundUnchanged(rq, rb, rq, sb);
    }
  }

  lemma UnseenChange(r: RouteView) returns (s: RouteView, rq: seq<QueueData>, rb: seq<BrokerView>, sb: seq<BrokerView>)
    requires !AddressesFilled(r)
    ensures Sorted(r, rq, rb) && Sorted(s, rq, sb) && FoundUnchanged(rq, rb, rq, sb) && !SameRecords(r, s)
  {
    hide AtMost, BrokerEquals, NoEmptyAddress;
    rq := SomeSort(r.queues, QueueName);
    rb := SomeSort(r.brokers, BrokerName);
    var b :| b in r.brokers && !NoEmptyAddress(b);
    assert b in multiset(rb);
    var i :| 0 <= i < |rb| && rb[i] == b;
    var bd := EmptyAddressEqualsMissing(b);
    sb := rb[i := bd];
    s := RouteView(rq, sb);
    SelfEqual(rb);
    assert forall j | 0 <= j < |sb| :: BrokerName(sb[j]) == BrokerName(rb[j]);
    assert multiset(sb) == multiset(rb)[b := multiset(rb)[b] - 1][bd := multiset(rb)[bd] + 1];
  }

  /** A route is found unchanged against itself, whatever the sorts leave, exactly when no two queue records of one name
      differ and no two broker records of one name fail to be equal. */
  lemma UnchangedAgainstItselfIff(r: RouteView)
    ensures (forall rq, rb, sq, sb | Sorted(r, rq, rb) && Sorted(r, sq, sb) :: FoundUnchanged(rq, rb, sq, sb))
            <==> NamesUnambiguous(r)
    ensures AddressesFilled(r) ==> (NamesakesEqual(r.brokers) <==> NamesTell(r.brokers, BrokerName))
  {
    hide AtMost, BrokerEquals, SortOf;
    if NamesUnambiguous(r) {
      forall rq, rb, sq, sb | Sorted(r, rq, rb) && Sorted(r, sq, sb) ensures FoundUnchanged(rq, rb, sq, sb) {
        ComparisonIgnoresOrder(r, r, rq, rb, sq, sb);
      }
    } else if !NamesTell(r.queues, QueueName) {
      var p, q := TwoSorts(r.queues, QueueName);
      var rb := SomeSort(r.brokers, BrokerName);
      assert Sorted(r, p, rb) && Sorted(r, q, rb) && !FoundUnchanged(p, rb, q, rb);
    } else {
      var p, q := NamesakesSwapped(r.brokers);
      var rq := SomeSort(r.queues, QueueName);
      assert Sorted(r, rq, p) && Sorted(r, rq, q) && !FoundUnchanged(rq, p, rq, q);
    }
    if AddressesFilled(r) {
      FilledNamesakes(r.brokers);
    }
  }

  /** Two records of one name that are not equal meet when a sort swaps them. */
  lemma NamesakesSwapped(brokers: seq<BrokerView>) returns (p: seq<BrokerView>, q: seq<BrokerView>)
    requires !NamesakesEqual(brokers)
    ensures SortOf(p, brokers, BrokerName) && SortOf(q, brokers, BrokerName) && !SameBrokers(p, q)
  {
    hide AtMost, BrokerEquals, DescendingBy;
    var b, bd :| b in brokers && bd in brokers && b.name == bd.name && !BrokerEquals(b, bd);
    p := SomeSort(brokers, BrokerName);
    assert b in multiset(p) && bd in multiset(p);
    var i :| 0 <= i < |p| && p[i] == b;
    var j :| 0 <= j < |p| && p[j] == bd;
    EqualsItself(b);
    SwapNamesakes(p, brokers, BrokerName, i, j);
    q := p[i := p[j]][j := p[i]];
    assert !BrokerEquals(p[i], q[i]);
  }

  lemma FilledNamesakes(brokers: seq<BrokerView>)
    requires forall b | b in brokers :: NoEmptyAddress(b)
    ensures NamesakesEqual(brokers) <==> NamesTell(brokers, BrokerName)
  {
    hide BrokerEquals, NoEmptyAddress;
    forall b, bd | b in brokers ensures BrokerEquals(b, bd) <==> b == bd {
      FilledEquals(b, bd);
    }
    if NamesTell(brokers, BrokerName) {
      forall b, bd | b in brokers && bd in brokers && b.name == bd.name ensures b == bd {
        var i :| 0 <= i < |brokers| && brokers[i] == b;
        var j :| 0 <= j < |brokers| && brokers[j] == bd;
        assert i == j || i < j || j < i;
      }
    }
  }

  ghost function RouteOf(t: TopicRouteData): RouteView
    reads t.queues, t.brokers, t.brokers[..]
  {
    RouteView(t.queues[..], Views(t.brokers[..]))
  }

  lemma ViewsTakeOut(s: seq<BrokerData>, i: nat)
    requires i < |s|
    ensures multiset(Views(s)) == multiset(Views(s[..i] + s[i + 1..])) + multiset{View(s[i])}
  {
    var front, back := Views(s[..i]), Views(s[i + 1..]);
    assert Views(s) == front + [View(s[i])] + back;
    assert Views(s[..i] + s[i + 1..]) == front + back;
  }

  lemma {:induction false} ViewsOfPermutation(s: seq<BrokerData>, t: seq<BrokerData>)
    requires multiset(s) == multiset(t)
    ensures multiset(Views(s)) == multiset(Views(t))
    decreases |s|
  {
    hide Views;
    assert |s| == |multiset(s)| == |multiset(t)| == |t|;
    if s == [] {
      assert t == s;
    } else {
      var b, rest := s[0], s[..0] + s[1..];
      assert b in multiset(t);
      var i :| 0 <= i < |t| && t[i] == b;
      var without := t[..i] + t[i + 1..];
      TakeOut(s, 0);
      TakeOut(t, i);
      ViewsTakeOut(s, 0);
      ViewsTakeOut(t, i);
      ViewsOfPermutation(rest, without);
      assert multiset(Views(s)) == multiset(Views(rest)) + multiset{View(b)};
      assert multiset(Views(t)) == multiset(Views(without)) + multiset{View(b)};
    }
  }

  /** equals, on two routes whose lists have been sorted. */
  method RouteEquals(r: TopicRouteData, s: TopicRouteData) returns (equal: bool)
    ensures equal <==> SameBrokers(Views(r.brokers[..]), Views(s.brokers[..])) && r.queues[..] == s.queues[..]
  {
    if r.brokers.Length != s.brokers.Length {
      return false;
    }
    if r.queues.Length != s.queues.Length {
      return false;
    }
    for idx := 0 to r.brokers.Length
      invariant forall i | 0 <= i < idx :: BrokerEquals(View(r.brokers[i]), View(s.brokers[i]))
    {
      var b, bd := r.brokers[idx], s.brokers[idx];
      if !BrokerEquals(BrokerView(b.cluster, b.name, b.addresses), BrokerView(bd.cluster, bd.name, bd.addresses)) {
        assert Views(r.brokers[..])[idx] == View(b) && Views(s.brokers[..])[idx] == View(bd);
        return false;
      }
    }
    for idx := 0 to r.queues.Length
      invariant forall i | 0 <= i < idx :: r.queues[i] == s.queues[i]
    {
      if r.queues[idx] != s.queues[idx] {
        assert r.queues[..][idx] != s.queues[..][idx];
        return false;
      }
    }
    assert SameBrokers(Views(r.brokers[..]), Views(s.brokers[..]));
    return true;
  }

  /** topicRouteDataIsChange: sorts clones, so it changes no existing object. */
  method TopicRouteDataIsChange(oldData: TopicRouteData?, newData: TopicRouteData?) returns (changed: bool)
    ensures oldData == null || newData == null ==> changed
    ensures oldData != null && newData != null && AddressesFilled(RouteOf(oldData)) && !changed ==>
              SameRecords(RouteOf(oldData), RouteOf(newData))
    ensures oldData != null && newData != null && NamesUnambiguous(RouteOf(oldData)) && changed ==>
              !SameRecords(RouteOf(oldData), RouteOf(newData))
  {
    hide Sorted, SameRecords, AddressesFilled, NamesUnambiguous, SameBrokers;
    if oldData == null || newData == null {
      return true;
    }
    var r := oldData.Clone();
    var s := newData.Clone();
    SortSlice(r.queues, QueueName);
    SortSlice(r.brokers, (b: BrokerData) => b.name);
    SortSlice(s.queues, QueueName);
    SortSlice(s.brokers, (b: BrokerData) => b.name);
    var equal := RouteEquals(r, s);
    changed := !equal;
    SortedRoute(oldData, r);
    SortedRoute(newData, s);
    ComparisonIgnoresOrder(RouteOf(oldData), RouteOf(newData),
                           r.queues[..], Views(r.brokers[..]), s.queues[..], Views(s.brokers[..]));
  }

  lemma SortedRoute(data: TopicRouteData, sorted: TopicRouteData)
    requires multiset(sorted.queues[..]) == multiset(data.queues[..]) && DescendingBy(sorted.queues[..], QueueName)
    requires multiset(sorted.brokers[..]) == multiset(data.brokers[..])
    requires DescendingBy(sorted.brokers[..], (b: BrokerData) => b.name)
    ensures Sorted(RouteOf(data), sorted.queues[..], Views(sorted.brokers[..]))
  {
    ViewsOfPermutation(sorted.brokers[..], data.brokers[..]);
    SortedViews(sorted.brokers[..]);
  }

  lemma SortedViews(bs: seq<BrokerData>)
    requires DescendingBy(bs, (b: BrokerData) => b.name)
    ensures DescendingBy(Views(bs), BrokerName)
  {
    var name := (b: BrokerData) => b.name;
    forall i, j | 0 <= i < j < |bs| ensures AtMost(BrokerName(Views(bs)[j]), BrokerName(Views(bs)[i])) {
      assert AtMost(name(bs[j]), name(bs[i]));
    }
  }
}
