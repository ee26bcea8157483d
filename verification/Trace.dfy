/** rocketmq/client/trace.go: committing a batch of trace contexts, grouped by topic and region and cut into messages. */
module Trace {
  import opened Common
  import opened Bytes
  import opened Text

  const MAX_MSG_SIZE := 128000 - 10 * 1000
  const SPLITTER := "\U{0001}"

  /** The fields of a traced message that decide where its record goes and under which keys. */
  datatype TraceBean = TraceBean(topic: string, msgId: string, keys: string)

  /** A trace context; `transData` is the text its other fields render to. */
  datatype TraceContext = TraceContext(beans: seq<TraceBean>, regionId: string, transData: bytes)

  datatype Record = Record(transData: bytes, transKey: seq<string>)

  /** What one call of sendTraceDataByMQ is given. */
  datatype Message = Message(region: string, keys: set<string>, data: bytes)

  function KeysOfBeans(beans: seq<TraceBean>): seq<string> {
    if beans == [] then []
    else KeysOfBeans(beans[..|beans| - 1]) + [beans[|beans| - 1].msgId] +
         (if beans[|beans| - 1].keys != "" then [beans[|beans| - 1].keys] else [])
  }

  /** marshal2Bean. */
  method Marshal(ctx: TraceContext) returns (r: Record)
    ensures r == Marshalled(ctx)
  {
    var keys: seq<string> := [];
    for i := 0 to |ctx.beans|
      invariant keys == KeysOfBeans(ctx.beans[..i])
    {
      assert ctx.beans[..i + 1][..i] == ctx.beans[..i];
      keys := keys + [ctx.beans[i].msgId];
      if ctx.beans[i].keys != "" {
        keys := keys + [ctx.beans[i].keys];
      }
    }
    assert ctx.beans[..|ctx.beans|] == ctx.beans;
    return Record(ctx.transData, keys);
  }

  function Marshalled(ctx: TraceContext): Record {
    Record(ctx.transData, KeysOfBeans(ctx.beans))
  }

  lemma NoBeanKeys()
    ensures KeysOfBeans([]) == []
  {
  }

  lemma LastBeanKeys(beans: seq<TraceBean>, b: TraceBean)
    ensures KeysOfBeans(beans + [b]) == KeysOfBeans(beans) + (if b.keys == "" then [b.msgId] else [b.msgId, b.keys])
  {
    assert (beans + [b])[..|beans|] == beans;
  }

  /** The record of a context carries its text, and for each bean, one after the other, its message id and then its keys,
      unless they are empty. */
  lemma RecordGrows(ctx: TraceContext, b: TraceBean)
    ensures Marshalled(ctx).transData == ctx.transData && Marshalled(ctx.(beans := [])).transKey == []
    ensures Marshalled(ctx.(beans := ctx.beans + [b])).transKey ==
            Marshalled(ctx).transKey + (if b.keys == "" then [b.msgId] else [b.msgId, b.keys])
  {
    LastBeanKeys(ctx.beans, b);
    NoBeanKeys();
  }

  // ---------------------------------------------------------------------------
  // Cutting one group into messages
  // ---------------------------------------------------------------------------

  function Data(rs: seq<Record>): bytes {
    if rs == [] then [] else Data(rs[..|rs| - 1]) + rs[|rs| - 1].transData
  }

  ghost function KeySet(rs: seq<Record>): set<string> {
    set r, k | r in rs && k in r.transKey :: k
  }

  /** Where flush cuts: `pending` has been written to the builder, `rest` is still to come. */
  function Chunks(pending: seq<Record>, rest: seq<Record>): seq<seq<Record>>
    decreases |rest|
  {
    if rest == [] then (if pending == [] then [] else [pending])
    else
      var grown := pending + [rest[0]];
      if |Data(grown)| > MAX_MSG_SIZE then [grown] + Chunks([], rest[1..]) else Chunks(grown, rest[1..])
  }

  /** A part that is full: it exceeds the limit, but did not before its last record. */
  predicate Fits(part: seq<Record>) {
    part != [] && |Data(part[..|part| - 1])| <= MAX_MSG_SIZE
  }

  /** Nothing lost, repeated or reordered; every part but the last exceeds the limit, and only by its last record. */
  predicate WellCut(parts: seq<seq<Record>>, rs: seq<Record>) {
    && Flatten(parts) == rs
    && (forall i | 0 <= i < |parts| :: Fits(parts[i]))
    && (forall i | 0 <= i < |parts| - 1 :: |Data(parts[i])| > MAX_MSG_SIZE)
  }

  lemma {:induction false} ChunksAreWellCut(pending: seq<Record>, rest: seq<Record>)
    requires |Data(pending)| <= MAX_MSG_SIZE
    ensures WellCut(Chunks(pending, rest), pending + rest)
    ensures rest != [] || pending != [] ==> Chunks(pending, rest) != []
    decreases |rest|
  {
    if rest == [] {
      if pending != [] {
        DataGrows(pending, |pending| - 1);
        assert Flatten([pending]) == pending + Flatten([]);
      }
      assert pending + rest == pending;
    } else {
      var grown := pending + [rest[0]];
      assert grown[..|grown| - 1] == pending;
      assert pending + rest == grown + rest[1..];
      if |Data(grown)| > MAX_MSG_SIZE {
        ChunksAreWellCut([], rest[1..]);
        assert [] + rest[1..] == rest[1..];
      } else {
        ChunksAreWellCut(grown, rest[1..]);
      }
    }
  }

  /** The limit is 118000 bytes: every message but the last has more, and none has more before its last record. */
  lemma CutAtLimit(rs: seq<Record>)
    ensures var parts := Chunks([], rs);
            && Flatten(parts) == rs
            && (forall i | 0 <= i < |parts| - 1 :: |Data(parts[i])| > 118_000)
            && (forall i | 0 <= i < |parts| :: parts[i] != [] && |Data(parts[i][..|parts[i]| - 1])| <= 118_000)
  {
    hide Chunks, Data;
    WellCutChunks(rs);
    assert forall i | 0 <= i < |Chunks([], rs)| :: Fits(Chunks([], rs)[i]);
  }

  lemma {:induction false} DataGrows(rs: seq<Record>, n: nat)
    requires n <= |rs|
    ensures |Data(rs[..n])| <= |Data(rs)|
    decreases |rs| - n
  {
    if n == |rs| {
      assert rs[..n] == rs;
    } else {
      assert rs[..n + 1][..n] == rs[..n];
      DataGrows(rs, n + 1);
    }
  }

  /** There is only one way to cut a group like that. */
  lemma {:induction false} CutIsUnique(parts: seq<seq<Record>>, others: seq<seq<Record>>, rs: seq<Record>)
    requires WellCut(parts, rs) && WellCut(others, rs)
    ensures parts == others
    decreases |parts|
  {
    hide Data, Fits;
    if parts == [] {
      if others != [] {
        FirstPart(others, rs);
      }
    } else {
      FirstPart(parts, rs);
      if others != [] {
        FirstPart(others, rs);
        if |parts[0]| < |others[0]| {
          BeforeFirstCut(others, rs, |parts[0]|);
          FirstPartIsFull(parts, rs);
        } else if |others[0]| < |parts[0]| {
          BeforeFirstCut(parts, rs, |others[0]|);
          FirstPartIsFull(others, rs);
        }
        var n := |parts[0]|;
        assert parts[0] == rs[..n] == others[0];
        CutIsUnique(parts[1..], others[1..], rs[n..]);
        assert parts == [parts[0]] + parts[1..] && others == [others[0]] + others[1..];
      }
    }
  }

  lemma FirstPart(parts: seq<seq<Record>>, rs: seq<Record>)
    requires WellCut(parts, rs) && parts != []
    ensures 0 < |parts[0]| <= |rs| && parts[0] == rs[..|parts[0]|]
    ensures WellCut(parts[1..], rs[|parts[0]|..])
  {
    assert rs == parts[0] + Flatten(parts[1..]);
    assert Fits(parts[0]);
    assert forall i | 0 <= i < |parts[1..]| :: parts[1..][i] == parts[i + 1];
  }

  /** A first part that is not the whole group exceeds the limit ... */
  lemma FirstPartIsFull(parts: seq<seq<Record>>, rs: seq<Record>)
    requires WellCut(parts, rs) && parts != [] && |parts[0]| < |rs|
    ensures |Data(rs[..|parts[0]|])| > MAX_MSG_SIZE
  {
    FirstPart(parts, rs);
  }

  /** ... and nothing shorter than the first part does. */
  lemma BeforeFirstCut(parts: seq<seq<Record>>, rs: seq<Record>, n: nat)
    requires WellCut(parts, rs) && parts != [] && n < |parts[0]|
    ensures n < |rs| && |Data(rs[..n])| <= MAX_MSG_SIZE
  {
    FirstPart(parts, rs);
    var m := |parts[0]| - 1;
    assert Fits(parts[0]) && parts[0][..m] == rs[..m];
    DataGrows(rs[..m], n);
    assert rs[..m][..n] == rs[..n];
  }

  ghost function Rendered(region: string, parts: seq<seq<Record>>): seq<Message> {
    seq(|parts|, i requires 0 <= i < |parts| => Message(region, KeySet(parts[i]), Data(parts[i])))
  }

  // ---------------------------------------------------------------------------
  // Grouping a batch
  // ---------------------------------------------------------------------------

  function KeyOf(topic: string, region: string): string {
    if region == "" then topic else topic + SPLITTER + region
  }

  /** Reading topic and region back from a key. */
  function Recover(key: string): (string, string) {
    var arr := Split(key, SPLITTER);
    if |arr| > 1 then (arr[0], arr[1]) else (key, "")
  }

  ghost predicate Clean(s: string) {
    !Contains(s, SPLITTER)
  }

  lemma SplitOfClean(s: string)
    requires Clean(s)
    ensures Split(s, SPLITTER) == [s]
  {
    assert IndexFrom(s, SPLITTER, 0) == -1;
  }

  lemma SplitOfUnclean(s: string)
    requires !Clean(s)
    ensures |Split(s, SPLITTER)| > 1 && Split(s, SPLITTER)[0] != s && Split(s, SPLITTER)[1] != s
  {
    var i: nat :| OccursAt(s, SPLITTER, i);
    assert IndexFrom(s, SPLITTER, 0) != -1;
    SplitIsClean(s, SPLITTER);
    assert Split(s, SPLITTER)[0] in Split(s, SPLITTER) && Split(s, SPLITTER)[1] in Split(s, SPLITTER);
  }

  /** A key gives back the topic and the region it was made of exactly when neither contains the splitter. */
  lemma RecoverIff(topic: string, region: string)
    ensures Recover(KeyOf(topic, region)) == (topic, region) <==> Clean(topic) && Clean(region)
  {
    var key := KeyOf(topic, region);
    assert Clean("") by {
      assert forall i: nat :: !OccursAt("", SPLITTER, i);
    }
    if region == "" {
      if Clean(topic) {
        SplitOfClean(topic);
      } else {
        SplitOfUnclean(topic);
      }
    } else {
      assert key[|topic|..|topic| + 1] == SPLITTER;
      assert OccursAt(key, SPLITTER, |topic|);
      SplitOfUnclean(key);
      SplitIsClean(key, SPLITTER);
      assert Split(key, SPLITTER)[0] in Split(key, SPLITTER) && Split(key, SPLITTER)[1] in Split(key, SPLITTER);
      if Clean(topic) && Clean(region) {
        FirstOccurrence(topic, SPLITTER, region);
        assert key[..|topic|] == topic && key[|topic| + 1..] == region;
        SplitOfClean(region);
      }
    }
  }

  function ContextKey(ctx: TraceContext): string
    requires ctx.beans != []
  {
    KeyOf(ctx.beans[0].topic, ctx.regionId)
  }

  ghost predicate AllTraced(ctxs: seq<TraceContext>) {
    forall ctx | ctx in ctxs :: ctx.beans != []
  }

  /** The records of the contexts with this key, in order. */
  function Group(ctxs: seq<TraceContext>, key: string): seq<Record> {
    if ctxs == [] then []
    else
      var last := ctxs[|ctxs| - 1];
      Group(ctxs[..|ctxs| - 1], key) + if last.beans != [] && ContextKey(last) == key then [Marshalled(last)] else []
  }

  ghost predicate Grouped(keyed: map<string, seq<Record>>, ctxs: seq<TraceContext>) {
    forall k :: (k in keyed <==> Group(ctxs, k) != []) && (k in keyed ==> keyed[k] == Group(ctxs, k))
  }

  /** What flushing the groups in this order sends. */
  ghost function SentFor(order: seq<string>, ctxs: seq<TraceContext>): seq<Message> {
    if order == [] then []
    else
      SentFor(order[..|order| - 1], ctxs) + GroupMessages(order[|order| - 1], ctxs)
  }

  ghost function GroupMessages(key: string, ctxs: seq<TraceContext>): seq<Message> {
    Rendered(Recover(key).1, Chunks([], Group(ctxs, key)))
  }

  class Dispatcher {
    /** The calls of sendTraceDataByMQ so far. */
    var sent: seq<Message>

    constructor ()
      ensures sent == []
    {
      sent := [];
    }

    /** flush. The topic it is given does not reach what it sends. */
    method Flush(topic: string, region: string, data: seq<Record>)
      modifies this
      ensures sent == old(sent) + Rendered(region, Chunks([], data))
    {
      hide Data, KeySet, Chunks, Rendered;
      NothingPending(region);
      if data == [] {
        return;
      }
      var keys: set<string>, builder: bytes, flushed := {}, [], true;
      ghost var pending, done: seq<seq<Record>> := [], [];
      assert data[0..] == data;
      for i := 0 to |data|
        invariant flushed <==> pending == []
        invariant keys == KeySet(pending) && builder == Data(pending)
        invariant sent == old(sent) + Rendered(region, done)
        invariant Chunks([], data) == done + Chunks(pending, data[i..])
      {
        var bean := data[i];
        keys := AddKeys(keys, bean.transKey);
        builder := builder + bean.transData;
        flushed := false;
        OneMore(pending, data, i);
        pending := pending + [bean];
        if |builder| > MAX_MSG_SIZE {
          sent := sent + [Message(region, keys, builder)];
          builder, keys, flushed := [], {}, true;
          RenderedAppend(region, done, pending);
          pending, done := [], done + [pending];
        }
      }
      assert data[|data|..] == [];
      assert Chunks([], data) == if pending == [] then done else done + [pending];
      if !flushed {
        sent := sent + [Message(region, keys, builder)];
        RenderedAppend(region, done, pending);
      }
    }

    /** batchCommit; `order` is the order in which the range over the map visits the groups. One context without
        beans makes it send nothing at all. */
    method BatchCommit(ctxs: seq<TraceContext>) returns (order: seq<string>)
      modifies this
      ensures !AllTraced(ctxs) ==> order == [] && sent == old(sent)
      ensures AllTraced(ctxs) ==> Distinct(order) && forall k :: k in order <==> Group(ctxs, k) != []
      ensures sent == old(sent) + SentFor(order, ctxs)
    {
      hide Group, KeyOf, Recover, Marshalled, Rendered, Chunks;
      order := [];
      var keyed: map<string, seq<Record>> := map[];
      NothingGrouped();
      for i := 0 to |ctxs|
        invariant sent == old(sent) && Grouped(keyed, ctxs[..i]) && forall ctx | ctx in ctxs[..i] :: ctx.beans != []
      {
        var ctx := ctxs[i];
        if ctx.beans == [] {
          return;
        }
        var key := KeyOf(ctx.beans[0].topic, ctx.regionId);
        var r := Marshal(ctx);
        GroupedGrows(keyed, ctxs[..i], ctx);
        assert ctxs[..i + 1] == ctxs[..i] + [ctx];
        keyed := keyed[key := (if key in keyed then keyed[key] else []) + [r]];
      }
      assert ctxs[..|ctxs|] == ctxs;
      var rest := keyed.Keys;
      while rest != {}
        invariant rest <= keyed.Keys && Distinct(order)
        invariant forall k :: k in order <==> k in keyed && k !in rest
        invariant sent == old(sent) + SentFor(order, ctxs)
        decreases rest
      {
        var k :| k in rest;
        var (topic, region) := Recover(k);
        Flush(topic, region, keyed[k]);
        assert (order + [k])[..|order|] == order;
        order := order + [k];
        rest := rest - {k};
      }
    }
  }

  method AddKeys(keys: set<string>, more: seq<string>) returns (all: set<string>)
    ensures all == keys + (set k | k in more)
  {
    all := keys;
    for i := 0 to |more|
      invariant all == keys + (set k | k in more[..i])
    {
      all := all + {more[i]};
    }
  }

  lemma NothingPending(region: string)
    ensures KeySet([]) == {} && Data([]) == [] && Rendered(region, []) == []
    ensures forall pending :: Chunks(pending, []) == if pending == [] then [] else [pending]
  {
  }

  /** Writing one more record to the builder. */
  lemma OneMore(pending: seq<Record>, data: seq<Record>, i: nat)
    requires i < |data|
    ensures var grown := pending + [data[i]];
            && KeySet(grown) == KeySet(pending) + (set k | k in data[i].transKey)
            && Data(grown) == Data(pending) + data[i].transData
            && Chunks(pending, data[i..]) ==
               if |Data(grown)| > MAX_MSG_SIZE then [grown] + Chunks([], data[i + 1..]) else Chunks(grown, data[i + 1..])
  {
    var grown := pending + [data[i]];
    assert grown[..|grown| - 1] == pending;
    assert data[i..][0] == data[i] && data[i..][1..] == data[i + 1..];
    assert forall r :: r in grown <==> r in pending || r == data[i];
  }

  lemma RenderedAppend(region: string, parts: seq<seq<Record>>, part: seq<Record>)
    ensures Rendered(region, parts + [part]) ==
            Rendered(region, parts) + [Message(region, KeySet(part), Data(part))]
  {
  }

  lemma NothingGrouped()
    ensures Grouped(map[], [])
  {
  }

  lemma GroupedGrows(keyed: map<string, seq<Record>>, ctxs: seq<TraceContext>, ctx: TraceContext)
    requires Grouped(keyed, ctxs) && ctx.beans != []
    ensures var key := ContextKey(ctx);
            Grouped(keyed[key := (if key in keyed then keyed[key] else []) + [Marshalled(ctx)]], ctxs + [ctx])
  {
    assert (ctxs + [ctx])[..|ctxs|] == ctxs;
  }

  // ---------------------------------------------------------------------------
  // What a batch sends
  // ---------------------------------------------------------------------------

  /** The records of one topic and region, in order. */
  function RecordsOf(ctxs: seq<TraceContext>, topic: string, region: string): seq<Record> {
    if ctxs == [] then []
    else
      var last := ctxs[|ctxs| - 1];
      RecordsOf(ctxs[..|ctxs| - 1], topic, region) +
      if last.beans != [] && last.beans[0].topic == topic && last.regionId == region then [Marshalled(last)] else []
  }

  /** What has been sent to one region. */
  function MessagesTo(sent: seq<Message>, region: string): seq<Message> {
    if sent == [] then []
    else
      var last := sent[|sent| - 1];
      MessagesTo(sent[..|sent| - 1], region) + if last.region == region then [last] else []
  }

  /** The messages to the region carry the records of its topics, one topic after the other and each record once:
      those of a topic in order and cut as WellCut says, every message with exactly the keys of its records. */
  ghost predicate ServedBy(topics: seq<string>, cuts: seq<seq<seq<Record>>>, order: seq<string>, ctxs: seq<TraceContext>,
                           region: string) {
    && Distinct(topics)
    && (forall t :: t in topics <==> RecordsOf(ctxs, t, region) != [])
    && |cuts| == |topics|
    && (forall i | 0 <= i < |topics| :: WellCut(cuts[i], RecordsOf(ctxs, topics[i], region)))
    && MessagesTo(SentFor(order, ctxs), region) == Rendered(region, Flatten(cuts))
  }

  ghost predicate RegionServed(order: seq<string>, ctxs: seq<TraceContext>, region: string) {
    exists topics, cuts :: ServedBy(topics, cuts, order, ctxs, region)
  }

  /** The region comes back from the key. */
  ghost predicate OwnRegion(topic: string, region: string) {
    if Clean(topic) then Clean(region) else Split(topic, SPLITTER)[1] == region
  }

  ghost predicate AllOwn(ctxs: seq<TraceContext>) {
    forall ctx | ctx in ctxs :: ctx.beans != [] && OwnRegion(ctx.beans[0].topic, ctx.regionId)
  }

  lemma {:induction false} SplitAppend(s: string, t: string)
    ensures Split(s + SPLITTER + t, SPLITTER) == Split(s, SPLITTER) + Split(t, SPLITTER)
    decreases |s|
  {
    hide Split, Contains;
    var found, head, tail := SplitStep(s, SPLITTER);
    if found {
      SplitAppend(tail, t);
      assert s + SPLITTER + t == head + SPLITTER + (tail + SPLITTER + t);
      SplitHead(head, SPLITTER, tail + SPLITTER + t);
      assert [head] + Split(tail, SPLITTER) + Split(t, SPLITTER) == [head] + (Split(tail, SPLITTER) + Split(t, SPLITTER));
    } else {
      SplitHead(s, SPLITTER, t);
    }
  }

  lemma EmptyIsClean()
    ensures Clean("")
  {
    assert forall i: nat :: !OccursAt("", SPLITTER, i);
  }

  /** A context is sent to its own region exactly when topic and region are clean or the topic brings the region along
      as its second piece. The topic that comes back plays no role. */
  lemma OwnRegionIff(topic: string, region: string)
    ensures Recover(KeyOf(topic, region)).1 == region <==> OwnRegion(topic, region)
  {
    EmptyIsClean();
    if Clean(topic) {
      SplitOfClean(topic);
    } else {
      SplitOfUnclean(topic);
    }
    if region != "" {
      SplitAppend(topic, region);
      if Clean(region) {
        SplitOfClean(region);
      } else {
        SplitIsClean(region, SPLITTER);
        assert Split(region, SPLITTER)[0] in Split(region, SPLITTER);
      }
    }
  }

  lemma {:induction false} MessagesToAppend(s: seq<Message>, t: seq<Message>, region: string)
    ensures MessagesTo(s + t, region) == MessagesTo(s, region) + MessagesTo(t, region)
    decreases |t|
  {
    if t == [] {
      assert s + t == s;
    } else {
      MessagesToAppend(s, t[..|t| - 1], region);
      assert (s + t)[..|s + t| - 1] == s + t[..|t| - 1];
    }
  }

  lemma {:induction false} MessagesToOne(sent: seq<Message>, region: string, r: string)
    requires forall m | m in sent :: m.region == region
    ensures MessagesTo(sent, r) == if r == region then sent else []
  {
    if sent != [] {
      MessagesToOne(sent[..|sent| - 1], region, r);
      assert sent[|sent| - 1] in sent;
    }
  }

  lemma {:induction false} InGroup(ctxs: seq<TraceContext>, key: string, r: Record)
    ensures r in Group(ctxs, key) <==>
            exists ctx :: ctx in ctxs && ctx.beans != [] && ContextKey(ctx) == key && r == Marshalled(ctx)
  {
    hide ContextKey, Marshalled;
    if ctxs != [] {
      var rest, last := ctxs[..|ctxs| - 1], ctxs[|ctxs| - 1];
      assert ctxs == rest + [last];
      InGroup(rest, key, r);
    }
  }

  lemma {:induction false} InRecords(ctxs: seq<TraceContext>, topic: string, region: string, r: Record)
    ensures r in RecordsOf(ctxs, topic, region) <==>
            exists ctx :: ctx in ctxs && ctx.beans != [] && ctx.beans[0].topic == topic && ctx.regionId == region &&
                          r == Marshalled(ctx)
  {
    hide Marshalled;
    if ctxs != [] {
      var rest, last := ctxs[..|ctxs| - 1], ctxs[|ctxs| - 1];
      assert ctxs == rest + [last];
      InRecords(rest, topic, region, r);
    }
  }

  lemma SameTopic(topic: string, other: string, region: string)
    requires KeyOf(topic, region) == KeyOf(other, region)
    ensures topic == other
  {
    if region != "" {
      var s, t := topic + SPLITTER + region, other + SPLITTER + region;
      assert s == t && |topic| == |other|;
      assert topic == s[..|topic|] && other == t[..|topic|];
    }
  }

  /** Among contexts that keep their regions, a key stands for one pair. */
  lemma {:induction false} GroupIsRecords(ctxs: seq<TraceContext>, topic: string, region: string)
    requires AllOwn(ctxs) && OwnRegion(topic, region)
    ensures Group(ctxs, KeyOf(topic, region)) == RecordsOf(ctxs, topic, region)
  {
    hide KeyOf, Recover, OwnRegion;
    if ctxs != [] {
      var last := ctxs[|ctxs| - 1];
      GroupIsRecords(ctxs[..|ctxs| - 1], topic, region);
      assert last in ctxs;
      OwnRegionIff(topic, region);
      OwnRegionIff(last.beans[0].topic, last.regionId);
      if ContextKey(last) == KeyOf(topic, region) {
        SameTopic(last.beans[0].topic, topic, region);
      }
    }
  }

  lemma TopicOfKey(ctxs: seq<TraceContext>, key: string) returns (topic: string)
    requires AllOwn(ctxs) && Group(ctxs, key) != []
    ensures OwnRegion(topic, Recover(key).1) && key == KeyOf(topic, Recover(key).1)
    ensures Group(ctxs, key) == RecordsOf(ctxs, topic, Recover(key).1)
  {
    hide KeyOf, Recover, OwnRegion, Marshalled, Group, RecordsOf;
    var r := Group(ctxs, key)[0];
    InGroup(ctxs, key, r);
    var ctx :| ctx in ctxs && ctx.beans != [] && ContextKey(ctx) == key;
    topic := ctx.beans[0].topic;
    OwnRegionIff(topic, ctx.regionId);
    GroupIsRecords(ctxs, topic, ctx.regionId);
  }

  lemma MessagesOfGroup(key: string, ctxs: seq<TraceContext>, region: string)
    ensures MessagesTo(GroupMessages(key, ctxs), region) ==
            if Recover(key).1 == region then Rendered(region, Chunks([], Group(ctxs, key))) else []
  {
    hide Recover, Group, Chunks, KeySet, Data;
    MessagesToOne(GroupMessages(key, ctxs), Recover(key).1, region);
  }

  lemma RenderedJoin(region: string, parts: seq<seq<Record>>, more: seq<seq<Record>>)
    ensures Rendered(region, parts + more) == Rendered(region, parts) + Rendered(region, more)
  {
  }

  lemma WellCutChunks(rs: seq<Record>)
    ensures WellCut(Chunks([], rs), rs)
  {
    ChunksAreWellCut([], rs);
    assert [] + rs == rs;
  }

  /** One topic for each group of the region, in the order of the groups. */
  lemma {:induction false} TopicsOfRegion(order: seq<string>, ctxs: seq<TraceContext>, region: string)
    returns (topics: seq<string>, cuts: seq<seq<seq<Record>>>)
    requires AllOwn(ctxs) && Distinct(order) && forall k | k in order :: Group(ctxs, k) != []
    ensures Distinct(topics) && |cuts| == |topics|
    ensures forall t :: t in topics <==> OwnRegion(t, region) && KeyOf(t, region) in order
    ensures forall i | 0 <= i < |topics| :: WellCut(cuts[i], RecordsOf(ctxs, topics[i], region))
    ensures MessagesTo(SentFor(order, ctxs), region) == Rendered(region, Flatten(cuts))
  {
    hide KeyOf, Recover, OwnRegion, Group, RecordsOf, Chunks, WellCut, AllOwn, Rendered, GroupMessages;
    if order == [] {
      topics, cuts := [], [];
      assert Rendered(region, []) == [] by {
        NothingPending(region);
      }
    } else {
      var k, front := order[|order| - 1], order[..|order| - 1];
      assert order == front + [k];
      topics, cuts := TopicsOfRegion(front, ctxs, region);
      MessagesToAppend(SentFor(front, ctxs), GroupMessages(k, ctxs), region);
      MessagesOfGroup(k, ctxs, region);
      var topic := TopicOfKey(ctxs, k);
      forall t | OwnRegion(t, region) ensures KeyOf(t, region) == k <==> Recover(k).1 == region && t == topic {
        OwnRegionIff(t, region);
        if KeyOf(t, region) == k {
          SameTopic(t, topic, region);
        }
      }
      if Recover(k).1 == region {
        var cut := Chunks([], Group(ctxs, k));
        WellCutChunks(Group(ctxs, k));
        FlattenSnoc(cuts, cut);
        RenderedJoin(region, Flatten(cuts), cut);
        assert topic !in topics;
        topics, cuts := topics + [topic], cuts + [cut];
      }
    }
  }

  /** Committing a batch whose contexts keep their regions sends every record exactly once, to its own region and in
      order. The order in which the groups are visited only decides which topic comes first. */
  lemma EachRecordSentOnce(order: seq<string>, ctxs: seq<TraceContext>, region: string)
    requires AllOwn(ctxs) && Distinct(order) && forall k :: k in order <==> Group(ctxs, k) != []
    ensures RegionServed(order, ctxs, region)
  {
    hide KeyOf, Group, RecordsOf, WellCut, OwnRegion, MessagesTo, SentFor, Rendered;
    var topics, cuts := TopicsOfRegion(order, ctxs, region);
    forall t ensures t in topics <==> RecordsOf(ctxs, t, region) != [] {
      if OwnRegion(t, region) {
        GroupIsRecords(ctxs, t, region);
      } else if RecordsOf(ctxs, t, region) != [] {
        InRecords(ctxs, t, region, RecordsOf(ctxs, t, region)[0]);
      }
    }
    assert ServedBy(topics, cuts, order, ctxs, region);
  }

  /** The same contexts with other texts. */
  function Filled(ctxs: seq<TraceContext>, texts: seq<bytes>): seq<TraceContext>
    requires |texts| == |ctxs|
  {
    seq(|ctxs|, i requires 0 <= i < |ctxs| => ctxs[i].(transData := texts[i]))
  }

  lemma FilledKeepsKeys(ctxs: seq<TraceContext>, texts: seq<bytes>, key: string)
    requires |texts| == |ctxs|
    ensures Group(Filled(ctxs, texts), key) != [] <==> Group(ctxs, key) != []
  {
    hide ContextKey, Marshalled, Group;
    var filled := Filled(ctxs, texts);
    forall i | 0 <= i < |ctxs| && ctxs[i].beans != []
      ensures ContextKey(filled[i]) == ContextKey(ctxs[i])
    {
      SameKey(filled[i], ctxs[i]);
    }
    if Group(ctxs, key) != [] {
      InGroup(ctxs, key, Group(ctxs, key)[0]);
      var i :| 0 <= i < |ctxs| && ctxs[i].beans != [] && ContextKey(ctxs[i]) == key;
      InGroup(filled, key, Marshalled(filled[i]));
    }
    if Group(filled, key) != [] {
      InGroup(filled, key, Group(filled, key)[0]);
      var i :| 0 <= i < |filled| && filled[i].beans != [] && ContextKey(filled[i]) == key;
      InGroup(ctxs, key, Marshalled(ctxs[i]));
    }
  }

  lemma SameKey(ctx: TraceContext, other: TraceContext)
    requires ctx.beans == other.beans != [] && ctx.regionId == other.regionId
    ensures ContextKey(ctx) == ContextKey(other)
  {
  }

  /** What a region is sent was rendered from records that were routed to it. */
  lemma {:induction false} SentFromGroup(order: seq<string>, ctxs: seq<TraceContext>, region: string, m: Message)
    requires m in MessagesTo(SentFor(order, ctxs), region) && m.data != []
    ensures exists ctx :: ctx in ctxs && ctx.beans != [] && Recover(ContextKey(ctx)).1 == region && ctx.transData != []
  {
    hide Recover, Group, Chunks, GroupMessages, ContextKey;
    if order != [] {
      var k, front := order[|order| - 1], order[..|order| - 1];
      MessagesToAppend(SentFor(front, ctxs), GroupMessages(k, ctxs), region);
      MessagesOfGroup(k, ctxs, region);
      if m in MessagesTo(SentFor(front, ctxs), region) {
        SentFromGroup(front, ctxs, region, m);
      } else {
        var parts := Chunks([], Group(ctxs, k));
        var i :| 0 <= i < |parts| && m.data == Data(parts[i]);
        var r := SomeText(parts[i]);
        WellCutChunks(Group(ctxs, k));
        InFlatten(parts, i, r);
        InGroup(ctxs, k, r);
      }
    }
  }

  lemma {:induction false} SomeText(rs: seq<Record>) returns (r: Record)
    requires Data(rs) != []
    ensures r in rs && r.transData != []
  {
    r := rs[|rs| - 1];
    if r.transData == [] {
      r := SomeText(rs[..|rs| - 1]);
    }
  }

  lemma {:induction false} HasText(rs: seq<Record>, r: Record)
    requires r in rs && r.transData != []
    ensures Data(rs) != []
  {
    var rest, last := rs[..|rs| - 1], rs[|rs| - 1];
    assert rs == rest + [last];
    if r != last {
      HasText(rest, r);
    }
  }

  lemma {:induction false} InFlatten<T>(parts: seq<seq<T>>, i: nat, x: T)
    requires i < |parts| && x in parts[i]
    ensures x in Flatten(parts)
  {
    if i > 0 {
      InFlatten(parts[1..], i - 1, x);
    }
  }

  lemma {:induction false} FromFlatten<T>(parts: seq<seq<T>>, x: T) returns (i: nat)
    requires x in Flatten(parts)
    ensures i < |parts| && x in parts[i]
  {
    if x in parts[0] {
      i := 0;
    } else {
      i := FromFlatten(parts[1..], x);
      i := i + 1;
    }
  }

  /** A served region is sent the text of each of its contexts. */
  lemma ServedIsSent(order: seq<string>, ctxs: seq<TraceContext>, ctx: TraceContext) returns (m: Message)
    requires ctx in ctxs && ctx.beans != [] && ctx.transData != [] && RegionServed(order, ctxs, ctx.regionId)
    ensures m in MessagesTo(SentFor(order, ctxs), ctx.regionId) && m.data != []
  {
    hide RecordsOf, SentFor, MessagesTo, Data, KeySet, Fits;
    var topic, region, r := ctx.beans[0].topic, ctx.regionId, Marshalled(ctx);
    var topics, cuts :| ServedBy(topics, cuts, order, ctxs, region);
    InRecords(ctxs, topic, region, r);
    var i :| 0 <= i < |topics| && topics[i] == topic;
    var j := FromFlatten(cuts[i], r);
    InFlatten(cuts, i, cuts[i][j]);
    var n :| 0 <= n < |Flatten(cuts)| && Flatten(cuts)[n] == cuts[i][j];
    HasText(cuts[i][j], r);
    m := Rendered(region, Flatten(cuts))[n];
  }

  /** When only the context that loses its region has a text, that text does not reach the region. */
  lemma SentElsewhere(order: seq<string>, ctxs: seq<TraceContext>, i: nat) returns (texts: seq<bytes>)
    requires AllTraced(ctxs) && i < |ctxs| && !OwnRegion(ctxs[i].beans[0].topic, ctxs[i].regionId)
    ensures |texts| == |ctxs| && !RegionServed(order, Filled(ctxs, texts), ctxs[i].regionId)
  {
    hide Group, RegionServed, OwnRegion, MessagesTo, SentFor, KeyOf, Recover;
    texts := seq(|ctxs|, n => if n == i then [0] else []);
    var filled := Filled(ctxs, texts);
    if RegionServed(order, filled, ctxs[i].regionId) {
      var m := ServedIsSent(order, filled, filled[i]);
      SentFromGroup(order, filled, ctxs[i].regionId, m);
      OwnRegionIff(ctxs[i].beans[0].topic, ctxs[i].regionId);
    }
  }

  /** Whatever the texts of its records and the order of its groups, a batch serves every region exactly when each of
      its contexts keeps its region. (A batch with a context without beans sends nothing.) */
  lemma RegionsServedIff(order: seq<string>, ctxs: seq<TraceContext>)
    requires AllTraced(ctxs) && Distinct(order) && forall k :: k in order <==> Group(ctxs, k) != []
    ensures (forall texts: seq<bytes>, region | |texts| == |ctxs| :: RegionServed(order, Filled(ctxs, texts), region)) <==>
            AllOwn(ctxs)
  {
    hide Group, RegionServed, OwnRegion, MessagesTo, SentFor, KeyOf, Recover;
    if AllOwn(ctxs) {
      forall texts: seq<bytes>, region | |texts| == |ctxs| ensures RegionServed(order, Filled(ctxs, texts), region) {
        forall k ensures k in order <==> Group(Filled(ctxs, texts), k) != [] {
          FilledKeepsKeys(ctxs, texts, k);
        }
        EachRecordSentOnce(order, Filled(ctxs, texts), region);
      }
    } else {
      var i :| 0 <= i < |ctxs| && !OwnRegion(ctxs[i].beans[0].topic, ctxs[i].regionId);
      var texts := SentElsewhere(order, ctxs, i);
    }
  }

  /** Two different pairs share a key once a topic contains the splitter, and their records are sent as one group. */
  lemma SplitterMergesGroups(a: string, b: string, c: string)
    requires b != "" && c != ""
    ensures KeyOf(a + [1 as char] + b, c) == KeyOf(a, b + [1 as char] + c)
  {
    assert a + SPLITTER + b + SPLITTER + c == a + SPLITTER + (b + SPLITTER + c);
  }
}
