/** Row events of a source table, and the parts of a parameterised statement that both replayers build. */
module Replay {
  import opened Common

  /** A column value of a row event; `None` in a row is NULL. */
  datatype Value = Number(n: int) | Text(s: string)
  type Row = seq<Option<Value>>

  /** A row as a database stores it once its values have been rendered to text. */
  type StoredRow = seq<Option<string>>

  datatype RowEvent = Inserted(row: Row) | Updated(before: Row, after: Row) | Deleted(row: Row)

  /** `keys` are the positions of the primary-key columns. */
  datatype TableInfo = TableInfo(columns: seq<string>, keys: set<nat>)

  /** ValueToString for a column: any function. */
  type Renderer = (nat, Value) -> string

  ghost predicate TableOk(t: TableInfo) {
    Distinct(t.columns) && t.keys != {} && forall k | k in t.keys :: k < |t.columns|
  }

  ghost predicate RowOk(t: TableInfo, row: Row) {
    |row| == |t.columns| && forall k | k in t.keys && k < |row| :: row[k].Some?
  }

  ghost predicate SameKey(t: TableInfo, r: Row, q: Row) {
    forall k | k in t.keys && k < |r| && k < |q| :: r[k] == q[k]
  }

  /** The contents of a table with a non-null unique primary key. */
  ghost predicate ContentsOk(t: TableInfo, rows: set<Row>) {
    && (forall r | r in rows :: RowOk(t, r))
    && (forall r, q | r in rows && q in rows && SameKey(t, r, q) :: r == q)
  }

  ghost predicate NewKey(t: TableInfo, rows: set<Row>, row: Row) {
    forall q | q in rows :: !SameKey(t, q, row)
  }

  /** An event the source table can emit. */
  ghost predicate Valid(t: TableInfo, rows: set<Row>, e: RowEvent) {
    match e
    case Inserted(row) => RowOk(t, row) && NewKey(t, rows, row)
    case Updated(before, after) => before in rows && RowOk(t, after) && NewKey(t, rows - {before}, after)
    case Deleted(row) => row in rows
  }

  function After(rows: set<Row>, e: RowEvent): set<Row> {
    match e
    case Inserted(row) => rows + {row}
    case Updated(before, after) => rows - {before} + {after}
    case Deleted(row) => rows - {row}
  }

  lemma AfterOk(t: TableInfo, rows: set<Row>, e: RowEvent)
    requires ContentsOk(t, rows) && Valid(t, rows, e)
    ensures ContentsOk(t, After(rows, e))
  {
    forall r, q | r in After(rows, e) && q in After(rows, e) && SameKey(t, r, q) ensures r == q {
      assert SameKey(t, q, r);
    }
  }

  ghost predicate ValidRun(t: TableInfo, rows: set<Row>, events: seq<RowEvent>)
    decreases |events|
  {
    events == [] ||
    (Valid(t, rows, events[0]) && ValidRun(t, After(rows, events[0]), events[1..]))
  }

  function AfterAll(rows: set<Row>, events: seq<RowEvent>): set<Row>
    decreases |events|
  {
    if events == [] then rows else AfterAll(After(rows, events[0]), events[1..])
  }

  function Rendered(render: Renderer, row: Row): StoredRow {
    seq(|row|, i requires 0 <= i < |row| => if row[i].None? then None else Some(render(i, row[i].value)))
  }

  ghost function RenderedAll(render: Renderer, rows: set<Row>): set<StoredRow> {
    set r | r in rows :: Rendered(render, r)
  }

  /** Rendering may confuse values, but not those of a key column. */
  ghost predicate KeysReadable(t: TableInfo, render: Renderer) {
    forall k, v, w | k in t.keys && render(k, v) == render(k, w) :: v == w
  }

  ghost predicate SameStoredKey(t: TableInfo, r: StoredRow, q: StoredRow) {
    forall k | k in t.keys && k < |r| && k < |q| :: r[k] == q[k]
  }

  lemma StoredKeysAgree(t: TableInfo, render: Renderer, r: Row, q: Row)
    requires TableOk(t) && KeysReadable(t, render) && RowOk(t, r) && RowOk(t, q)
    ensures SameStoredKey(t, Rendered(render, r), Rendered(render, q)) <==> SameKey(t, r, q)
  {
    if SameStoredKey(t, Rendered(render, r), Rendered(render, q)) {
      forall k | k in t.keys ensures r[k] == q[k] {
        assert Rendered(render, r)[k] == Rendered(render, q)[k];
        assert r[k].Some? && q[k].Some?;
        assert render(k, r[k].value) == render(k, q[k].value);
      }
    }
  }

  // ---------------------------------------------------------------------------
  // Column lists, placeholders and values
  // ---------------------------------------------------------------------------

  /** What is written for one column: "?" or NULL. */
  datatype Place = Bound | Null
  datatype SqlValue = Str(s: string) | Num(n: int)

  /** One column's contribution to a list: nothing, or a name with a value to bind (`None` is a literal NULL). */
  datatype Slot = Skip | Put(name: string, value: Option<SqlValue>)

  function Names(slots: seq<Slot>): seq<string> {
    if slots == [] then []
    else (if slots[0].Put? then [slots[0].name] else []) + Names(slots[1..])
  }

  function Places(slots: seq<Slot>): seq<Place> {
    if slots == [] then []
    else (if slots[0].Put? then [if slots[0].value.Some? then Bound else Null] else []) + Places(slots[1..])
  }

  function Values(slots: seq<Slot>): seq<SqlValue> {
    if slots == [] then []
    else (if slots[0].Put? && slots[0].value.Some? then [slots[0].value.value] else []) + Values(slots[1..])
  }

  /** What the database makes of a column list: placeholders take the values from left to right. The second
      component is what is left for the rest of the statement; `None` is a missing value or placeholder. */
  function Bind(names: seq<string>, places: seq<Place>, values: seq<SqlValue>)
    : Option<(map<string, Option<SqlValue>>, seq<SqlValue>)>
  {
    if |names| != |places| then None
    else if names == [] then Some((map[], values))
    else if places[0].Bound? && values == [] then None
    else
      var v := if places[0].Bound? then Some(values[0]) else None;
      match Bind(names[1..], places[1..], if places[0].Bound? then values[1..] else values)
      case None => None
      case Some((m, rest)) => Some((if names[0] in m then m else m[names[0] := v], rest))
  }

  ghost function AsMap(slots: seq<Slot>): map<string, Option<SqlValue>> {
    if slots == [] then map[]
    else
      var m := AsMap(slots[1..]);
      if slots[0].Put? && slots[0].name !in m then m[slots[0].name := slots[0].value] else m
  }

  lemma {:induction false} SlotsAppend(slots: seq<Slot>, more: seq<Slot>)
    ensures Names(slots + more) == Names(slots) + Names(more)
    ensures Places(slots + more) == Places(slots) + Places(more)
    ensures Values(slots + more) == Values(slots) + Values(more)
    decreases |slots|
  {
    if slots == [] {
      assert slots + more == more;
    } else {
      SlotsAppend(slots[1..], more);
      FirstSlot(slots[0], slots[1..]);
      FirstSlot(slots[0], slots[1..] + more);
      assert [slots[0]] + slots[1..] == slots && [slots[0]] + (slots[1..] + more) == slots + more;
    }
  }

  lemma FirstSlot(s: Slot, slots: seq<Slot>)
    ensures Names([s] + slots) == (if s.Put? then [s.name] else []) + Names(slots)
    ensures Places([s] + slots) == (if s.Put? then [if s.value.Some? then Bound else Null] else []) + Places(slots)
    ensures Values([s] + slots) == (if s.Put? && s.value.Some? then [s.value.value] else []) + Values(slots)
  {
    assert ([s] + slots)[1..] == slots;
  }

  lemma BindFirst(name: string, v: Option<SqlValue>, names: seq<string>, places: seq<Place>, values: seq<SqlValue>)
    requires |names| == |places|
    ensures Bind([name] + names, [if v.Some? then Bound else Null] + places, (if v.Some? then [v.value] else []) + values)
            == match Bind(names, places, values)
               case None => None
               case Some((m, rest)) => Some((if name in m then m else m[name := v], rest))
  {
    var ns, ps := [name] + names, [if v.Some? then Bound else Null] + places;
    var vs := (if v.Some? then [v.value] else []) + values;
    assert ns[1..] == names && ps[1..] == places;
    assert v.Some? ==> vs[1..] == values;
    assert v.None? ==> vs == values;
  }

  /** The three lists that one pass over the columns produces always fit together. */
  lemma {:induction false} BindSlots(slots: seq<Slot>, rest: seq<SqlValue>)
    ensures Bind(Names(slots), Places(slots), Values(slots) + rest) == Some((AsMap(slots), rest))
  {
    if slots == [] {
      assert Values(slots) + rest == rest;
    } else {
      var s, tail := slots[0], slots[1..];
      BindSlots(tail, rest);
      if s.Put? {
        BindFirst(s.name, s.value, Names(tail), Places(tail), Values(tail) + rest);
        assert Values(slots) + rest == (if s.value.Some? then [s.value.value] else []) + (Values(tail) + rest);
      } else {
        assert Names(slots) == Names(tail) && Places(slots) == Places(tail) && Values(slots) == Values(tail);
      }
    }
  }

  /** Slots that name their own columns, which all differ. */
  ghost predicate SlotsFor(slots: seq<Slot>, columns: seq<string>) {
    |slots| == |columns| && forall i | 0 <= i < |slots| && slots[i].Put? :: slots[i].name == columns[i]
  }

  /** Looking a column up in the bound statement finds what its slot put there, and nothing else. */
  lemma {:induction false} AsMapAt(slots: seq<Slot>, columns: seq<string>, i: nat)
    requires Distinct(columns) && SlotsFor(slots, columns) && i < |columns|
    ensures columns[i] in AsMap(slots) <==> slots[i].Put?
    ensures slots[i].Put? ==> AsMap(slots)[columns[i]] == slots[i].value
  {
    forall a, b | 0 <= a < b < |columns[1..]| ensures columns[1..][a] != columns[1..][b] {
      assert columns[a + 1] != columns[b + 1];
    }
    if i > 0 {
      AsMapAt(slots[1..], columns[1..], i - 1);
      assert columns[0] != columns[i];
    } else {
      AsMapDomain(slots[1..], columns[1..], columns[0]);
      forall a | 0 <= a < |columns[1..]| ensures columns[1..][a] != columns[0] {
        assert columns[0] != columns[a + 1];
      }
    }
  }

  lemma {:induction false} AsMapDomain(slots: seq<Slot>, columns: seq<string>, name: string)
    requires SlotsFor(slots, columns)
    ensures name in AsMap(slots) ==> name in columns
  {
    if slots != [] {
      AsMapDomain(slots[1..], columns[1..], name);
    }
  }

  /** The value a stored column takes. */
  function TextOf(v: Option<SqlValue>): Option<string> {
    if v == None then None else match v.value case Str(s) => Some(s) case Num(_) => None
  }

  // ---------------------------------------------------------------------------
  // DelNilI and DelNilS
  // ---------------------------------------------------------------------------

  function Present<T>(s: seq<Option<T>>): seq<T> {
    if s == [] then [] else (if s[0].Some? then [s[0].value] else []) + Present(s[1..])
  }

  lemma {:induction false} PresentAppend<T>(s: seq<Option<T>>, x: Option<T>)
    ensures Present(s + [x]) == Present(s) + (if x.Some? then [x.value] else [])
    decreases |s|
  {
    var t, last := s + [x], if x.Some? then [x.value] else [];
    if s == [] {
      assert t == [x] && t[1..] == [];
    } else {
      PresentAppend(s[1..], x);
      assert t[0] == s[0] && t[1..] == s[1..] + [x];
      var first := if s[0].Some? then [s[0].value] else [];
      assert Present(t) == first + (Present(s[1..]) + last) == (first + Present(s[1..])) + last;
    }
  }

  method DelNil<T>(s: seq<Option<T>>) returns (n: seq<T>)
    ensures n == Present(s)
  {
    n := [];
    for i := 0 to |s|
      invariant n == Present(s[..i])
    {
      PresentAppend(s[..i], s[i]);
      assert s[..i + 1] == s[..i] + [s[i]];
      if s[i].None? {
        continue;
      }
      n := n + [s[i].value];
    }
    assert s[..|s|] == s;
  }

  function NameSlot(s: Slot): Option<string> { if s.Put? then Some(s.name) else None }
  function PlaceSlot(s: Slot): Option<Place> {
    if s.Put? then Some(if s.value.Some? then Bound else Null) else None
  }
  function ValueSlot(s: Slot): Option<SqlValue> { if s.Put? then s.value else None }

  /** Slices filled position by position and then compacted are the lists of the slots. */
  lemma {:induction false} Compacted(slots: seq<Slot>, names: seq<Option<string>>, places: seq<Option<Place>>,
                                     values: seq<Option<SqlValue>>)
    requires |names| == |places| == |values| == |slots|
    requires forall i | 0 <= i < |slots| ::
               names[i] == NameSlot(slots[i]) && places[i] == PlaceSlot(slots[i]) && values[i] == ValueSlot(slots[i])
    ensures Present(names) == Names(slots) && Present(places) == Places(slots) && Present(values) == Values(slots)
    decreases |slots|
  {
    if slots != [] {
      Compacted(slots[1..], names[1..], places[1..], values[1..]);
    }
  }
}
