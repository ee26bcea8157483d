/** mysql/dml.go: row events replayed as INSERT, UPDATE and DELETE statements on a replica. */
module Mysql {
  import opened Common
  import opened Replay

  datatype Statement =
    | InsertInto(names: seq<string>, places: seq<Place>)
    | UpdateSet(names: seq<string>, places: seq<Place>, keys: seq<string>)
    | DeleteFrom(keys: seq<string>)

  type Prepared = (Statement, seq<SqlValue>)

  // ---------------------------------------------------------------------------
  // What is generated for one column
  // ---------------------------------------------------------------------------

  function InsertSlot(t: TableInfo, render: Renderer, row: Row, i: nat): Slot
    requires i < |row| == |t.columns|
  {
    if row[i].None? then Skip else Put(t.columns[i], Some(Str(render(i, row[i].value))))
  }

  /** A NULL where a key is expected is rendered as Go renders nil. */
  function KeySlot(t: TableInfo, render: Renderer, row: Row, i: nat): Slot
    requires i < |row| == |t.columns|
  {
    if i !in t.keys then Skip
    else Put(t.columns[i], Some(Str(if row[i].None? then "<nil>" else render(i, row[i].value))))
  }

  function SetSlot(t: TableInfo, render: Renderer, before: Row, after: Row, i: nat): Slot
    requires i < |before| == |after| == |t.columns|
  {
    if before[i] == after[i] then Skip
    else Put(t.columns[i], if after[i].None? then None else Some(Str(render(i, after[i].value))))
  }

  function InsertSlots(t: TableInfo, render: Renderer, row: Row): (slots: seq<Slot>)
    requires |row| == |t.columns|
    ensures SlotsFor(slots, t.columns)
  {
    seq(|row|, i requires 0 <= i < |row| => InsertSlot(t, render, row, i))
  }

  function KeySlots(t: TableInfo, render: Renderer, row: Row): (slots: seq<Slot>)
    requires |row| == |t.columns|
    ensures SlotsFor(slots, t.columns)
  {
    seq(|row|, i requires 0 <= i < |row| => KeySlot(t, render, row, i))
  }

  function SetSlots(t: TableInfo, render: Renderer, before: Row, after: Row): (slots: seq<Slot>)
    requires |before| == |after| == |t.columns|
    ensures SlotsFor(slots, t.columns)
  {
    seq(|before|, i requires 0 <= i < |before| => SetSlot(t, render, before, after, i))
  }

  /** The statement for an event, with its arguments: SET before WHERE. */
  function Generate(t: TableInfo, render: Renderer, e: RowEvent): Prepared
    requires match e
             case Inserted(row) => |row| == |t.columns|
             case Updated(before, after) => |before| == |after| == |t.columns|
             case Deleted(row) => |row| == |t.columns|
  {
    match e
    case Inserted(row) =>
      var s := InsertSlots(t, render, row);
      (InsertInto(Names(s), Places(s)), Values(s))
    case Updated(before, after) =>
      var s, k := SetSlots(t, render, before, after), KeySlots(t, render, before);
      (UpdateSet(Names(s), Places(s), Names(k)), Values(s) + Values(k))
    case Deleted(row) =>
      var k := KeySlots(t, render, row);
      (DeleteFrom(Names(k)), Values(k))
  }

  // ---------------------------------------------------------------------------
  // The methods of dml.go
  // ---------------------------------------------------------------------------

  method Insert(t: TableInfo, render: Renderer, row: Row) returns (p: Prepared)
    requires |row| == |t.columns|
    ensures p == Generate(t, render, Inserted(row))
  {
    var field: seq<Option<string>> := seq(|row|, _ => None);
    var pos: seq<Option<Place>> := seq(|row|, _ => None);
    var value: seq<Option<SqlValue>> := seq(|row|, _ => None);
    for idx := 0 to |row|
      invariant |field| == |pos| == |value| == |row|
      invariant forall i | 0 <= i < idx ::
                  var s := InsertSlot(t, render, row, i);
                  field[i] == NameSlot(s) && pos[i] == PlaceSlot(s) && value[i] == ValueSlot(s)
      invariant forall i | idx <= i < |row| :: field[i] == None && pos[i] == None && value[i] == None
    {
      if row[idx].None? {
        continue;
      }
      field := field[idx := Some(t.columns[idx])];
      pos := pos[idx := Some(Bound)];
      value := value[idx := Some(Str(render(idx, row[idx].value)))];
    }
    Compacted(InsertSlots(t, render, row), field, pos, value);
    var values := DelNil(value);
    var names := DelNil(field);
    var places := DelNil(pos);
    p := (InsertInto(names, places), values);
  }

  method UpdateAndDelete(isUpdate: bool, t: TableInfo, render: Renderer, before: Row, after: Row) returns (p: Prepared)
    requires |before| == |after| == |t.columns|
    ensures isUpdate ==> p == Generate(t, render, Updated(before, after))
    ensures !isUpdate ==> p == Generate(t, render, Deleted(before))
  {
    var n := |t.columns|;
    var pkpos: seq<Option<string>> := seq(n, _ => None);
    var pkvalue: seq<Option<SqlValue>> := seq(n, _ => None);
    var name: seq<Option<string>> := seq(n, _ => None);
    var pos: seq<Option<Place>> := seq(n, _ => None);
    var value: seq<Option<SqlValue>> := seq(n, _ => None);
    ghost var keys, sets := KeySlots(t, render, before), SetSlots(t, render, before, after);
    for idx := 0 to n
      invariant |pkpos| == |pkvalue| == |name| == |pos| == |value| == n
      invariant forall i | 0 <= i < idx ::
                  var k := KeySlot(t, render, before, i);
                  pkpos[i] == NameSlot(k) && pkvalue[i] == ValueSlot(k)
      invariant forall i | idx <= i < n :: pkpos[i] == None && pkvalue[i] == None
      invariant isUpdate ==> forall i | 0 <= i < idx ::
                    var s := SetSlot(t, render, before, after, i);
                    name[i] == NameSlot(s) && pos[i] == PlaceSlot(s) && value[i] == ValueSlot(s)
      invariant forall i | idx <= i < n :: name[i] == None && pos[i] == None && value[i] == None
    {
      if idx in t.keys {
        pkvalue := pkvalue[idx := Some(Str(if before[idx].None? then "<nil>" else render(idx, before[idx].value)))];
        pkpos := pkpos[idx := Some(t.columns[idx])];
      }
      if isUpdate && before[idx] == after[idx] {
        continue;
      }
      name := name[idx := Some(t.columns[idx])];
      if after[idx].None? {
        pos := pos[idx := Some(Null)];
        continue;
      }
      pos := pos[idx := Some(Bound)];
      value := value[idx := Some(Str(render(idx, after[idx].value)))];
    }
    Compacted(keys, pkpos, seq(n, i requires 0 <= i < n => PlaceSlot(keys[i])), pkvalue);
    var where := DelNil(pkpos);
    var whereValues := DelNil(pkvalue);
    var setValues := DelNil(value);
    if isUpdate {
      Compacted(sets, name, pos, value);
      var names := DelNil(name);
      var places := DelNil(pos);
      return (UpdateSet(names, places, where), setValues + whereValues);
    }
    return (DeleteFrom(where), whereValues);
  }

  // ---------------------------------------------------------------------------
  // The replica
  // ---------------------------------------------------------------------------

  function Filled(t: TableInfo, m: map<string, Option<SqlValue>>, base: StoredRow): StoredRow
    requires |base| == |t.columns|
  {
    seq(|base|, i requires 0 <= i < |base| => if t.columns[i] in m then TextOf(m[t.columns[i]]) else base[i])
  }

  /** WHERE a = ? AND b = ? ...; a comparison with NULL is not true. */
  predicate Hit(t: TableInfo, k: map<string, Option<SqlValue>>, r: StoredRow) {
    |r| == |t.columns| &&
    forall i | 0 <= i < |r| && t.columns[i] in k :: r[i].Some? && r[i] == TextOf(k[t.columns[i]])
  }

  function BindKeys(keys: seq<string>, values: seq<SqlValue>): Option<map<string, Option<SqlValue>>> {
    match Bind(keys, seq(|keys|, _ => Bound), values)
    case Some((k, rest)) => if rest == [] then Some(k) else None
    case None => None
  }

  /** Executing a statement: `None` is an error of the server (syntax, argument count, duplicate key). */
  ghost function Exec(t: TableInfo, defaults: StoredRow, rows: set<StoredRow>, p: Prepared): Option<set<StoredRow>>
    requires |defaults| == |t.columns|
  {
    match p.0
    case InsertInto(names, places) =>
      (match Bind(names, places, p.1)
       case None => None
       case Some((m, rest)) =>
         var row := Filled(t, m, defaults);
         if rest != [] || exists q | q in rows :: SameStoredKey(t, q, row) then None else Some(rows + {row}))
    case UpdateSet(names, places, keys) =>
      if names == [] || keys == [] then None
      else
        (match Bind(names, places, p.1)
         case None => None
         case Some((m, rest)) =>
           match BindKeys(keys, rest)
           case None => None
           case Some(k) =>
             if exists r, q | r in rows && q in rows && r != q :: SameStoredKey(t, Changed(t, k, m, r), Changed(t, k, m, q))
             then None
             else Some(set r | r in rows :: Changed(t, k, m, r)))
    case DeleteFrom(keys) =>
      if keys == [] then None
      else
        match BindKeys(keys, p.1)
        case None => None
        case Some(k) => Some(set r | r in rows && !Hit(t, k, r))
  }

  ghost function Changed(t: TableInfo, k: map<string, Option<SqlValue>>, m: map<string, Option<SqlValue>>, r: StoredRow)
    : StoredRow
  {
    if Hit(t, k, r) then Filled(t, m, r) else r
  }

  // ---------------------------------------------------------------------------
  // Replaying
  // ---------------------------------------------------------------------------

  lemma {:induction false} KeyPlaces(slots: seq<Slot>)
    requires forall i | 0 <= i < |slots| && slots[i].Put? :: slots[i].value.Some?
    ensures Places(slots) == seq(|Names(slots)|, _ => Bound)
  {
    if slots != [] {
      KeyPlaces(slots[1..]);
    }
  }

  lemma {:induction false} NamesEmptyIff(slots: seq<Slot>)
    ensures Names(slots) == [] <==> forall i | 0 <= i < |slots| :: slots[i].Skip?
  {
    if slots != [] {
      NamesEmptyIff(slots[1..]);
      if slots[0].Skip? && Names(slots) == [] {
        forall i | 0 <= i < |slots| ensures slots[i].Skip? {
          if i > 0 {
            assert slots[i] == slots[1..][i - 1];
          }
        }
      }
    }
  }

  lemma KeysBind(t: TableInfo, render: Renderer, row: Row)
    requires TableOk(t) && RowOk(t, row)
    ensures var k := KeySlots(t, render, row);
            Names(k) != [] && BindKeys(Names(k), Values(k)) == Some(AsMap(k))
  {
    var k := KeySlots(t, render, row);
    KeyPlaces(k);
    BindSlots(k, []);
    assert Values(k) + [] == Values(k);
    NamesEmptyIff(k);
    var i :| i in t.keys;
    assert k[i].Put?;
  }

  /** A WHERE clause: the key columns of the row and nothing else; a NULL among them is compared with Go's nil. */
  ghost predicate FindsBy(t: TableInfo, render: Renderer, k: map<string, Option<SqlValue>>, row: Row)
    requires |row| == |t.columns|
  {
    && (forall i | 0 <= i < |row| ::
          && (t.columns[i] in k <==> i in t.keys)
          && (i in t.keys ==> k[t.columns[i]] == Some(Str(if row[i].Some? then render(i, row[i].value) else "<nil>"))))
    && forall name | name in k :: name in t.columns
  }

  /** A column list: exactly the chosen columns, with the values of the row; nothing else. */
  ghost predicate Lists(t: TableInfo, render: Renderer, m: map<string, Option<SqlValue>>, row: Row, chosen: set<nat>)
    requires |row| == |t.columns|
  {
    && (forall i | 0 <= i < |row| ::
          && (t.columns[i] in m <==> i in chosen)
          && (i in chosen ==> m[t.columns[i]] == if row[i].Some? then Some(Str(render(i, row[i].value))) else None))
    && forall name | name in m :: name in t.columns
  }

  lemma KeysFind(t: TableInfo, render: Renderer, row: Row)
    requires Distinct(t.columns) && |row| == |t.columns|
    ensures var k := KeySlots(t, render, row);
            BindKeys(Names(k), Values(k)) == Some(AsMap(k)) && FindsBy(t, render, AsMap(k), row)
  {
    var k := KeySlots(t, render, row);
    KeyPlaces(k);
    BindSlots(k, []);
    assert Values(k) + [] == Values(k);
    forall i | 0 <= i < |row|
      ensures t.columns[i] in AsMap(k) <==> i in t.keys
      ensures i in t.keys ==> AsMap(k)[t.columns[i]] == Some(Str(if row[i].Some? then render(i, row[i].value) else "<nil>"))
    {
      AsMapAt(k, t.columns, i);
    }
    forall name | name in AsMap(k) ensures name in t.columns {
      AsMapDomain(k, t.columns, name);
    }
  }

  lemma SlotsList(t: TableInfo, render: Renderer, slots: seq<Slot>, row: Row, chosen: set<nat>)
    requires Distinct(t.columns) && |row| == |t.columns| && SlotsFor(slots, t.columns)
    requires forall i | 0 <= i < |row| ::
               && (slots[i].Put? <==> i in chosen)
               && (slots[i].Put? ==> slots[i].value == if row[i].Some? then Some(Str(render(i, row[i].value))) else None)
    ensures Lists(t, render, AsMap(slots), row, chosen)
  {
    forall i | 0 <= i < |row|
      ensures t.columns[i] in AsMap(slots) <==> i in chosen
      ensures i in chosen ==> AsMap(slots)[t.columns[i]] == if row[i].Some? then Some(Str(render(i, row[i].value))) else None
    {
      AsMapAt(slots, t.columns, i);
    }
    forall name | name in AsMap(slots) ensures name in t.columns {
      AsMapDomain(slots, t.columns, name);
    }
  }

  /** The statement of an event: INSERT lists the columns that are not NULL; UPDATE sets exactly the columns that changed,
      with their new values, and DELETE sets none; both find their row by the whole old key. */
  lemma StatementWrites(t: TableInfo, render: Renderer, e: RowEvent) returns (m: map<string, Option<SqlValue>>, k: map<string, Option<SqlValue>>)
    requires Distinct(t.columns)
    requires match e
             case Inserted(row) => |row| == |t.columns|
             case Updated(before, after) => |before| == |after| == |t.columns|
             case Deleted(row) => |row| == |t.columns|
    ensures var p := Generate(t, render, e);
            match e
            case Inserted(row) =>
              && p.0.InsertInto? && Bind(p.0.names, p.0.places, p.1) == Some((m, []))
              && Lists(t, render, m, row, set i: nat | i < |row| && row[i].Some?)
            case Updated(before, after) =>
              && p.0.UpdateSet? && Lists(t, render, m, after, set i: nat | i < |after| && before[i] != after[i])
              && FindsBy(t, render, k, before)
              && exists rest :: Bind(p.0.names, p.0.places, p.1) == Some((m, rest)) && BindKeys(p.0.keys, rest) == Some(k)
            case Deleted(row) =>
              p.0.DeleteFrom? && BindKeys(p.0.keys, p.1) == Some(k) && FindsBy(t, render, k, row)
  {
    hide Bind, BindKeys, Lists, FindsBy;
    match e {
      case Inserted(row) =>
        var slots := InsertSlots(t, render, row);
        m, k := AsMap(slots), map[];
        BindSlots(slots, []);
        assert Values(slots) + [] == Values(slots);
        SlotsList(t, render, slots, row, set i: nat | i < |row| && row[i].Some?);
      case Updated(before, after) =>
        var slots, keys := SetSlots(t, render, before, after), KeySlots(t, render, before);
        m, k := AsMap(slots), AsMap(keys);
        BindSlots(slots, Values(keys));
        SlotsList(t, render, slots, after, set i: nat | i < |after| && before[i] != after[i]);
        KeysFind(t, render, before);
      case Deleted(row) =>
        m, k := map[], AsMap(KeySlots(t, render, row));
        KeysFind(t, render, row);
    }
  }

  /** The WHERE clause of an event selects exactly the row with that key. */
  lemma HitIsSameKey(t: TableInfo, render: Renderer, row: Row, r: Row)
    requires TableOk(t) && RowOk(t, row) && RowOk(t, r) && KeysReadable(t, render)
    ensures Hit(t, AsMap(KeySlots(t, render, row)), Rendered(render, r)) <==> SameKey(t, row, r)
  {
    var slots := KeySlots(t, render, row);
    var k, s := AsMap(slots), Rendered(render, r);
    StoredKeysAgree(t, render, row, r);
    forall i | 0 <= i < |s|
      ensures t.columns[i] in k <==> i in t.keys
      ensures i in t.keys ==> TextOf(k[t.columns[i]]) == Rendered(render, row)[i] && s[i].Some?
    {
      AsMapAt(slots, t.columns, i);
    }
    assert Hit(t, k, s) <==> SameStoredKey(t, Rendered(render, row), s);
  }

  lemma InsertFills(t: TableInfo, render: Renderer, row: Row, defaults: StoredRow)
    requires TableOk(t) && |row| == |t.columns| == |defaults|
    ensures var filled := Filled(t, AsMap(InsertSlots(t, render, row)), defaults);
            && |filled| == |row|
            && forall i | 0 <= i < |row| :: filled[i] == if row[i].None? then defaults[i] else Rendered(render, row)[i]
  {
    var slots := InsertSlots(t, render, row);
    forall i | 0 <= i < |row|
      ensures Filled(t, AsMap(slots), defaults)[i] == if row[i].None? then defaults[i] else Rendered(render, row)[i]
    {
      AsMapAt(slots, t.columns, i);
    }
  }

  /** An inserted row reads back as it was exactly when every column it leaves out has NULL as its default. */
  lemma InsertReadsBackIff(t: TableInfo, render: Renderer, row: Row, defaults: StoredRow)
    requires TableOk(t) && |row| == |t.columns| == |defaults|
    ensures Exec(t, defaults, {}, Generate(t, render, Inserted(row))) == Some({Rendered(render, row)})
            <==> forall i | 0 <= i < |row| && row[i].None? :: defaults[i] == None
  {
    var slots := InsertSlots(t, render, row);
    var filled := Filled(t, AsMap(slots), defaults);
    BindSlots(slots, []);
    assert Values(slots) + [] == Values(slots);
    InsertFills(t, render, row, defaults);
    var none: set<StoredRow> := {};
    assert none + {filled} == {filled};
    assert Exec(t, defaults, none, Generate(t, render, Inserted(row))) == Some({filled});
    assert filled in {filled};
    if {filled} == {Rendered(render, row)} {
      assert filled in {Rendered(render, row)};
      forall i | 0 <= i < |row| && row[i].None? ensures defaults[i] == None {
        assert filled[i] == Rendered(render, row)[i];
      }
    }
    if forall i | 0 <= i < |row| && row[i].None? :: defaults[i] == None {
      assert filled == Rendered(render, row);
    }
  }

  /** What an insert leaves out is NULL by default. */
  ghost predicate OmittedIsNull(row: Row, defaults: StoredRow) {
    |row| == |defaults| && forall i | 0 <= i < |row| && row[i].None? :: defaults[i] == None
  }

  /** On a replica that equals the source, the generated INSERT adds the row exactly when what it leaves out is NULL by
      default. */
  lemma InsertReplaysIff(t: TableInfo, render: Renderer, rows: set<Row>, row: Row, defaults: StoredRow)
    requires TableOk(t) && KeysReadable(t, render) && ContentsOk(t, rows) && Valid(t, rows, Inserted(row)) && |defaults| == |t.columns|
    ensures Exec(t, defaults, RenderedAll(render, rows), Generate(t, render, Inserted(row))) == Some(RenderedAll(render, rows + {row}))
            <==> OmittedIsNull(row, defaults)
  {
    hide KeysReadable, Filled;
    var slots := InsertSlots(t, render, row);
    var filled := Filled(t, AsMap(slots), defaults);
    BindSlots(slots, []);
    assert Values(slots) + [] == Values(slots);
    InsertFills(t, render, row, defaults);
    InsertedKeyIsFree(t, render, rows, row, filled);
    assert Exec(t, defaults, RenderedAll(render, rows), Generate(t, render, Inserted(row))) == Some(RenderedAll(render, rows) + {filled});
    assert RenderedAll(render, rows + {row}) == RenderedAll(render, rows) + {Rendered(render, row)};
    assert filled in RenderedAll(render, rows) + {filled};
    assert filled == Rendered(render, row) <==> OmittedIsNull(row, defaults);
  }

  /** No row of the replica has the key of the row to insert, whatever its other columns become. */
  lemma InsertedKeyIsFree(t: TableInfo, render: Renderer, rows: set<Row>, row: Row, filled: StoredRow)
    requires TableOk(t) && KeysReadable(t, render) && ContentsOk(t, rows) && Valid(t, rows, Inserted(row))
    requires |filled| == |row| && forall i | 0 <= i < |row| && row[i].Some? :: filled[i] == Rendered(render, row)[i]
    ensures forall q | q in RenderedAll(render, rows) :: !SameStoredKey(t, q, filled) && q != filled
  {
    forall q | q in rows ensures !SameStoredKey(t, Rendered(render, q), filled) {
      StoredKeysAgree(t, render, q, row);
      if SameStoredKey(t, Rendered(render, q), filled) {
        forall k | k in t.keys && k < |row| ensures Rendered(render, q)[k] == Rendered(render, row)[k] {
          assert row[k].Some?;
        }
      }
    }
  }

  lemma DeleteReplays(t: TableInfo, render: Renderer, rows: set<Row>, row: Row, defaults: StoredRow)
    requires |defaults| == |t.columns| && TableOk(t) && KeysReadable(t, render) && ContentsOk(t, rows) && row in rows
    ensures Exec(t, defaults, RenderedAll(render, rows), Generate(t, render, Deleted(row)))
            == Some(RenderedAll(render, rows - {row}))
  {
    var k := AsMap(KeySlots(t, render, row));
    KeysBind(t, render, row);
    forall r | r in rows ensures Hit(t, k, Rendered(render, r)) <==> r == row {
      HitIsSameKey(t, render, row, r);
    }
    var stored := RenderedAll(render, rows);
    assert (set s | s in stored && !Hit(t, k, s)) == RenderedAll(render, rows - {row});
  }

  lemma SetFills(t: TableInfo, render: Renderer, before: Row, after: Row)
    requires TableOk(t) && |before| == |after| == |t.columns|
    ensures Filled(t, AsMap(SetSlots(t, render, before, after)), Rendered(render, before)) == Rendered(render, after)
  {
    var slots := SetSlots(t, render, before, after);
    forall i | 0 <= i < |before|
      ensures Filled(t, AsMap(slots), Rendered(render, before))[i] == Rendered(render, after)[i]
    {
      AsMapAt(slots, t.columns, i);
    }
  }

  lemma UpdateBinds(t: TableInfo, render: Renderer, before: Row, after: Row)
    requires TableOk(t) && RowOk(t, before) && |after| == |before|
    ensures var s, k := SetSlots(t, render, before, after), KeySlots(t, render, before);
            && Bind(Names(s), Places(s), Values(s) + Values(k)) == Some((AsMap(s), Values(k)))
            && BindKeys(Names(k), Values(k)) == Some(AsMap(k)) && Names(k) != []
            && (Names(s) == [] <==> before == after)
  {
    var s := SetSlots(t, render, before, after);
    BindSlots(s, Values(KeySlots(t, render, before)));
    KeysBind(t, render, before);
    NamesEmptyIff(s);
    if before != after {
      var i :| 0 <= i < |before| && before[i] != after[i];
      assert s[i].Put?;
    }
  }

  /** Where an update leads: the row it names becomes the new row, every other row stays. */
  lemma UpdateMoves(t: TableInfo, render: Renderer, rows: set<Row>, before: Row, after: Row)
    requires TableOk(t) && KeysReadable(t, render) && ContentsOk(t, rows) && Valid(t, rows, Updated(before, after))
    ensures var k, m := AsMap(KeySlots(t, render, before)), AsMap(SetSlots(t, render, before, after));
            forall r | r in rows ::
              Changed(t, k, m, Rendered(render, r)) == Rendered(render, if r == before then after else r)
  {
    var k, m := AsMap(KeySlots(t, render, before)), AsMap(SetSlots(t, render, before, after));
    forall r | r in rows
      ensures Changed(t, k, m, Rendered(render, r)) == Rendered(render, if r == before then after else r)
    {
      HitIsSameKey(t, render, before, r);
      SetFills(t, render, before, after);
    }
  }

  /** No two rows come to share a key when one of them is updated to a key that is free. */
  lemma UpdateKeepsKeysApart(t: TableInfo, render: Renderer, rows: set<Row>, before: Row, after: Row, r: Row, q: Row)
    requires TableOk(t) && KeysReadable(t, render) && ContentsOk(t, rows) && Valid(t, rows, Updated(before, after))
    requires r in rows && q in rows && r != q
    ensures !SameStoredKey(t, Rendered(render, if r == before then after else r),
                           Rendered(render, if q == before then after else q))
  {
    var r', q' := if r == before then after else r, if q == before then after else q;
    StoredKeysAgree(t, render, r', q');
    if r == before {
      assert q in rows - {before} && !SameKey(t, q, after);
      assert SameKey(t, after, q) ==> SameKey(t, q, after);
    } else if q == before {
      assert r in rows - {before} && !SameKey(t, r, after);
    }
  }

  lemma UpdateReplays(t: TableInfo, render: Renderer, rows: set<Row>, before: Row, after: Row, defaults: StoredRow)
    requires |defaults| == |t.columns| && TableOk(t) && KeysReadable(t, render) && ContentsOk(t, rows)
    requires Valid(t, rows, Updated(before, after)) && before != after
    ensures Exec(t, defaults, RenderedAll(render, rows), Generate(t, render, Updated(before, after)))
            == Some(RenderedAll(render, rows - {before} + {after}))
  {
    hide SameStoredKey, Changed, Filled;
    var stored, next := RenderedAll(render, rows), rows - {before} + {after};
    var k, m := AsMap(KeySlots(t, render, before)), AsMap(SetSlots(t, render, before, after));
    UpdateBinds(t, render, before, after);
    UpdateMoves(t, render, rows, before, after);
    forall s, u | s in stored && u in stored && s != u ensures !SameStoredKey(t, Changed(t, k, m, s), Changed(t, k, m, u)) {
      var r :| r in rows && Rendered(render, r) == s;
      var q :| q in rows && Rendered(render, q) == u;
      UpdateKeepsKeysApart(t, render, rows, before, after, r, q);
    }
    var moved := set s | s in stored :: Changed(t, k, m, s);
    forall s | s in RenderedAll(render, next) ensures s in moved {
      var r :| r in next && Rendered(render, r) == s;
      var source := if r in rows && r != before then r else before;
      assert Rendered(render, source) in stored;
    }
    assert moved == RenderedAll(render, next);
  }

  /** The generated UPDATE is one the server accepts exactly when some column changed. */
  lemma UpdateAcceptedIff(t: TableInfo, render: Renderer, rows: set<Row>, before: Row, after: Row, defaults: StoredRow)
    requires |defaults| == |t.columns| && TableOk(t) && KeysReadable(t, render) && ContentsOk(t, rows) && Valid(t, rows, Updated(before, after))
    ensures Exec(t, defaults, RenderedAll(render, rows), Generate(t, render, Updated(before, after))).Some?
            <==> before != after
  {
    if before == after {
      UpdateBinds(t, render, before, after);
    } else {
      UpdateReplays(t, render, rows, before, after, defaults);
    }
  }

  /** Generating and executing the statements of a run one by one, up to the first error. */
  ghost function Replayed(t: TableInfo, render: Renderer, defaults: StoredRow, rows: set<Row>, replica: set<StoredRow>,
                          events: seq<RowEvent>): Option<set<StoredRow>>
    requires TableOk(t) && ContentsOk(t, rows) && ValidRun(t, rows, events) && |defaults| == |t.columns|
    decreases |events|
  {
    if events == [] then Some(replica)
    else
      AfterOk(t, rows, events[0]);
      match Exec(t, defaults, replica, Generate(t, render, events[0]))
      case None => None
      case Some(next) => Replayed(t, render, defaults, After(rows, events[0]), next, events[1..])
  }

  /** The replica equals the source now and after every event of the run. */
  ghost predicate StaysEqual(t: TableInfo, render: Renderer, defaults: StoredRow, rows: set<Row>, replica: set<StoredRow>,
                             events: seq<RowEvent>)
    requires TableOk(t) && ContentsOk(t, rows) && ValidRun(t, rows, events) && |defaults| == |t.columns|
    decreases |events|
  {
    && replica == RenderedAll(render, rows)
    && (events == [] ||
        (AfterOk(t, rows, events[0]);
         match Exec(t, defaults, replica, Generate(t, render, events[0]))
         case None => false
         case Some(next) => StaysEqual(t, render, defaults, After(rows, events[0]), next, events[1..])))
  }

  /** An insert that leaves out only columns with NULL as their default, an update that changes something, a delete. */
  ghost predicate Replayable(defaults: StoredRow, e: RowEvent) {
    match e
    case Inserted(row) => OmittedIsNull(row, defaults)
    case Updated(before, after) => before != after
    case Deleted(_) => true
  }

  /** One statement keeps the replica equal to the source exactly for a replayable event. */
  lemma EventReplaysIff(t: TableInfo, render: Renderer, defaults: StoredRow, rows: set<Row>, e: RowEvent)
    requires TableOk(t) && KeysReadable(t, render) && ContentsOk(t, rows) && Valid(t, rows, e) && |defaults| == |t.columns|
    ensures Exec(t, defaults, RenderedAll(render, rows), Generate(t, render, e)) == Some(RenderedAll(render, After(rows, e)))
            <==> Replayable(defaults, e)
  {
    hide Exec, RenderedAll;
    match e {
      case Inserted(row) => InsertReplaysIff(t, render, rows, row, defaults);
      case Deleted(row) => DeleteReplays(t, render, rows, row, defaults);
      case Updated(before, after) =>
        UpdateAcceptedIff(t, render, rows, before, after, defaults);
        if before != after {
          UpdateReplays(t, render, rows, before, after, defaults);
        }
    }
  }

  /** For every valid run: the replica equals the source after each event exactly when every event is replayable. */
  lemma {:induction false} ReplicaStaysEqualIff(t: TableInfo, render: Renderer, defaults: StoredRow, rows: set<Row>, events: seq<RowEvent>)
    requires TableOk(t) && KeysReadable(t, render) && ContentsOk(t, rows) && ValidRun(t, rows, events) && |defaults| == |t.columns|
    ensures StaysEqual(t, render, defaults, rows, RenderedAll(render, rows), events) <==> forall e | e in events :: Replayable(defaults, e)
    decreases |events|
  {
    hide Exec, Replayable, RenderedAll;
    if events != [] {
      var e, next := events[0], After(rows, events[0]);
      EventReplaysIff(t, render, defaults, rows, e);
      AfterOk(t, rows, e);
      ReplicaStaysEqualIff(t, render, defaults, next, events[1..]);
      assert forall x :: x in events <==> x == e || x in events[1..];
      var r := Exec(t, defaults, RenderedAll(render, rows), Generate(t, render, e));
      assert r.Some? && r.value != RenderedAll(render, next) ==> !StaysEqual(t, render, defaults, next, r.value, events[1..]);
    }
  }

  /** In particular it ends equal to the source. */
  lemma {:induction false} ReplicaFollowsSource(t: TableInfo, render: Renderer, defaults: StoredRow, rows: set<Row>, events: seq<RowEvent>)
    requires TableOk(t) && KeysReadable(t, render) && ContentsOk(t, rows) && ValidRun(t, rows, events) && |defaults| == |t.columns|
    requires forall e | e in events :: Replayable(defaults, e)
    ensures Replayed(t, render, defaults, rows, RenderedAll(render, rows), events)
            == Some(RenderedAll(render, AfterAll(rows, events)))
    decreases |events|
  {
    hide Exec, Replayable;
    if events != [] {
      var e := events[0];
      assert e in events;
      EventReplaysIff(t, render, defaults, rows, e);
      AfterOk(t, rows, e);
      ReplicaFollowsSource(t, render, defaults, After(rows, e), events[1..]);
    }
  }
}
