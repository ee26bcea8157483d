/** clickhouse/dml.go: row events as versioned, append-only rows, and what is left when the server collapses them. */
module ClickHouseReplay {
  import opened Common
  import opened Replay
  import opened ClickHouseTable

  const DATA_DELETE := 1
  const DATA_INSERT := 0

  /** A table of the server: which columns are Nullable, its sort key and its partition key. */
  datatype Schema = Schema(info: TableInfo, nullable: seq<bool>, orders: seq<nat>, partition: Option<Partition>)

  /** What the server decides: the value assumeNotNull gives for NULL, the value of a partition expression,
      and the default of a column that is not Nullable. */
  datatype Server = Server(nullKey: nat -> string, bucket: (Transform, string) -> string, typeDefault: nat -> string)

  datatype Version = Version(row: StoredRow, del: int, version: int)

  type Prepared = (seq<string>, seq<Place>, seq<SqlValue>)

  ghost predicate SchemaOk(s: Schema) {
    && TableOk(s.info) && |s.nullable| == |s.info.columns|
    && (forall j | 0 <= j < |s.orders| :: s.orders[j] < |s.info.columns|)
    && (s.partition.Some? ==> s.partition.value.column < |s.info.columns|)
    && DEL_KEY !in s.info.columns && VERSION_KEY !in s.info.columns
  }

  /** The sort key contains the primary key of the source table. */
  ghost predicate CoversKeys(s: Schema) {
    forall k | k in s.info.keys :: k in s.orders
  }

  /** The partition expression reads this column and gives different values different partitions. */
  ghost predicate PartitionTells(s: Schema, server: Server, render: Renderer, k: nat) {
    && s.partition.Some? && s.partition.value.column == k
    && forall v, w | server.bucket(s.partition.value.transform, render(k, v)) == server.bucket(s.partition.value.transform, render(k, w)) ::
         v == w
  }

  /** Every column of the primary key is in the sort key or told apart by the partition. */
  ghost predicate KeysDecided(s: Schema, server: Server, render: Renderer) {
    forall k | k in s.info.keys :: k in s.orders || PartitionTells(s, server, render, k)
  }

  /** NULL only where the created table has a Nullable column. */
  ghost predicate NullsFit(s: Schema, row: Row) {
    |row| == |s.nullable| && forall i | 0 <= i < |row| && row[i].None? :: s.nullable[i]
  }

  // ---------------------------------------------------------------------------
  // onCkInsert
  // ---------------------------------------------------------------------------

  function CkSlot(t: TableInfo, render: Renderer, row: Row, addNull: bool, i: nat): Slot
    requires i < |row| == |t.columns|
  {
    if row[i].Some? then Put(t.columns[i], Some(Str(render(i, row[i].value))))
    else if addNull then Put(t.columns[i], None)
    else Skip
  }

  function CkSlots(t: TableInfo, render: Renderer, row: Row, addNull: bool): (slots: seq<Slot>)
    requires |row| == |t.columns|
    ensures SlotsFor(slots, t.columns)
  {
    seq(|row|, i requires 0 <= i < |row| => CkSlot(t, render, row, addNull, i))
  }

  function VersionSlots(isdel: int, version: int): seq<Slot> {
    [Put(DEL_KEY, Some(Num(isdel))), Put(VERSION_KEY, Some(Num(version)))]
  }

  function CkInsert(t: TableInfo, render: Renderer, row: Row, addNull: bool, isdel: int, version: int): Prepared
    requires |row| == |t.columns|
  {
    var slots := CkSlots(t, render, row, addNull) + VersionSlots(isdel, version);
    (Names(slots), Places(slots), Values(slots))
  }

  lemma VersionLists(isdel: int, version: int)
    ensures Names(VersionSlots(isdel, version)) == [DEL_KEY, VERSION_KEY]
    ensures Places(VersionSlots(isdel, version)) == [Bound, Bound]
    ensures Values(VersionSlots(isdel, version)) == [Num(isdel), Num(version)]
  {
    var del, ver := Put(DEL_KEY, Some(Num(isdel))), Put(VERSION_KEY, Some(Num(version)));
    FirstSlot(ver, []);
    FirstSlot(del, [ver]);
    assert [del] + [ver] == VersionSlots(isdel, version) && [ver] + [] == [ver];
  }

  method OnCkInsert(t: TableInfo, render: Renderer, row: Row, addNull: bool, isdel: int, version: int) returns (p: Prepared)
    requires |row| == |t.columns|
    ensures p == CkInsert(t, render, row, addNull, isdel, version)
  {
    var value: seq<Option<SqlValue>> := seq(|row|, _ => None);
    var field: seq<Option<string>> := seq(|row|, _ => None);
    var pos: seq<Option<Place>> := seq(|row|, _ => None);
    for idx := 0 to |t.columns|
      invariant |field| == |pos| == |value| == |row|
      invariant forall i | 0 <= i < idx ::
                  var s := CkSlot(t, render, row, addNull, i);
                  field[i] == NameSlot(s) && pos[i] == PlaceSlot(s) && value[i] == ValueSlot(s)
      invariant forall i | idx <= i < |row| :: field[i] == None && pos[i] == None && value[i] == None
    {
      if row[idx].None? && !addNull {
        continue;
      }
      field := field[idx := Some(t.columns[idx])];
      if row[idx].None? {
        pos := pos[idx := Some(Null)];
      } else {
        pos := pos[idx := Some(Bound)];
        value := value[idx := Some(Str(render(idx, row[idx].value)))];
      }
    }
    Compacted(CkSlots(t, render, row, addNull), field, pos, value);
    SlotsAppend(CkSlots(t, render, row, addNull), VersionSlots(isdel, version));
    var values := DelNil(value);
    var fields := DelNil(field);
    var places := DelNil(pos);
    VersionLists(isdel, version);
    p := (fields + [DEL_KEY, VERSION_KEY], places + [Bound, Bound], values + [Num(isdel), Num(version)]);
  }

  /** The inserts for one event, in order. */
  function Generate(t: TableInfo, render: Renderer, e: RowEvent, version: int): seq<Prepared>
    requires match e
             case Inserted(row) => |row| == |t.columns|
             case Updated(before, after) => |before| == |after| == |t.columns|
             case Deleted(row) => |row| == |t.columns|
  {
    match e
    case Inserted(row) => [CkInsert(t, render, row, false, 0, version)]
    case Updated(before, after) =>
      [CkInsert(t, render, before, false, DATA_DELETE, version), CkInsert(t, render, after, true, DATA_INSERT, version)]
    case Deleted(row) => [CkInsert(t, render, row, false, DATA_DELETE, version)]
  }

  // ---------------------------------------------------------------------------
  // The server
  // ---------------------------------------------------------------------------

  /** A column as it is stored: what was bound to it, or its default when it was left out. */
  function StoredColumn(s: Schema, server: Server, m: map<string, Option<SqlValue>>, i: nat): Option<string>
    requires i < |s.info.columns| == |s.nullable|
  {
    var name := s.info.columns[i];
    if name in m then TextOf(m[name])
    else if s.nullable[i] then None
    else Some(server.typeDefault(i))
  }

  /** Inserting a row; `None` is an error: arguments that do not fit, a mark other than 0 and 1, or NULL for a column that
      is not Nullable. */
  ghost function Exec(s: Schema, server: Server, p: Prepared): Option<Version>
    requires SchemaOk(s)
  {
    match Bind(p.0, p.1, p.2)
    case None => None
    case Some((m, rest)) =>
      if rest != [] || DEL_KEY !in m || VERSION_KEY !in m then None
      else
        match (m[DEL_KEY], m[VERSION_KEY])
        case (Some(Num(del)), Some(Num(version))) =>
          var row := seq(|s.nullable|, i requires 0 <= i < |s.nullable| => StoredColumn(s, server, m, i));
          if del in {0, 1} && forall i | 0 <= i < |row| && row[i] == None :: s.nullable[i]
          then Some(Version(row, del, version)) else None
        case _ => None
  }

  function Cell(server: Server, r: StoredRow, i: nat): string
    requires i < |r|
  {
    if r[i].Some? then r[i].value else server.nullKey(i)
  }

  /** The partition a row lies in and its sort key there. */
  function Key(s: Schema, server: Server, r: StoredRow): (Option<string>, seq<string>)
    requires forall j | 0 <= j < |s.orders| :: s.orders[j] < |r|
    requires s.partition.Some? ==> s.partition.value.column < |r|
  {
    (if s.partition.None? then None
     else Some(server.bucket(s.partition.value.transform, Cell(server, r, s.partition.value.column))),
     seq(|s.orders|, j requires 0 <= j < |s.orders| => Cell(server, r, s.orders[j])))
  }

  /** The rows of a log have one column each. */
  ghost predicate LogOk(s: Schema, log: seq<Version>) {
    SchemaOk(s) && forall i | 0 <= i < |log| :: |log[i].row| == |s.nullable|
  }

  /** ReplacingMergeTree: per partition and sort key the highest version, and among equals the last inserted. */
  ghost function Winner(s: Schema, server: Server, log: seq<Version>, key: (Option<string>, seq<string>)): Option<Version>
    requires LogOk(s, log)
  {
    if log == [] then None
    else
      var v, w := log[|log| - 1], Winner(s, server, log[..|log| - 1], key);
      if Key(s, server, v.row) == key && (w.None? || v.version >= w.value.version) then Some(v) else w
  }

  /** OPTIMIZE ... FINAL CLEANUP: the winners that are not marked as deleted. */
  ghost function Collapsed(s: Schema, server: Server, log: seq<Version>): set<StoredRow>
    requires LogOk(s, log)
  {
    set v | v in log && |v.row| == |s.nullable| && v.del == 0 && Winner(s, server, log, Key(s, server, v.row)) == Some(v) :: v.row
  }

  ghost function ExecAll(s: Schema, server: Server, log: seq<Version>, ps: seq<Prepared>): Option<seq<Version>>
    requires SchemaOk(s)
    decreases |ps|
  {
    if ps == [] then Some(log)
    else
      match Exec(s, server, ps[0])
      case None => None
      case Some(v) => ExecAll(s, server, log + [v], ps[1..])
  }

  // ---------------------------------------------------------------------------
  // One insert
  // ---------------------------------------------------------------------------

  lemma VersionColumnsDiffer(s: Schema)
    requires SchemaOk(s)
    ensures Distinct(s.info.columns + [DEL_KEY, VERSION_KEY])
  {
    var all := s.info.columns + [DEL_KEY, VERSION_KEY];
    forall i, j | 0 <= i < j < |all| ensures all[i] != all[j] {
      if i < |s.info.columns| {
        assert all[i] in s.info.columns;
      } else {
        assert DEL_KEY[1] != VERSION_KEY[1];
      }
    }
  }

  lemma InsertBinds(s: Schema, render: Renderer, row: Row, addNull: bool, isdel: int, version: int)
    requires SchemaOk(s) && |row| == |s.info.columns|
    ensures var p, m := CkInsert(s.info, render, row, addNull, isdel, version),
                        AsMap(CkSlots(s.info, render, row, addNull) + VersionSlots(isdel, version));
            && Bind(p.0, p.1, p.2) == Some((m, []))
            && DEL_KEY in m && m[DEL_KEY] == Some(Num(isdel)) && VERSION_KEY in m && m[VERSION_KEY] == Some(Num(version))
            && forall i | 0 <= i < |row| ::
                 var slot := CkSlot(s.info, render, row, addNull, i);
                 && (s.info.columns[i] in m <==> slot.Put?)
                 && (slot.Put? ==> m[s.info.columns[i]] == slot.value)
  {
    var slots := CkSlots(s.info, render, row, addNull) + VersionSlots(isdel, version);
    var all := s.info.columns + [DEL_KEY, VERSION_KEY];
    BindSlots(slots, []);
    assert Values(slots) + [] == Values(slots);
    VersionColumnsDiffer(s);
    assert SlotsFor(slots, all);
    forall i | 0 <= i < |row|
      ensures var slot := CkSlot(s.info, render, row, addNull, i);
              && (s.info.columns[i] in AsMap(slots) <==> slot.Put?)
              && (slot.Put? ==> AsMap(slots)[s.info.columns[i]] == slot.value)
    {
      AsMapAt(slots, all, i);
      assert all[i] == s.info.columns[i] && slots[i] == CkSlot(s.info, render, row, addNull, i);
    }
    AsMapAt(slots, all, |row|);
    AsMapAt(slots, all, |row| + 1);
    assert all[|row|] == DEL_KEY && all[|row| + 1] == VERSION_KEY;
  }

  /** What an insert writes: the columns that are not NULL, or all of them, and the two version columns; nothing else. */
  ghost predicate Writes(t: TableInfo, render: Renderer, p: Prepared, row: Row, withNulls: bool, del: int, version: int)
    requires |row| == |t.columns|
  {
    exists m :: Bind(p.0, p.1, p.2) == Some((m, [])) && WritesRow(t, render, m, row, withNulls)
                && "_del" in m && m["_del"] == Some(Num(del)) && "_version" in m && m["_version"] == Some(Num(version))
  }

  ghost predicate WritesRow(t: TableInfo, render: Renderer, m: map<string, Option<SqlValue>>, row: Row, withNulls: bool)
    requires |row| == |t.columns|
  {
    && (forall i | 0 <= i < |row| ::
          && (t.columns[i] in m <==> row[i].Some? || withNulls)
          && (t.columns[i] in m ==> m[t.columns[i]] == if row[i].Some? then Some(Str(render(i, row[i].value))) else None))
    && forall name | name in m :: name in t.columns || name == "_del" || name == "_version"
  }

  lemma InsertWrites(s: Schema, render: Renderer, row: Row, addNull: bool, isdel: int, version: int)
    requires SchemaOk(s) && |row| == |s.info.columns|
    ensures Writes(s.info, render, CkInsert(s.info, render, row, addNull, isdel, version), row, addNull, isdel, version)
  {
    hide CkInsert, VersionSlots, CkSlots, Bind;
    InsertBinds(s, render, row, addNull, isdel, version);
    var slots := CkSlots(s.info, render, row, addNull) + VersionSlots(isdel, version);
    var m := AsMap(slots);
    forall name | name in m ensures name in s.info.columns || name == "_del" || name == "_version" {
      VersionSlotsNamed(s.info, slots, isdel, version, render, row, addNull);
      AsMapDomain(slots, s.info.columns + ["_del", "_version"], name);
    }
    assert WritesRow(s.info, render, m, row, addNull);
  }

  lemma VersionSlotsNamed(t: TableInfo, slots: seq<Slot>, isdel: int, version: int, render: Renderer, row: Row, addNull: bool)
    requires |row| == |t.columns| && slots == CkSlots(t, render, row, addNull) + VersionSlots(isdel, version)
    ensures SlotsFor(slots, t.columns + ["_del", "_version"])
  {
  }

  /** The inserts of an event: a new row without its NULLs; an old row without its NULLs and marked as deleted, followed,
      if it was updated, by the new one with its NULLs written out; all under the version of the event. */
  lemma GeneratedWrites(s: Schema, render: Renderer, e: RowEvent, version: int)
    requires SchemaOk(s)
    requires match e
             case Inserted(row) => |row| == |s.info.columns|
             case Updated(before, after) => |before| == |after| == |s.info.columns|
             case Deleted(row) => |row| == |s.info.columns|
    ensures var ps := Generate(s.info, render, e, version);
            match e
            case Inserted(row) => |ps| == 1 && Writes(s.info, render, ps[0], row, false, 0, version)
            case Deleted(row) => |ps| == 1 && Writes(s.info, render, ps[0], row, false, 1, version)
            case Updated(before, after) =>
              && |ps| == 2 && Writes(s.info, render, ps[0], before, false, 1, version)
              && Writes(s.info, render, ps[1], after, true, 0, version)
  {
    hide CkInsert, Writes;
    match e
    case Inserted(row) => InsertWrites(s, render, row, false, 0, version);
    case Deleted(row) => InsertWrites(s, render, row, false, 1, version);
    case Updated(before, after) =>
      InsertWrites(s, render, before, false, 1, version);
      InsertWrites(s, render, after, true, 0, version);
  }

  /** A row is stored as it was, whether its NULLs were written or left out. */
  lemma InsertStores(s: Schema, server: Server, render: Renderer, row: Row, addNull: bool, isdel: int, version: int)
    requires SchemaOk(s) && NullsFit(s, row) && isdel in {0, 1}
    ensures Exec(s, server, CkInsert(s.info, render, row, addNull, isdel, version))
            == Some(Version(Rendered(render, row), isdel, version))
  {
    hide CkInsert, VersionSlots, CkSlots;
    InsertBinds(s, render, row, addNull, isdel, version);
    var p := CkInsert(s.info, render, row, addNull, isdel, version);
    var m := Bind(p.0, p.1, p.2).value.0;
    var stored := seq(|s.nullable|, i requires 0 <= i < |s.nullable| => StoredColumn(s, server, m, i));
    forall i | 0 <= i < |row| ensures stored[i] == Rendered(render, row)[i] {
      assert CkSlot(s.info, render, row, addNull, i).Put? <==> s.info.columns[i] in m;
    }
    assert stored == Rendered(render, row);
  }

  // ---------------------------------------------------------------------------
  // Collapsing
  // ---------------------------------------------------------------------------

  ghost predicate Ordered(log: seq<Version>) {
    forall i, j | 0 <= i < j < |log| :: log[i].version <= log[j].version
  }

  /** The last row with a key. */
  ghost function Latest(s: Schema, server: Server, log: seq<Version>, key: (Option<string>, seq<string>)): Option<Version>
    requires LogOk(s, log)
  {
    if log == [] then None
    else if Key(s, server, log[|log| - 1].row) == key then Some(log[|log| - 1])
    else Latest(s, server, log[..|log| - 1], key)
  }

  lemma {:induction false} LatestIsThere(s: Schema, server: Server, log: seq<Version>, key: (Option<string>, seq<string>))
    requires LogOk(s, log)
    ensures var v := Latest(s, server, log, key);
            v.Some? ==> v.value in log && |v.value.row| == |s.nullable| && Key(s, server, v.value.row) == key
  {
    if log != [] {
      LatestIsThere(s, server, log[..|log| - 1], key);
    }
  }

  /** No row with this key has a higher version than the n-th, and none with the same version comes later. */
  ghost predicate Highest(s: Schema, server: Server, log: seq<Version>, key: (Option<string>, seq<string>), n: nat)
    requires LogOk(s, log)
  {
    && n < |log| && Key(s, server, log[n].row) == key
    && forall i | 0 <= i < |log| && Key(s, server, log[i].row) == key ::
         log[i].version < log[n].version || (log[i].version == log[n].version && i <= n)
  }

  /** The winner is what the engine promises: the highest row of its key, whenever there is a row. */
  lemma {:induction false} WinnerIsHighest(s: Schema, server: Server, log: seq<Version>, key: (Option<string>, seq<string>))
    returns (n: nat)
    requires LogOk(s, log)
    ensures Winner(s, server, log, key).None? ==> forall i | 0 <= i < |log| :: Key(s, server, log[i].row) != key
    ensures Winner(s, server, log, key).Some? ==>
              Highest(s, server, log, key, n) && log[n] == Winner(s, server, log, key).value
  {
    hide Key;
    n := 0;
    if log != [] {
      var rest, last := log[..|log| - 1], |log| - 1;
      n := WinnerIsHighest(s, server, rest, key);
      assert forall i | 0 <= i < |rest| :: rest[i] == log[i];
      if Winner(s, server, log, key) == Some(log[last]) && Key(s, server, log[last].row) == key {
        if Winner(s, server, rest, key).None? || log[last].version >= log[n].version {
          n := last;
        }
      }
    }
  }

  /** With non-decreasing versions the winner is simply the last row with its key. */
  lemma {:induction false} WinnerIsLatest(s: Schema, server: Server, log: seq<Version>, key: (Option<string>, seq<string>))
    requires LogOk(s, log) && Ordered(log)
    ensures Winner(s, server, log, key) == Latest(s, server, log, key)
  {
    if log != [] {
      var rest := log[..|log| - 1];
      WinnerIsLatest(s, server, rest, key);
      LatestIsThere(s, server, rest, key);
      var w := Latest(s, server, rest, key);
      if w.Some? {
        var i :| 0 <= i < |rest| && rest[i] == w.value;
        assert log[i].version <= log[|log| - 1].version;
      }
    }
  }

  ghost predicate Live(s: Schema, server: Server, log: seq<Version>, r: StoredRow)
    requires LogOk(s, log)
  {
    && |r| == |s.nullable|
    && var v := Latest(s, server, log, Key(s, server, r));
       v.Some? && v.value.row == r && v.value.del == 0
  }

  lemma CollapsedIsLive(s: Schema, server: Server, log: seq<Version>)
    requires LogOk(s, log) && Ordered(log)
    ensures forall r :: r in Collapsed(s, server, log) <==> Live(s, server, log, r)
  {
    forall r ensures r in Collapsed(s, server, log) <==> Live(s, server, log, r) {
      if r in Collapsed(s, server, log) {
        WinnerIsLatest(s, server, log, Key(s, server, r));
      }
      if Live(s, server, log, r) {
        var key := Key(s, server, r);
        WinnerIsLatest(s, server, log, key);
        LatestIsThere(s, server, log, key);
        assert Winner(s, server, log, key).value in log;
      }
    }
  }

  lemma LatestAfter(s: Schema, server: Server, log: seq<Version>, v: Version, key: (Option<string>, seq<string>))
    requires LogOk(s, log) && |v.row| == |s.nullable|
    ensures LogOk(s, log + [v])
    ensures Latest(s, server, log + [v], key)
            == if Key(s, server, v.row) == key then Some(v) else Latest(s, server, log, key)
  {
    assert (log + [v])[..|log|] == log;
  }

  // ---------------------------------------------------------------------------
  // Replaying
  // ---------------------------------------------------------------------------

  ghost predicate RowsFit(s: Schema, rows: set<Row>) {
    ContentsOk(s.info, rows) && forall r | r in rows :: NullsFit(s, r)
  }

  /** The log stands for the table: what it collapses to is the table, rendered. */
  ghost predicate Stands(s: Schema, server: Server, render: Renderer, log: seq<Version>, rows: set<Row>) {
    LogOk(s, log) && forall r :: Live(s, server, log, r) <==> r in RenderedAll(render, rows)
  }

  ghost predicate ReplayOk(s: Schema, server: Server, render: Renderer) {
    SchemaOk(s) && KeysDecided(s, server, render) && KeysReadable(s.info, render)
  }

  /** Rows of the source that fall on one sort key in one partition have the same primary key. */
  lemma SortKeyDecides(s: Schema, server: Server, render: Renderer, r: Row, q: Row)
    requires ReplayOk(s, server, render) && RowOk(s.info, r) && RowOk(s.info, q)
    requires Key(s, server, Rendered(render, r)) == Key(s, server, Rendered(render, q))
    ensures SameKey(s.info, r, q)
  {
    var a, b := Rendered(render, r), Rendered(render, q);
    forall k | k in s.info.keys ensures r[k] == q[k] {
      assert r[k].Some? && q[k].Some?;
      if k in s.orders {
        var j :| 0 <= j < |s.orders| && s.orders[j] == k;
        assert Key(s, server, a).1[j] == Key(s, server, b).1[j];
        assert render(k, r[k].value) == render(k, q[k].value);
      } else {
        assert PartitionTells(s, server, render, k);
        assert a[k] == Some(render(k, r[k].value)) && b[k] == Some(render(k, q[k].value));
      }
    }
  }

  lemma DeleteStands(s: Schema, server: Server, render: Renderer, log: seq<Version>, rows: set<Row>, row: Row, version: int)
    requires ReplayOk(s, server, render) && RowsFit(s, rows) && Stands(s, server, render, log, rows) && row in rows
    ensures Stands(s, server, render, log + [Version(Rendered(render, row), DATA_DELETE, version)], rows - {row})
  {
    var v := Version(Rendered(render, row), DATA_DELETE, version);
    forall r: StoredRow
      ensures LogOk(s, log + [v])
      ensures Live(s, server, log + [v], r) <==> r in RenderedAll(render, rows - {row})
    {
      if |r| == |s.nullable| {
        LatestAfter(s, server, log, v, Key(s, server, r));
      } else {
        LatestAfter(s, server, log, v, Key(s, server, v.row));
      }
      if r in RenderedAll(render, rows - {row}) {
        var q :| q in rows - {row} && Rendered(render, q) == r;
        if Key(s, server, r) == Key(s, server, v.row) {
          SortKeyDecides(s, server, render, q, row);
          assert false;
        }
        assert r in RenderedAll(render, rows);
      }
      if Live(s, server, log + [v], r) {
        assert r != v.row && Live(s, server, log, r);
        var q :| q in rows && Rendered(render, q) == r;
      }
    }
  }

  lemma InsertStands(s: Schema, server: Server, render: Renderer, log: seq<Version>, rows: set<Row>, row: Row, version: int)
    requires ReplayOk(s, server, render) && RowsFit(s, rows) && Stands(s, server, render, log, rows)
    requires RowOk(s.info, row) && NewKey(s.info, rows, row)
    ensures Stands(s, server, render, log + [Version(Rendered(render, row), DATA_INSERT, version)], rows + {row})
  {
    var v := Version(Rendered(render, row), DATA_INSERT, version);
    forall r: StoredRow
      ensures LogOk(s, log + [v])
      ensures Live(s, server, log + [v], r) <==> r in RenderedAll(render, rows + {row})
    {
      if |r| == |s.nullable| {
        LatestAfter(s, server, log, v, Key(s, server, r));
      } else {
        LatestAfter(s, server, log, v, Key(s, server, v.row));
      }
      if r in RenderedAll(render, rows + {row}) && r != v.row {
        var q :| q in rows + {row} && Rendered(render, q) == r;
        if Key(s, server, r) == Key(s, server, v.row) {
          SortKeyDecides(s, server, render, q, row);
          assert false;
        }
        assert r in RenderedAll(render, rows);
      }
      if Live(s, server, log + [v], r) && r != v.row {
        assert Live(s, server, log, r);
        var q :| q in rows && Rendered(render, q) == r;
        assert q in rows + {row};
      }
    }
  }

  /** What one event appends to the log. */
  function Appended(render: Renderer, e: RowEvent, version: int): seq<Version> {
    match e
    case Inserted(row) => [Version(Rendered(render, row), DATA_INSERT, version)]
    case Updated(before, after) =>
      [Version(Rendered(render, before), DATA_DELETE, version), Version(Rendered(render, after), DATA_INSERT, version)]
    case Deleted(row) => [Version(Rendered(render, row), DATA_DELETE, version)]
  }

  ghost predicate EventFits(s: Schema, e: RowEvent) {
    match e
    case Inserted(row) => NullsFit(s, row)
    case Updated(_, after) => NullsFit(s, after)
    case Deleted(_) => true
  }

  lemma EventExecutes(s: Schema, server: Server, render: Renderer, log: seq<Version>, rows: set<Row>, e: RowEvent, version: int)
    requires SchemaOk(s) && RowsFit(s, rows) && Valid(s.info, rows, e) && EventFits(s, e)
    ensures ExecAll(s, server, log, Generate(s.info, render, e, version)) == Some(log + Appended(render, e, version))
  {
    hide Exec, CkInsert;
    var ps := Generate(s.info, render, e, version);
    match e {
      case Inserted(row) => InsertStores(s, server, render, row, false, DATA_INSERT, version);
      case Deleted(row) => InsertStores(s, server, render, row, false, DATA_DELETE, version);
      case Updated(before, after) =>
        InsertStores(s, server, render, before, false, DATA_DELETE, version);
        InsertStores(s, server, render, after, true, DATA_INSERT, version);
        var v := Version(Rendered(render, before), DATA_DELETE, version);
        var w := Version(Rendered(render, after), DATA_INSERT, version);
        assert log + [v] + [w] == log + Appended(render, e, version);
        assert ExecAll(s, server, log + [v], ps[1..]) == Some(log + [v] + [w]);
    }
  }

  lemma EventStands(s: Schema, server: Server, render: Renderer, log: seq<Version>, rows: set<Row>, e: RowEvent, version: int)
    requires ReplayOk(s, server, render) && RowsFit(s, rows) && Stands(s, server, render, log, rows)
    requires Valid(s.info, rows, e) && EventFits(s, e)
    ensures Stands(s, server, render, log + Appended(render, e, version), After(rows, e)) && RowsFit(s, After(rows, e))
  {
    hide Stands, Valid;
    AfterOk(s.info, rows, e);
    match e {
      case Inserted(row) =>
        ValidParts(s.info, rows, e);
        InsertStands(s, server, render, log, rows, row, version);
      case Deleted(row) =>
        ValidParts(s.info, rows, e);
        DeleteStands(s, server, render, log, rows, row, version);
      case Updated(before, after) =>
        ValidParts(s.info, rows, e);
        DeleteStands(s, server, render, log, rows, before, version);
        var v := Version(Rendered(render, before), DATA_DELETE, version);
        var w := Version(Rendered(render, after), DATA_INSERT, version);
        InsertStands(s, server, render, log + [v], rows - {before}, after, version);
        assert log + [v] + [w] == log + Appended(render, e, version);
    }
  }

  lemma ValidParts(t: TableInfo, rows: set<Row>, e: RowEvent)
    requires Valid(t, rows, e)
    ensures e.Inserted? ==> RowOk(t, e.row) && NewKey(t, rows, e.row)
    ensures e.Updated? ==> e.before in rows && RowOk(t, e.after) && NewKey(t, rows - {e.before}, e.after)
    ensures e.Deleted? ==> e.row in rows
  {
  }

  /** The events of a run with their data versions, each at least the one before it. */
  ghost predicate VersionsOk(log: seq<Version>, versions: seq<int>) {
    && (forall i, j | 0 <= i < j < |versions| :: versions[i] <= versions[j])
    && (forall i, j | 0 <= i < |log| && 0 <= j < |versions| :: log[i].version <= versions[j])
  }

  /** Generating and executing the inserts of a run one event after the other, up to the first error. */
  ghost function Replayed(s: Schema, server: Server, render: Renderer, log: seq<Version>, rows: set<Row>,
                          events: seq<RowEvent>, versions: seq<int>): Option<seq<Version>>
    requires SchemaOk(s) && ContentsOk(s.info, rows) && ValidRun(s.info, rows, events) && |versions| == |events|
    decreases |events|
  {
    if events == [] then Some(log)
    else
      AfterOk(s.info, rows, events[0]);
      match ExecAll(s, server, log, Generate(s.info, render, events[0], versions[0]))
      case None => None
      case Some(next) => Replayed(s, server, render, next, After(rows, events[0]), events[1..], versions[1..])
  }

  lemma {:induction false} RunStands(s: Schema, server: Server, render: Renderer, log: seq<Version>, rows: set<Row>,
                                     events: seq<RowEvent>, versions: seq<int>)
    requires ReplayOk(s, server, render) && RowsFit(s, rows) && Stands(s, server, render, log, rows) && Ordered(log)
    requires ValidRun(s.info, rows, events) && (forall e | e in events :: EventFits(s, e))
    requires |versions| == |events| && VersionsOk(log, versions)
    ensures var r := Replayed(s, server, render, log, rows, events, versions);
            r.Some? && Stands(s, server, render, r.value, AfterAll(rows, events)) && Ordered(r.value)
    decreases |events|
  {
    hide Stands, ExecAll, Valid;
    if events != [] {
      var e, next := events[0], log + Appended(render, events[0], versions[0]);
      assert e in events;
      EventExecutes(s, server, render, log, rows, e, versions[0]);
      EventStands(s, server, render, log, rows, e, versions[0]);
      RunStands(s, server, render, next, After(rows, e), events[1..], versions[1..]);
    }
  }

  /** From any log that stands for a table, for every run of valid events with non-decreasing data versions: every
      generated insert succeeds, and collapsing the log gives exactly the rows of the source. */
  lemma CollapseFollowsSource(s: Schema, server: Server, render: Renderer, log: seq<Version>, rows: set<Row>,
                              events: seq<RowEvent>, versions: seq<int>)
    requires ReplayOk(s, server, render) && RowsFit(s, rows)
    requires LogOk(s, log) && Ordered(log) && Collapsed(s, server, log) == RenderedAll(render, rows)
    requires ValidRun(s.info, rows, events) && (forall e | e in events :: EventFits(s, e))
    requires |versions| == |events| && VersionsOk(log, versions)
    ensures var r := Replayed(s, server, render, log, rows, events, versions);
            r.Some? && LogOk(s, r.value) && Collapsed(s, server, r.value) == RenderedAll(render, AfterAll(rows, events))
  {
    CollapsedIsLive(s, server, log);
    RunStands(s, server, render, log, rows, events, versions);
    CollapsedIsLive(s, server, Replayed(s, server, render, log, rows, events, versions).value);
  }

  lemma NothingCollapses(s: Schema, server: Server, render: Renderer)
    requires SchemaOk(s)
    ensures RowsFit(s, {}) && LogOk(s, []) && Ordered([]) && Collapsed(s, server, []) == RenderedAll(render, {})
  {
  }

  // ---------------------------------------------------------------------------
  // The conditions are needed
  // ---------------------------------------------------------------------------

  ghost predicate FollowsSource(s: Schema, server: Server, render: Renderer, events: seq<RowEvent>, versions: seq<int>)
    requires SchemaOk(s)
  {
    ValidRun(s.info, {}, events) && (forall e | e in events :: EventFits(s, e)) && |versions| == |events| ==>
      var r := Replayed(s, server, render, [], {}, events, versions);
      r.Some? && LogOk(s, r.value) && Collapsed(s, server, r.value) == RenderedAll(render, AfterAll({}, events))
  }

  lemma RunOfTwo(t: TableInfo, rows: set<Row>, a: RowEvent, b: RowEvent)
    ensures AfterAll(rows, [a, b]) == After(After(rows, a), b)
    ensures Valid(t, rows, a) && Valid(t, After(rows, a), b) ==> ValidRun(t, rows, [a, b])
  {
    assert [a, b][1..] == [b] && [b][1..] == [];
    assert AfterAll(After(After(rows, a), b), []) == After(After(rows, a), b);
    assert AfterAll(After(rows, a), [b]) == AfterAll(After(After(rows, a), b), [b][1..]);
    assert ValidRun(t, After(After(rows, a), b), []);
    assert Valid(t, After(rows, a), b) ==> ValidRun(t, After(rows, a), [b]);
  }

  lemma ReplayOfTwo(s: Schema, server: Server, render: Renderer, a: RowEvent, b: RowEvent, i: int, j: int)
    requires SchemaOk(s) && RowsFit(s, {}) && Valid(s.info, {}, a) && Valid(s.info, After({}, a), b)
    requires EventFits(s, a) && EventFits(s, b) && RowsFit(s, After({}, a))
    ensures ValidRun(s.info, {}, [a, b])
    ensures Replayed(s, server, render, [], {}, [a, b], [i, j]) == Some(Appended(render, a, i) + Appended(render, b, j))
  {
    hide ExecAll, Valid;
    RunOfTwo(s.info, {}, a, b);
    var rows := After({}, a);
    var log := Appended(render, a, i);
    EventExecutes(s, server, render, [], {}, a, i);
    EventExecutes(s, server, render, log, rows, b, j);
    assert [] + log == log;
    assert [a, b][1..] == [b] && [i, j][1..] == [j] && [b][1..] == [] && [j][1..] == [];
    assert Replayed(s, server, render, log, rows, [b], [j]) == Some(log + Appended(render, b, j));
  }

  /** Values that a column cannot keep apart, neither through the sort key nor through the partition. */
  lemma Confused(s: Schema, server: Server, render: Renderer, k: nat) returns (v: Value, w: Value)
    requires !PartitionTells(s, server, render, k)
    ensures v != w
    ensures s.partition.Some? && s.partition.value.column == k ==>
              server.bucket(s.partition.value.transform, render(k, v)) == server.bucket(s.partition.value.transform, render(k, w))
  {
    v, w := Number(0), Number(1);
    if s.partition.Some? && s.partition.value.column == k {
      var tr := s.partition.value.transform;
      v, w :| server.bucket(tr, render(k, v)) == server.bucket(tr, render(k, w)) && v != w;
    }
  }

  /** Two rows of the source that differ only in a key column that nothing tells apart: the earlier one is lost. */
  lemma UndecidedKeyLosesARow(s: Schema, server: Server, render: Renderer, k: nat) returns (events: seq<RowEvent>)
    requires SchemaOk(s) && KeysReadable(s.info, render)
    requires k in s.info.keys && k !in s.orders && !PartitionTells(s, server, render, k)
    ensures !FollowsSource(s, server, render, events, [0, 0])
    ensures forall e | e in events :: e.Inserted? && |e.row| == |s.nullable| && forall i | 0 <= i < |e.row| :: e.row[i].Some?
  {
    hide Valid, Collapsed, Key, PartitionTells, Replayed, AfterAll, ValidRun;
    var x, y := Confused(s, server, render, k);
    var filled: Row := seq(|s.nullable|, _ => Some(Number(0)));
    var r, q := filled[k := Some(x)], filled[k := Some(y)];
    var a, b := Inserted(r), Inserted(q);
    events := [a, b];
    TwoInsertsValid(s.info, r, q, k);
    ReplayOfTwo(s, server, render, a, b, 0, 0);
    RunOfTwo(s.info, {}, a, b);
    var v, w := Version(Rendered(render, r), DATA_INSERT, 0), Version(Rendered(render, q), DATA_INSERT, 0);
    assert Appended(render, a, 0) + Appended(render, b, 0) == [v, w];
    MissedKeyCollides(s, server, render, filled, k, x, y);
    assert v.row[k] == Some(render(k, x)) && w.row[k] == Some(render(k, y));
    LastWins(s, server, v, w);
    assert r in AfterAll({}, events) && v.row in RenderedAll(render, AfterAll({}, events));
  }

  lemma TwoInsertsValid(t: TableInfo, r: Row, q: Row, k: nat)
    requires RowOk(t, r) && RowOk(t, q) && k in t.keys && k < |r| && r[k] != q[k]
    ensures Valid(t, {}, Inserted(r)) && Valid(t, After({}, Inserted(r)), Inserted(q))
  {
    assert !SameKey(t, r, q);
  }

  /** The sort key must contain the primary key, up to a column that the partition tells apart: replay follows every run
      of the source exactly when it does. A table partitioned by a column of its sort key has no such exception. */
  lemma SortKeyMustCover(s: Schema, server: Server, render: Renderer)
    requires SchemaOk(s) && KeysReadable(s.info, render)
    ensures KeysDecided(s, server, render) <==>
            forall events, versions | Nondecreasing(versions) :: FollowsSource(s, server, render, events, versions)
    ensures (s.partition.Some? ==> s.partition.value.column in s.orders) ==> (KeysDecided(s, server, render) <==> CoversKeys(s))
  {
    hide FollowsSource;
    if KeysDecided(s, server, render) {
      forall events, versions | Nondecreasing(versions) ensures FollowsSource(s, server, render, events, versions) {
        CoveredKeyFollows(s, server, render, events, versions);
      }
    } else {
      var k :| k in s.info.keys && k !in s.orders && !PartitionTells(s, server, render, k);
      var events := UndecidedKeyLosesARow(s, server, render, k);
      assert Nondecreasing([0, 0]);
    }
  }

  lemma CoveredKeyFollows(s: Schema, server: Server, render: Renderer, events: seq<RowEvent>, versions: seq<int>)
    requires ReplayOk(s, server, render) && Nondecreasing(versions)
    ensures FollowsSource(s, server, render, events, versions)
  {
    if ValidRun(s.info, {}, events) && (forall e | e in events :: EventFits(s, e)) && |versions| == |events| {
      CollapseFollowsSource(s, server, render, [], {}, events, versions);
    }
  }

  ghost predicate Nondecreasing(versions: seq<int>) {
    forall i, j | 0 <= i < j < |versions| :: versions[i] <= versions[j]
  }

  lemma MissedKeyCollides(s: Schema, server: Server, render: Renderer, row: Row, k: nat, x: Value, y: Value)
    requires SchemaOk(s) && |row| == |s.nullable| && k < |row| && k !in s.orders
    requires s.partition.Some? && s.partition.value.column == k ==>
               server.bucket(s.partition.value.transform, render(k, x)) == server.bucket(s.partition.value.transform, render(k, y))
    ensures Key(s, server, Rendered(render, row[k := Some(x)])) == Key(s, server, Rendered(render, row[k := Some(y)]))
  {
    var a, b := Rendered(render, row[k := Some(x)]), Rendered(render, row[k := Some(y)]);
    assert a[k] == Some(render(k, x)) && b[k] == Some(render(k, y));
    forall i | 0 <= i < |a| && i != k ensures a[i] == b[i] {}
    forall j | 0 <= j < |s.orders| ensures s.orders[j] != k {
      assert s.orders[j] in s.orders;
    }
    assert Key(s, server, a).1 == Key(s, server, b).1;
  }

  lemma LastWins(s: Schema, server: Server, v: Version, w: Version)
    requires SchemaOk(s) && |v.row| == |w.row| == |s.nullable| && v.version <= w.version
    requires Key(s, server, v.row) == Key(s, server, w.row) && v.row != w.row
    ensures LogOk(s, [v, w]) && v.row !in Collapsed(s, server, [v, w])
  {
    var log := [v, w];
    assert log[..1] == [v];
    WinnerIsLatest(s, server, log, Key(s, server, v.row));
  }

  // ---------------------------------------------------------------------------
  // Versions must not decrease
  // ---------------------------------------------------------------------------

  /** The i-th of many rows with different keys. */
  function Numbered(s: Schema, i: nat): Row {
    seq(|s.nullable|, _ => Some(Number(i)))
  }

  /** Insert a new row every time, but delete row `p` right after it was inserted. */
  function DropEvent(s: Schema, p: nat, i: nat): RowEvent {
    if i == p + 1 then Deleted(Numbered(s, p)) else Inserted(Numbered(s, i))
  }

  function DropEvents(s: Schema, p: nat, n: nat): seq<RowEvent> {
    seq(n, i requires 0 <= i < n => DropEvent(s, p, i))
  }

  ghost function DropRows(s: Schema, p: nat, i: nat): set<Row> {
    set j: nat | j < i && j != p + 1 && (j == p ==> i < p + 2) :: Numbered(s, j)
  }

  function DropLog(s: Schema, render: Renderer, p: nat, versions: seq<int>, i: nat): seq<Version>
    requires i <= |versions|
  {
    seq(i, j requires 0 <= j < i =>
      if j == p + 1 then Version(Rendered(render, Numbered(s, p)), DATA_DELETE, versions[j])
      else Version(Rendered(render, Numbered(s, j)), DATA_INSERT, versions[j]))
  }

  lemma NumberedDiffer(s: Schema, i: nat, j: nat)
    requires SchemaOk(s)
    ensures RowOk(s.info, Numbered(s, i)) && NullsFit(s, Numbered(s, i))
    ensures SameKey(s.info, Numbered(s, i), Numbered(s, j)) <==> i == j
  {
    var k :| k in s.info.keys;
    assert Numbered(s, i)[k] == Some(Number(i)) && Numbered(s, j)[k] == Some(Number(j));
  }

  lemma DropRowsFit(s: Schema, p: nat, i: nat)
    requires SchemaOk(s)
    ensures RowsFit(s, DropRows(s, p, i))
    ensures i != p + 1 ==> NewKey(s.info, DropRows(s, p, i), Numbered(s, i))
    ensures i == p + 1 ==> Numbered(s, p) in DropRows(s, p, i)
    ensures DropRows(s, p, i + 1) == After(DropRows(s, p, i), DropEvent(s, p, i))
  {
    forall a: nat, b: nat ensures RowOk(s.info, Numbered(s, a)) && NullsFit(s, Numbered(s, a))
                          ensures SameKey(s.info, Numbered(s, a), Numbered(s, b)) <==> a == b
    {
      NumberedDiffer(s, a, b);
    }
    hide Numbered, SameKey;
    assert Numbered(s, p) == Numbered(s, p) && SameKey(s.info, Numbered(s, p), Numbered(s, p));
    forall a: nat, b: nat | Numbered(s, a) == Numbered(s, b) ensures a == b {
      assert SameKey(s.info, Numbered(s, a), Numbered(s, a));
    }
  }

  /** The run, from any point on. */
  lemma {:induction false} DropRun(s: Schema, server: Server, render: Renderer, versions: seq<int>, p: nat, i: nat)
    requires SchemaOk(s) && i <= |versions|
    ensures var n := |versions|;
            var events, rows := DropEvents(s, p, n)[i..], DropRows(s, p, i);
            && ContentsOk(s.info, rows) && ValidRun(s.info, rows, events) && (forall e | e in events :: EventFits(s, e))
            && AfterAll(rows, events) == DropRows(s, p, n)
            && Replayed(s, server, render, DropLog(s, render, p, versions, i), rows, events, versions[i..])
               == Some(DropLog(s, render, p, versions, n))
    decreases |versions| - i
  {
    hide Numbered, DropRows, ExecAll;
    DropRowsFit(s, p, i);
    if i < |versions| {
      var n, rows, e := |versions|, DropRows(s, p, i), DropEvent(s, p, i);
      var events, log := DropEvents(s, p, n)[i..], DropLog(s, render, p, versions, i);
      NumberedDiffer(s, i, i);
      assert Valid(s.info, rows, e) && EventFits(s, e);
      EventExecutes(s, server, render, log, rows, e, versions[i]);
      assert log + Appended(render, e, versions[i]) == DropLog(s, render, p, versions, i + 1);
      DropRun(s, server, render, versions, p, i + 1);
      assert events[0] == e && events[1..] == DropEvents(s, p, n)[i + 1..] && versions[i..][1..] == versions[i + 1..];
      assert events == [e] + events[1..];
    }
  }

  /** With a drop at `p` the deletion of row `p` loses against its insertion, and the row stays. */
  lemma DropKeepsRow(s: Schema, server: Server, render: Renderer, versions: seq<int>, p: nat)
    requires ReplayOk(s, server, render) && p + 1 < |versions| && versions[p] > versions[p + 1]
    ensures var log, row := DropLog(s, render, p, versions, |versions|), Rendered(render, Numbered(s, p));
            LogOk(s, log) && row in Collapsed(s, server, log) && row !in RenderedAll(render, DropRows(s, p, |versions|))
  {
    hide Key;
    var log, row := DropLog(s, render, p, versions, |versions|), Rendered(render, Numbered(s, p));
    var key := Key(s, server, row);
    forall j: nat | j < |log| && j != p && j != p + 1 ensures Key(s, server, log[j].row) != key {
      NumberedDiffer(s, j, p);
      NumberedDiffer(s, p, j);
      if Key(s, server, log[j].row) == key {
        SortKeyDecides(s, server, render, Numbered(s, j), Numbered(s, p));
      }
    }
    var m := WinnerIsHighest(s, server, log, key);
    assert log[p].row == row && log[p + 1].row == row;
    assert Winner(s, server, log, key) == Some(log[p]);
    assert log[p] in log;
    forall j: nat | j != p ensures Rendered(render, Numbered(s, j)) != row {
      NumberedDiffer(s, j, p);
      NumberedDiffer(s, p, j);
      StoredKeysAgree(s.info, render, Numbered(s, j), Numbered(s, p));
    }
  }

  lemma {:induction false} AdjacentDrop(versions: seq<int>, i: nat, j: nat) returns (p: nat)
    requires i < j < |versions| && versions[i] > versions[j]
    ensures p + 1 < |versions| && versions[p] > versions[p + 1]
    decreases j - i
  {
    p := i;
    if versions[i] <= versions[i + 1] {
      p := AdjacentDrop(versions, i + 1, j);
    }
  }

  /** Replay with these versions follows every run of the source exactly when the versions never decrease. */
  lemma VersionsMustNotDecrease(s: Schema, server: Server, render: Renderer, versions: seq<int>)
    requires ReplayOk(s, server, render)
    ensures Nondecreasing(versions) <==>
            forall events: seq<RowEvent> | |events| == |versions| :: FollowsSource(s, server, render, events, versions)
  {
    hide Collapsed, DropRows, DropLog, DropEvent, Replayed, AfterAll, ValidRun, EventFits;
    if Nondecreasing(versions) {
      forall events: seq<RowEvent> | |events| == |versions| ensures FollowsSource(s, server, render, events, versions) {
        CoveredKeyFollows(s, server, render, events, versions);
      }
    } else {
      var i, j :| 0 <= i < j < |versions| && versions[i] > versions[j];
      var p := AdjacentDrop(versions, i, j);
      var events := DropEvents(s, p, |versions|);
      DropRun(s, server, render, versions, p, 0);
      DropKeepsRow(s, server, render, versions, p);
      DropStarts(s, render, p, versions);
      assert events[0..] == events && versions[0..] == versions;
      assert !FollowsSource(s, server, render, events, versions);
    }
  }

  lemma DropStarts(s: Schema, render: Renderer, p: nat, versions: seq<int>)
    ensures DropRows(s, p, 0) == {} && DropLog(s, render, p, versions, 0) == []
  {
  }
}
