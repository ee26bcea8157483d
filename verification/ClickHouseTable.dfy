/** clickhouse/clickhouse.go: from CREATE TABLE of the source to sort key, partition and nullability. */
module ClickHouseTable {
  import opened Common

  datatype ColumnOption = NotNull | AutoIncrement | PrimaryKeyOption | OtherOption

  /** A column definition; `dataType` is the ClickHouse type its MySQL type maps to. */
  datatype ColumnDef = ColumnDef(name: string, dataType: string, options: seq<ColumnOption>)

  datatype ConstraintKind = PrimaryKey | Index | UniqueKey | OtherConstraint
  datatype Constraint = Constraint(kind: ConstraintKind, keys: seq<string>)

  datatype ColumnView = ColumnView(
    name: string,
    dataType: string,
    nullable: bool,
    increment: bool,
    primaryKey: bool,
    index: bool,
    unique: bool)

  /** One expression of ORDER BY: the column it reads and the text that is emitted. */
  datatype OrderTerm = OrderTerm(column: nat, text: string)

  datatype Transform = Itself | ToYYYYMM | IntDiv(divisor: nat)
  datatype Partition = Partition(column: nat, transform: Transform)

  const DEL_KEY := "_del"
  const VERSION_KEY := "_version"

  // ---------------------------------------------------------------------------
  // The policies as functions
  // ---------------------------------------------------------------------------

  function WithOption(c: ColumnView, o: ColumnOption): ColumnView {
    match o
    case NotNull => c.(nullable := false)
    case AutoIncrement => c.(increment := true)
    case PrimaryKeyOption => c.(primaryKey := true)
    case OtherOption => c
  }

  function WithOptions(c: ColumnView, options: seq<ColumnOption>): ColumnView {
    if options == [] then c
    else WithOption(WithOptions(c, options[..|options| - 1]), options[|options| - 1])
  }

  function FromDef(d: ColumnDef): ColumnView {
    WithOptions(ColumnView(d.name, d.dataType, true, false, false, false, false), d.options)
  }

  function VersionColumn(name: string, dataType: string): ColumnView {
    ColumnView(name, dataType, false, false, false, false, false)
  }

  /** A key part sets a flag on its column; only a primary key makes the column NOT NULL. */
  function Marked(c: ColumnView, kind: ConstraintKind): ColumnView {
    match kind
    case PrimaryKey => c.(primaryKey := true, nullable := false)
    case Index => c.(index := true)
    case UniqueKey => c.(unique := true)
    case OtherConstraint => c
  }

  /** A key part whose name is not, letter for letter, that of a column is passed over. */
  function WithKey(cs: seq<ColumnView>, colpos: map<string, nat>, kind: ConstraintKind, name: string): (r: seq<ColumnView>)
    ensures |r| == |cs|
  {
    if name in colpos && colpos[name] < |cs| then cs[colpos[name] := Marked(cs[colpos[name]], kind)] else cs
  }

  function WithKeys(cs: seq<ColumnView>, colpos: map<string, nat>, kind: ConstraintKind, names: seq<string>): (r: seq<ColumnView>)
    ensures |r| == |cs|
  {
    if names == [] then cs
    else WithKey(WithKeys(cs, colpos, kind, names[..|names| - 1]), colpos, kind, names[|names| - 1])
  }

  function WithConstraints(cs: seq<ColumnView>, colpos: map<string, nat>, constraints: seq<Constraint>): (r: seq<ColumnView>)
    ensures |r| == |cs|
  {
    if constraints == [] then cs
    else
      var last := constraints[|constraints| - 1];
      WithKeys(WithConstraints(cs, colpos, constraints[..|constraints| - 1]), colpos, last.kind, last.keys)
  }

  /** The local variables of getOrderByPolicy. */
  datatype Policy = Policy(fronts: seq<OrderTerm>, backs: seq<OrderTerm>, orders: seq<OrderTerm>, pkname: string, pknum: nat)

  predicate Listed(terms: seq<OrderTerm>, text: string) {
    exists i | 0 <= i < |terms| :: terms[i].text == text
  }

  function TermText(c: ColumnView): string {
    if c.nullable then "assumeNotNull(" + c.name + ")" else c.name
  }

  function PolicyStep(p: Policy, c: ColumnView, i: nat): Policy {
    if Listed(p.orders, c.name) || (!c.primaryKey && !c.index && !c.unique) then p
    else
      var term := OrderTerm(i, TermText(c));
      Policy(if c.increment then p.fronts else p.fronts + [term],
             if c.increment then p.backs + [term] else p.backs,
             p.orders + [term],
             if c.primaryKey then term.text else p.pkname,
             if c.primaryKey then p.pknum + 1 else p.pknum)
  }

  function PolicyOf(cs: seq<ColumnView>): Policy {
    if cs == [] then Policy([], [], [], "", 0)
    else PolicyStep(PolicyOf(cs[..|cs| - 1]), cs[|cs| - 1], |cs| - 1)
  }

  /** getOrderByPolicy: `None` is the error for a table without a primary key. */
  function OrderBy(cs: seq<ColumnView>): Option<seq<OrderTerm>> {
    var p := PolicyOf(cs);
    if p.pknum == 0 then None
    else if p.pknum == 1 && |p.orders| == 1 then Some([OrderTerm(p.orders[0].column, "tuple(" + p.pkname + ")")])
    else Some(p.fronts + p.backs)
  }

  function NumbersPartition(max: nat): Transform {
    if max <= 1000 then Itself else IntDiv(max / 1000)
  }

  function TransformOf(dataType: string): Option<Transform> {
    if dataType == "Date32" || dataType == "DateTime" then Some(ToYYYYMM)
    else if dataType == "Int8" || dataType == "Uint8" then Some(NumbersPartition(0xFF))
    else if dataType == "Int16" || dataType == "Uint16" then Some(NumbersPartition(0xFFFF))
    else if dataType == "Int32" || dataType == "Uint32" then Some(NumbersPartition(0xFFFF_FFFF))
    else if dataType == "Int64" || dataType == "Uint64" then Some(NumbersPartition(0xFFFF_FFFF_FFFF_FFFF))
    else None
  }

  /** getPartitionPolicy: the last primary-key column of a partitionable type. */
  function PartitionBy(cs: seq<ColumnView>): Option<Partition> {
    if cs == [] then None
    else
      var c := cs[|cs| - 1];
      if c.primaryKey && TransformOf(c.dataType).Some? then Some(Partition(|cs| - 1, TransformOf(c.dataType).value))
      else PartitionBy(cs[..|cs| - 1])
  }

  function Positions(defs: seq<ColumnDef>): map<string, nat> {
    if defs == [] then map[] else Positions(defs[..|defs| - 1])[defs[|defs| - 1].name := |defs| - 1]
  }

  function Views(defs: seq<ColumnDef>): seq<ColumnView> {
    seq(|defs|, i requires 0 <= i < |defs| => FromDef(defs[i]))
  }

  // ---------------------------------------------------------------------------
  // The objects
  // ---------------------------------------------------------------------------

  class Column {
    var name: string
    var dataType: string
    var nullable: bool
    var increment: bool
    var primaryKey: bool
    var index: bool
    var unique: bool

    ghost function View(): ColumnView
      reads this
    {
      ColumnView(name, dataType, nullable, increment, primaryKey, index, unique)
    }

    constructor (name: string, dataType: string, nullable: bool)
      ensures View() == ColumnView(name, dataType, nullable, false, false, false, false)
    {
      this.name, this.dataType, this.nullable := name, dataType, nullable;
      increment, primaryKey, index, unique := false, false, false, false;
    }

    method ApplyOptions(options: seq<ColumnOption>)
      modifies this
      ensures View() == WithOptions(old(View()), options)
    {
      ghost var bare := View();
      for k := 0 to |options|
        invariant View() == WithOptions(bare, options[..k])
      {
        assert options[..k + 1][..k] == options[..k];
        match options[k] {
          case NotNull => nullable := false;
          case AutoIncrement => increment := true;
          case PrimaryKeyOption => primaryKey := true;
          case OtherOption =>
        }
      }
      assert options[..|options|] == options;
    }
  }

  class Table {
    var columns: seq<Column>
    var colpos: map<string, nat>
    var orders: seq<OrderTerm>
    var partition: Option<Partition>

    constructor ()
      ensures columns == [] && colpos == map[] && orders == [] && partition == None
    {
      columns, colpos, orders, partition := [], map[], [], None;
    }

    /** Every position has a column object of its own, and names lead to positions. */
    ghost predicate Valid()
      reads this
    {
      Distinct(columns) && forall name | name in colpos :: colpos[name] < |columns|
    }

    ghost function ColumnViews(): seq<ColumnView>
      reads this, columns
    {
      seq(|columns|, i reads this, columns requires 0 <= i < |columns| => columns[i].View())
    }

    method GetColumns(defs: seq<ColumnDef>)
      modifies this`columns, this`colpos
      ensures Valid() && fresh(columns)
      ensures ColumnViews() == Views(defs) && colpos == Positions(defs)
    {
      var cols: seq<Column>, positions := [], map[];
      for i := 0 to |defs|
        invariant |cols| == i && Distinct(cols) && fresh(cols)
        invariant forall j | 0 <= j < i :: cols[j].View() == FromDef(defs[j])
        invariant positions == Positions(defs[..i]) && forall name | name in positions :: positions[name] < i
      {
        assert defs[..i + 1][..i] == defs[..i];
        positions := positions[defs[i].name := i];
        var col := NewColumn(defs[i]);
        cols := cols + [col];
      }
      assert defs[..|defs|] == defs;
      columns, colpos := cols, positions;
    }

    static method NewColumn(d: ColumnDef) returns (col: Column)
      ensures fresh(col) && col.View() == FromDef(d)
    {
      col := new Column(d.name, d.dataType, true);
      col.ApplyOptions(d.options);
    }

    method AddVersionColumn()
      requires Valid()
      modifies this`columns
      ensures Valid() && fresh(set c | c in columns && c !in old(columns)) && old(columns) <= columns
      ensures ColumnViews() == old(ColumnViews()) + [VersionColumn(DEL_KEY, "UInt8 MATERIALIZED 1"),
                                                     VersionColumn(VERSION_KEY, "UInt64 MATERIALIZED 1")]
    {
      var del := new Column(DEL_KEY, "UInt8 MATERIALIZED 1", false);
      columns := columns + [del];
      var version := new Column(VERSION_KEY, "UInt64 MATERIALIZED 1", false);
      columns := columns + [version];
    }

    method MarkKey(kind: ConstraintKind, colName: string)
      requires Valid()
      modifies columns
      ensures ColumnViews() == WithKey(old(ColumnViews()), colpos, kind, colName)
    {
      if colName !in colpos {
        return;
      }
      var col := columns[colpos[colName]];
      match kind {
        case PrimaryKey =>
          col.primaryKey := true;
          col.nullable := false;
        case Index => col.index := true;
        case UniqueKey => col.unique := true;
        case OtherConstraint =>
      }
      assert forall i | 0 <= i < |columns| && i != colpos[colName] :: columns[i] != col;
    }

    method GetConstraint(constraints: seq<Constraint>)
      requires Valid()
      modifies columns
      ensures ColumnViews() == WithConstraints(old(ColumnViews()), colpos, constraints)
    {
      ghost var before := ColumnViews();
      for i := 0 to |constraints|
        invariant ColumnViews() == WithConstraints(before, colpos, constraints[..i])
      {
        var c := constraints[i];
        ghost var start := ColumnViews();
        for k := 0 to |c.keys|
          invariant ColumnViews() == WithKeys(start, colpos, c.kind, c.keys[..k])
        {
          assert c.keys[..k + 1][..k] == c.keys[..k];
          MarkKey(c.kind, c.keys[k]);
        }
        assert c.keys[..|c.keys|] == c.keys;
        assert constraints[..i + 1][..i] == constraints[..i];
      }
      assert constraints[..|constraints|] == constraints;
    }

    method GetOrderByPolicy() returns (ok: bool)
      requires Valid() && orders == []
      modifies this`orders
      ensures ok <==> OrderBy(ColumnViews()).Some?
      ensures ok ==> orders == OrderBy(ColumnViews()).value
      ensures !ok ==> orders == []
    {
      var listed, backs, fronts := [], [], [];
      var pkname, pknum := "", 0;
      ghost var views := ColumnViews();
      for i := 0 to |columns|
        invariant orders == [] && ColumnViews() == views
        invariant PolicyOf(views[..i]) == Policy(fronts, backs, listed, pkname, pknum)
      {
        assert views[..i + 1][..i] == views[..i];
        var col := columns[i];
        assert col.View() == views[i];
        var colName := col.name;
        if Listed(listed, colName) {
          continue;
        }
        if !col.primaryKey && !col.index && !col.unique {
          continue;
        }
        if col.nullable {
          colName := "assumeNotNull(" + colName + ")";
        }
        if col.primaryKey {
          pkname := colName;
          pknum := pknum + 1;
        }
        if col.increment {
          backs := backs + [OrderTerm(i, colName)];
        } else {
          fronts := fronts + [OrderTerm(i, colName)];
        }
        listed := listed + [OrderTerm(i, colName)];
      }
      assert views[..|columns|] == views;
      if pknum == 0 {
        return false;
      }
      orders := orders + fronts;
      orders := orders + backs;
      if pknum == 1 && |listed| == 1 {
        orders := [OrderTerm(listed[0].column, "tuple(" + pkname + ")")];
      }
      assert ColumnViews() == views;
      return true;
    }

    method GetPartitionPolicy()
      requires Valid() && partition == None
      modifies this`partition
      ensures partition == PartitionBy(ColumnViews())
    {
      ghost var views := ColumnViews();
      for i := 0 to |columns|
        invariant ColumnViews() == views && partition == PartitionBy(views[..i])
      {
        assert views[..i + 1][..i] == views[..i];
        var col := columns[i];
        assert col.View() == views[i];
        if !col.primaryKey {
          continue;
        }
        var transform := TransformOf(col.dataType);
        if transform.Some? {
          partition := Some(Partition(i, transform.value));
        }
      }
      assert views[..|columns|] == views;
    }
  }

  /** All columns of the created table, the two version columns last. */
  function Final(defs: seq<ColumnDef>, constraints: seq<Constraint>): (r: seq<ColumnView>)
    ensures |r| == |defs| + 2
  {
    WithConstraints(Views(defs) + [VersionColumn(DEL_KEY, "UInt8 MATERIALIZED 1"),
                                   VersionColumn(VERSION_KEY, "UInt64 MATERIALIZED 1")],
                    Positions(defs), constraints)
  }

  /** The CREATE TABLE branch of ParserMysqlSQL, up to the emission of text. */
  method Translate(defs: seq<ColumnDef>, constraints: seq<Constraint>) returns (t: Table, ok: bool)
    ensures t.Valid() && t.ColumnViews() == Final(defs, constraints)
    ensures ok <==> OrderBy(Final(defs, constraints)).Some?
    ensures ok ==> t.orders == OrderBy(Final(defs, constraints)).value
    ensures ok ==> t.partition == PartitionBy(Final(defs, constraints))
  {
    hide WithConstraints, OrderBy, PartitionBy, Views, Positions;
    t := new Table();
    t.GetColumns(defs);
    t.AddVersionColumn();
    t.GetConstraint(constraints);
    ghost var final := Final(defs, constraints);
    assert t.ColumnViews() == final;
    ok := t.GetOrderByPolicy();
    assert t.ColumnViews() == final;
    if ok {
      t.GetPartitionPolicy();
    }
    assert t.ColumnViews() == final;
  }
}
