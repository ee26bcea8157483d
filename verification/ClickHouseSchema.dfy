/** Why the tables that clickhouse.go creates can take the rows that dml.go inserts. */
module ClickHouseSchema {
  import opened Common
  import opened Replay
  import opened ClickHouseTable
  import opened ClickHouseReplay

  /** Column names differ, also from those of the version columns. */
  ghost predicate DefsOk(defs: seq<ColumnDef>) {
    && (forall i, j | 0 <= i < j < |defs| :: defs[i].name != defs[j].name)
    && (forall i | 0 <= i < |defs| :: defs[i].name != DEL_KEY && defs[i].name != VERSION_KEY)
  }

  ghost predicate NamedIn(constraints: seq<Constraint>, kind: ConstraintKind, name: string) {
    exists i | 0 <= i < |constraints| :: constraints[i].kind == kind && name in constraints[i].keys
  }

  predicate Flagged(c: ColumnView) {
    c.primaryKey || c.index || c.unique
  }

  // ---------------------------------------------------------------------------
  // What a reader of the definition can check
  // ---------------------------------------------------------------------------

  /** A column is declared as the primary key, or spelled letter for letter as a part of some key. */
  ghost predicate KeyNamed(defs: seq<ColumnDef>, constraints: seq<Constraint>, i: nat)
    requires i < |defs|
  {
    || PrimaryKeyOption in defs[i].options || NamedIn(constraints, PrimaryKey, defs[i].name)
    || NamedIn(constraints, Index, defs[i].name) || NamedIn(constraints, UniqueKey, defs[i].name)
  }

  ghost predicate StaysNullable(defs: seq<ColumnDef>, constraints: seq<Constraint>, i: nat)
    requires i < |defs|
  {
    NotNull !in defs[i].options && !NamedIn(constraints, PrimaryKey, defs[i].name)
  }

  /** A column whose name is already in the list: it is called like the sort expression of an earlier column that is in
      it. Such a column is passed over itself and no longer in the way of a later one. */
  ghost predicate PassedOver(defs: seq<ColumnDef>, constraints: seq<Constraint>, i: nat)
    requires i < |defs|
    decreases i
  {
    exists j: nat | j < i ::
      && KeyNamed(defs, constraints, j) && !PassedOver(defs, constraints, j)
      && StaysNullable(defs, constraints, j) && defs[i].name == "assumeNotNull(" + defs[j].name + ")"
  }

  /** A key column is called like the sort expression of an earlier one. */
  ghost predicate Clash(defs: seq<ColumnDef>, constraints: seq<Constraint>, j: nat, i: nat) {
    && j < i < |defs| && KeyNamed(defs, constraints, j) && KeyNamed(defs, constraints, i)
    && StaysNullable(defs, constraints, j) && defs[i].name == "assumeNotNull(" + defs[j].name + ")"
  }

  ghost predicate NoClash(defs: seq<ColumnDef>, constraints: seq<Constraint>) {
    forall i: nat, j: nat :: !Clash(defs, constraints, j, i)
  }

  // ---------------------------------------------------------------------------
  // What the passes over the definition leave in a column
  // ---------------------------------------------------------------------------

  lemma {:induction false} OptionsShow(c: ColumnView, options: seq<ColumnOption>)
    ensures var r := WithOptions(c, options);
            && r.name == c.name && r.dataType == c.dataType && r.index == c.index && r.unique == c.unique
            && r.increment == (c.increment || AutoIncrement in options)
            && r.primaryKey == (c.primaryKey || PrimaryKeyOption in options)
            && r.nullable == (c.nullable && NotNull !in options)
  {
    if options != [] {
      var rest := options[..|options| - 1];
      OptionsShow(c, rest);
      assert options == rest + [options[|options| - 1]];
    }
  }

  /** A name leads to the last column that bears it. */
  lemma {:induction false} PositionsLast(defs: seq<ColumnDef>, name: string, i: nat)
    ensures name in Positions(defs) && Positions(defs)[name] == i <==>
            i < |defs| && defs[i].name == name && forall j | i < j < |defs| :: defs[j].name != name
  {
    if defs != [] {
      PositionsLast(defs[..|defs| - 1], name, i);
    }
  }

  lemma {:induction false} PositionsFind(defs: seq<ColumnDef>)
    requires forall i, j | 0 <= i < j < |defs| :: defs[i].name != defs[j].name
    ensures forall i | 0 <= i < |defs| :: defs[i].name in Positions(defs) && Positions(defs)[defs[i].name] == i
    ensures forall n | n in Positions(defs) :: Positions(defs)[n] < |defs| && defs[Positions(defs)[n]].name == n
  {
    if defs != [] {
      PositionsFind(defs[..|defs| - 1]);
    }
  }

  /** What key parts with these names do to the column at position `i`. */
  ghost predicate KeysShow(c: ColumnView, r: ColumnView, hit: bool, kind: ConstraintKind) {
    && r.name == c.name && r.dataType == c.dataType && r.increment == c.increment
    && r.primaryKey == (c.primaryKey || (hit && kind.PrimaryKey?))
    && r.nullable == (c.nullable && !(hit && kind.PrimaryKey?))
    && r.index == (c.index || (hit && kind.Index?))
    && r.unique == (c.unique || (hit && kind.UniqueKey?))
  }

  ghost predicate HitBy(colpos: map<string, nat>, names: seq<string>, i: nat) {
    exists n | n in names :: n in colpos && colpos[n] == i
  }

  lemma {:induction false} WithKeysShow(cs: seq<ColumnView>, colpos: map<string, nat>, kind: ConstraintKind,
                                        names: seq<string>, i: nat)
    requires i < |cs|
    ensures KeysShow(cs[i], WithKeys(cs, colpos, kind, names)[i], HitBy(colpos, names, i), kind)
  {
    if names != [] {
      var rest, last := names[..|names| - 1], names[|names| - 1];
      WithKeysShow(cs, colpos, kind, rest, i);
      assert forall n :: n in names <==> n in rest || n == last;
      assert HitBy(colpos, names, i) <==> HitBy(colpos, rest, i) || (last in colpos && colpos[last] == i);
    }
  }

  /** After all constraints a column carries exactly the flags of the keys that name it. */
  lemma {:induction false} ConstraintsShow(cs: seq<ColumnView>, colpos: map<string, nat>, constraints: seq<Constraint>, i: nat,
                                           name: string)
    requires i < |cs| && forall n :: n in colpos && colpos[n] == i <==> n == name && name in colpos && colpos[name] == i
    ensures var r, known := WithConstraints(cs, colpos, constraints)[i], name in colpos && colpos[name] == i;
            && r.name == cs[i].name && r.dataType == cs[i].dataType && r.increment == cs[i].increment
            && r.primaryKey == (cs[i].primaryKey || (known && NamedIn(constraints, PrimaryKey, name)))
            && r.nullable == (cs[i].nullable && !(known && NamedIn(constraints, PrimaryKey, name)))
            && r.index == (cs[i].index || (known && NamedIn(constraints, Index, name)))
            && r.unique == (cs[i].unique || (known && NamedIn(constraints, UniqueKey, name)))
  {
    if constraints != [] {
      var rest, last := constraints[..|constraints| - 1], constraints[|constraints| - 1];
      ConstraintsShow(cs, colpos, rest, i, name);
      WithKeysShow(WithConstraints(cs, colpos, rest), colpos, last.kind, last.keys, i);
      assert HitBy(colpos, last.keys, i) <==> name in last.keys && name in colpos && colpos[name] == i;
      forall kind ensures NamedIn(constraints, kind, name) <==> NamedIn(rest, kind, name) || (last.kind == kind && name in last.keys) {
        NamesSplit(rest, last, kind, name);
        assert constraints == rest + [last];
      }
    }
  }

  lemma NamesSplit(rest: seq<Constraint>, last: Constraint, kind: ConstraintKind, name: string)
    ensures NamedIn(rest + [last], kind, name) <==> NamedIn(rest, kind, name) || (last.kind == kind && name in last.keys)
  {
    var all := rest + [last];
    if NamedIn(rest, kind, name) {
      var i :| 0 <= i < |rest| && rest[i].kind == kind && name in rest[i].keys;
      assert all[i] == rest[i];
    }
    if last.kind == kind && name in last.keys {
      assert all[|rest|] == last;
    }
  }

  /** The columns of the created table, in terms of the definition. */
  lemma FinalColumn(defs: seq<ColumnDef>, constraints: seq<Constraint>, i: nat)
    requires DefsOk(defs) && i < |defs|
    ensures var c, d := Final(defs, constraints)[i], defs[i];
            && c.name == d.name && c.dataType == d.dataType && c.increment == (AutoIncrement in d.options)
            && c.primaryKey == (PrimaryKeyOption in d.options || NamedIn(constraints, PrimaryKey, d.name))
            && c.nullable == (NotNull !in d.options && !NamedIn(constraints, PrimaryKey, d.name))
            && c.index == NamedIn(constraints, Index, d.name) && c.unique == NamedIn(constraints, UniqueKey, d.name)
  {
    PositionsFind(defs);
    OptionsShow(ColumnView(defs[i].name, defs[i].dataType, true, false, false, false, false), defs[i].options);
    ConstraintsShow(Views(defs) + [VersionColumn(DEL_KEY, "UInt8 MATERIALIZED 1"),
                                   VersionColumn(VERSION_KEY, "UInt64 MATERIALIZED 1")],
                    Positions(defs), constraints, i, defs[i].name);
  }

  lemma FlaggedIff(defs: seq<ColumnDef>, constraints: seq<Constraint>, i: nat)
    requires DefsOk(defs) && i < |defs|
    ensures Flagged(Final(defs, constraints)[i]) <==> KeyNamed(defs, constraints, i)
    ensures Final(defs, constraints)[i].nullable <==> StaysNullable(defs, constraints, i)
    ensures Final(defs, constraints)[i].name == defs[i].name
  {
    FinalColumn(defs, constraints, i);
  }

  /** The two columns behind those of the definition are in no key, whatever its constraints say. */
  lemma VersionColumnsPlain(defs: seq<ColumnDef>, constraints: seq<Constraint>, i: nat)
    requires DefsOk(defs) && |defs| <= i < |defs| + 2
    ensures Final(defs, constraints)[i] ==
            if i == |defs| then ColumnView("_del", "UInt8 MATERIALIZED 1", false, false, false, false, false)
            else ColumnView("_version", "UInt64 MATERIALIZED 1", false, false, false, false, false)
    ensures !Flagged(Final(defs, constraints)[i])
  {
    PositionsFind(defs);
    ConstraintsShow(Views(defs) + [VersionColumn(DEL_KEY, "UInt8 MATERIALIZED 1"),
                                   VersionColumn(VERSION_KEY, "UInt64 MATERIALIZED 1")],
                    Positions(defs), constraints, i, DEL_KEY);
  }

  // ---------------------------------------------------------------------------
  // Sort key and partition
  // ---------------------------------------------------------------------------

  ghost predicate HasColumn(terms: seq<OrderTerm>, i: nat) {
    exists j | 0 <= j < |terms| :: terms[j].column == i
  }

  /** No column is passed over because its name is already in the list. */
  ghost predicate NoNameListed(cs: seq<ColumnView>) {
    forall i, j | 0 <= j < i < |cs| && Flagged(cs[i]) && Flagged(cs[j]) :: cs[i].name != TermText(cs[j])
  }

  /** The column is passed over: an earlier one, itself not passed over, has the name as its sort expression. */
  ghost predicate Skipped(cs: seq<ColumnView>, i: nat)
    requires i < |cs|
    decreases i
  {
    exists j: nat | j < i :: Flagged(cs[j]) && !Skipped(cs, j) && cs[i].name == TermText(cs[j])
  }

  ghost predicate TermOk(cs: seq<ColumnView>, t: OrderTerm) {
    t.column < |cs| && Flagged(cs[t.column]) && t.text == TermText(cs[t.column])
  }

  lemma {:induction false} PolicyTerms(cs: seq<ColumnView>)
    ensures forall t | t in PolicyOf(cs).orders :: TermOk(cs, t)
    ensures forall t :: t in PolicyOf(cs).orders <==> t in PolicyOf(cs).fronts || t in PolicyOf(cs).backs
  {
    if cs != [] {
      var rest := cs[..|cs| - 1];
      PolicyTerms(rest);
      forall t | t in PolicyOf(rest).orders ensures TermOk(cs, t) {
        assert cs[t.column] == rest[t.column];
      }
    }
  }

  ghost predicate InSortKey(cs: seq<ColumnView>, i: nat) {
    i < |cs| && OrderTerm(i, TermText(cs[i])) in PolicyOf(cs).orders
  }

  lemma StepAdds(cs: seq<ColumnView>, t: OrderTerm)
    requires cs != []
    ensures var rest, last := PolicyOf(cs[..|cs| - 1]), |cs| - 1;
            t in PolicyOf(cs).orders <==>
            t in rest.orders || (t == OrderTerm(last, TermText(cs[last])) && Flagged(cs[last]) && !Listed(rest.orders, cs[last].name))
  {
  }

  /** A name is in the list when it is the sort expression of a column in it. */
  lemma ListedBy(cs: seq<ColumnView>, name: string)
    ensures Listed(PolicyOf(cs).orders, name) <==> exists j: nat :: InSortKey(cs, j) && TermText(cs[j]) == name
  {
    hide PolicyOf;
    var terms := PolicyOf(cs).orders;
    PolicyTerms(cs);
    if Listed(terms, name) {
      var n :| 0 <= n < |terms| && terms[n].text == name;
      assert TermOk(cs, terms[n]);
      assert terms[n] == OrderTerm(terms[n].column, TermText(cs[terms[n].column]));
      assert InSortKey(cs, terms[n].column);
    }
    if j: nat :| InSortKey(cs, j) && TermText(cs[j]) == name {
      var n :| 0 <= n < |terms| && terms[n] == OrderTerm(j, name);
    }
  }

  /** After n steps the list holds exactly the key columns among the first n that are not passed over. */
  lemma {:induction false} AfterSteps(cs: seq<ColumnView>, n: nat, i: nat)
    requires n <= |cs|
    ensures InSortKey(cs[..n], i) <==> i < n && Flagged(cs[i]) && !Skipped(cs, i)
    decreases n
  {
    hide PolicyOf, Listed, Flagged;
    if n == 0 {
      assert PolicyOf([]).orders == [] by {
        NoSteps();
      }
      assert cs[..0] == [];
    } else {
      var front, last := cs[..n], n - 1;
      assert front[..last] == cs[..last];
      forall j: nat ensures InSortKey(cs[..last], j) <==> j < last && Flagged(cs[j]) && !Skipped(cs, j) {
        AfterSteps(cs, last, j);
      }
      ListedBy(cs[..last], cs[last].name);
      assert Listed(PolicyOf(cs[..last]).orders, cs[last].name) <==> Skipped(cs, last) by {
        SkippedBy(cs, last);
      }
      PolicyTerms(cs[..last]);
      if i < n {
        StepAdds(front, OrderTerm(i, TermText(cs[i])));
        assert i < last ==> cs[..last][i] == cs[i];
        if OrderTerm(i, TermText(cs[i])) in PolicyOf(cs[..last]).orders {
          assert TermOk(cs[..last], OrderTerm(i, TermText(cs[i])));
        }
      }
    }
  }

  lemma NoSteps()
    ensures PolicyOf([]).orders == []
  {
  }

  lemma SkippedBy(cs: seq<ColumnView>, i: nat)
    requires i < |cs|
    ensures Skipped(cs, i) <==> exists j: nat | j < i :: Flagged(cs[j]) && !Skipped(cs, j) && cs[i].name == TermText(cs[j])
  {
  }

  /** The sort key holds exactly the key columns that are not passed over. */
  lemma InSortKeyIff(cs: seq<ColumnView>, i: nat)
    ensures InSortKey(cs, i) <==> i < |cs| && Flagged(cs[i]) && !Skipped(cs, i)
  {
    AfterSteps(cs, |cs|, i);
    assert cs[..|cs|] == cs;
  }

  /** The sort key reads every key column exactly when none is called like the expression of an earlier one. */
  lemma PolicyListsAllIff(cs: seq<ColumnView>)
    ensures (forall i: nat | i < |cs| && Flagged(cs[i]) :: InSortKey(cs, i)) <==> NoNameListed(cs)
  {
    hide InSortKey;
    forall i: nat ensures InSortKey(cs, i) <==> i < |cs| && Flagged(cs[i]) && !Skipped(cs, i) {
      InSortKeyIff(cs, i);
    }
  }

  /** There is a primary key in the count when there is one in the list. */
  lemma {:induction false} PolicyNeedsKey(cs: seq<ColumnView>)
    ensures PolicyOf(cs).pknum > 0 <==> exists i: nat :: InSortKey(cs, i) && cs[i].primaryKey
  {
    hide Listed;
    if cs != [] {
      var rest, last := cs[..|cs| - 1], |cs| - 1;
      PolicyNeedsKey(rest);
      PolicyTerms(rest);
      forall i: nat | i < last ensures InSortKey(cs, i) <==> InSortKey(rest, i) {
        StepAdds(cs, OrderTerm(i, TermText(cs[i])));
        assert rest[i] == cs[i];
      }
      forall t | t in PolicyOf(rest).orders ensures t.column < last {
        assert TermOk(rest, t);
      }
      StepAdds(cs, OrderTerm(last, TermText(cs[last])));
      assert forall i: nat | InSortKey(rest, i) :: rest[i] == cs[i];
      assert InSortKey(cs, last) && cs[last].primaryKey <==> PolicyOf(cs).pknum > PolicyOf(rest).pknum;
    }
  }

  lemma OrderByTerm(cs: seq<ColumnView>, i: nat)
    requires OrderBy(cs).Some? && InSortKey(cs, i)
    ensures HasColumn(OrderBy(cs).value, i)
  {
    hide PolicyOf;
    var p, terms, t := PolicyOf(cs), OrderBy(cs).value, OrderTerm(i, TermText(cs[i]));
    PolicyTerms(cs);
    if p.pknum == 1 && |p.orders| == 1 {
      assert p.orders[0] == t;
      assert terms[0].column == i;
    } else {
      assert t in p.fronts + p.backs;
      var j :| 0 <= j < |terms| && terms[j] == t;
    }
  }

  lemma OrderByListed(cs: seq<ColumnView>, i: nat)
    requires OrderBy(cs).Some? && HasColumn(OrderBy(cs).value, i)
    ensures InSortKey(cs, i)
  {
    hide PolicyOf;
    var p, terms := PolicyOf(cs), OrderBy(cs).value;
    PolicyTerms(cs);
    var j :| 0 <= j < |terms| && terms[j].column == i;
    if p.pknum == 1 && |p.orders| == 1 {
      assert p.orders[0] in p.orders;
      assert TermOk(cs, p.orders[0]);
    } else {
      assert terms[j] in p.fronts + p.backs;
      assert terms[j] in p.orders;
      assert TermOk(cs, terms[j]);
    }
  }

  /** ORDER BY reads exactly the key columns that are not passed over, and exists exactly when one of them is a primary
      key. */
  lemma OrderByColumns(cs: seq<ColumnView>)
    ensures OrderBy(cs).Some? <==> exists i: nat | i < |cs| :: cs[i].primaryKey && !Skipped(cs, i)
    ensures OrderBy(cs).Some? ==>
              forall i: nat :: HasColumn(OrderBy(cs).value, i) <==> i < |cs| && Flagged(cs[i]) && !Skipped(cs, i)
  {
    hide PolicyOf, HasColumn, InSortKey, Skipped;
    PolicyNeedsKey(cs);
    forall i: nat ensures InSortKey(cs, i) <==> i < |cs| && Flagged(cs[i]) && !Skipped(cs, i) {
      InSortKeyIff(cs, i);
    }
    if OrderBy(cs).Some? {
      forall i: nat ensures HasColumn(OrderBy(cs).value, i) <==> InSortKey(cs, i) {
        if InSortKey(cs, i) {
          OrderByTerm(cs, i);
        }
        if HasColumn(OrderBy(cs).value, i) {
          OrderByListed(cs, i);
        }
      }
    }
  }

  /** Among the columns of the sort key: those that do not count up come first, and otherwise earlier columns do. */
  ghost predicate ComesBefore(cs: seq<ColumnView>, i: nat, j: nat)
    requires i < |cs| && j < |cs|
  {
    (!cs[i].increment && cs[j].increment) || (cs[i].increment == cs[j].increment && i < j)
  }

  /** Terms of one kind, in the order of their columns. */
  ghost predicate InOrder(cs: seq<ColumnView>, terms: seq<OrderTerm>, increment: bool) {
    && (forall a | 0 <= a < |terms| :: terms[a].column < |cs| && cs[terms[a].column].increment == increment)
    && (forall a, b | 0 <= a < b < |terms| :: terms[a].column < terms[b].column)
  }

  lemma {:induction false} PolicyOrder(cs: seq<ColumnView>)
    ensures var p := PolicyOf(cs);
            && InOrder(cs, p.fronts, false) && InOrder(cs, p.backs, true)
            && |p.fronts| + |p.backs| == |p.orders| && p.pknum <= |p.orders|
            && (p.pknum > 0 ==> exists t | t in p.orders :: t.text == p.pkname)
  {
    hide Listed, TermText;
    if cs != [] {
      var rest := cs[..|cs| - 1];
      PolicyOrder(rest);
      assert forall i | 0 <= i < |rest| :: rest[i] == cs[i];
      var p, q := PolicyOf(rest), PolicyOf(cs);
      assert forall t | t in p.orders :: t in q.orders;
      if q != p {
        var t := OrderTerm(|rest|, TermText(cs[|rest|]));
        assert q.orders == p.orders + [t] && t in q.orders;
      }
    }
  }

  /** The emitted sort key: one column in a tuple, or the columns that do not count up before those that do, each in the
      order of the table. */
  lemma OrderStands(cs: seq<ColumnView>, a: nat, b: nat)
    requires OrderBy(cs).Some? && a < |OrderBy(cs).value| && b < |OrderBy(cs).value|
    ensures var terms := OrderBy(cs).value;
            && terms[a].column < |cs| && terms[b].column < |cs|
            && (a < b <==> ComesBefore(cs, terms[a].column, terms[b].column))
            && terms[a].text == (if |terms| == 1 then "tuple(" + TermText(cs[terms[a].column]) + ")" else TermText(cs[terms[a].column]))
  {
    hide PolicyOf, TermText;
    PolicyOrder(cs);
    PolicyTerms(cs);
    var p, terms := PolicyOf(cs), OrderBy(cs).value;
    if p.pknum == 1 && |p.orders| == 1 {
      assert TermOk(cs, p.orders[0]);
    } else {
      assert |terms| > 1;
      assert terms[a] in p.fronts + p.backs && terms[b] in p.fronts + p.backs;
      assert TermOk(cs, terms[a]) && TermOk(cs, terms[b]);
      var n := |p.fronts|;
      assert a < n ==> terms[a] == p.fronts[a];
      assert b < n ==> terms[b] == p.fronts[b];
      assert a >= n ==> terms[a] == p.backs[a - n];
      assert b >= n ==> terms[b] == p.backs[b - n];
      if a == b {
      } else if a < b {
        OneBeforeOther(cs, p, a, b);
      } else {
        OneBeforeOther(cs, p, b, a);
      }
    }
  }

  lemma OneBeforeOther(cs: seq<ColumnView>, p: Policy, a: nat, b: nat)
    requires InOrder(cs, p.fronts, false) && InOrder(cs, p.backs, true) && a < b < |p.fronts + p.backs|
    ensures var terms := p.fronts + p.backs;
            terms[a].column < |cs| && terms[b].column < |cs|
            && ComesBefore(cs, terms[a].column, terms[b].column) && !ComesBefore(cs, terms[b].column, terms[a].column)
  {
    var n := |p.fronts|;
    if b >= n {
      assert p.backs[b - n].column < |cs|;
      if a >= n {
        assert p.backs[a - n].column < p.backs[b - n].column;
      }
    }
  }

  lemma {:induction false} PartitionIsKey(cs: seq<ColumnView>)
    ensures PartitionBy(cs).Some? ==> var i := PartitionBy(cs).value.column; i < |cs| && cs[i].primaryKey
  {
    if cs != [] {
      PartitionIsKey(cs[..|cs| - 1]);
    }
  }

  /** The partition is that of the last primary-key column whose type has one. */
  lemma {:induction false} PartitionIsLast(cs: seq<ColumnView>, i: nat, tr: Transform)
    ensures PartitionBy(cs) == Some(Partition(i, tr)) <==>
            && i < |cs| && cs[i].primaryKey && TransformOf(cs[i].dataType) == Some(tr)
            && forall j | i < j < |cs| && cs[j].primaryKey :: TransformOf(cs[j].dataType).None?
  {
    hide TransformOf;
    if cs != [] {
      var rest := cs[..|cs| - 1];
      PartitionIsLast(rest, i, tr);
      assert forall j | 0 <= j < |rest| :: rest[j] == cs[j];
    }
  }

  /** How a column of this type partitions a table: by month, by itself, or in a thousand ranges of its unsigned type. */
  ghost predicate PartitionsBy(dataType: string, tr: Transform) {
    || (dataType in {"Date32", "DateTime"} && tr == ToYYYYMM)
    || (dataType in {"Int8", "Uint8"} && tr == Itself)
    || (dataType in {"Int16", "Uint16"} && tr == IntDiv(65))
    || (dataType in {"Int32", "Uint32"} && tr == IntDiv(4_294_967))
    || (dataType in {"Int64", "Uint64"} && tr == IntDiv(18_446_744_073_709_551))
  }

  lemma TransformIff(dataType: string, tr: Transform)
    ensures TransformOf(dataType) == Some(tr) <==> PartitionsBy(dataType, tr)
  {
  }

  // ---------------------------------------------------------------------------
  // From the definition to replay
  // ---------------------------------------------------------------------------

  ghost predicate CountsUp(defs: seq<ColumnDef>, i: nat)
    requires i < |defs|
  {
    AutoIncrement in defs[i].options
  }

  /** The text of a column in the sort key. */
  ghost function KeyText(defs: seq<ColumnDef>, constraints: seq<Constraint>, i: nat): string
    requires i < |defs|
  {
    if StaysNullable(defs, constraints, i) then "assumeNotNull(" + defs[i].name + ")" else defs[i].name
  }

  /** The sort key of a created table, in order: AUTO_INCREMENT columns last, otherwise columns as they are defined, each
      once; a nullable column under assumeNotNull, a single column in a tuple. */
  lemma SortKeyOrder(defs: seq<ColumnDef>, constraints: seq<Constraint>, a: nat, b: nat)
    requires DefsOk(defs) && OrderBy(Final(defs, constraints)).Some?
    requires a < |OrderBy(Final(defs, constraints)).value| && b < |OrderBy(Final(defs, constraints)).value|
    ensures var terms := OrderBy(Final(defs, constraints)).value;
            var i, j := terms[a].column, terms[b].column;
            && i < |defs| && j < |defs|
            && (a < b <==> (!CountsUp(defs, i) && CountsUp(defs, j)) || (CountsUp(defs, i) == CountsUp(defs, j) && i < j))
            && terms[a].text == (if |terms| == 1 then "tuple(" + KeyText(defs, constraints, i) + ")" else KeyText(defs, constraints, i))
  {
    hide OrderBy, Final, Flagged, Skipped;
    var cs := Final(defs, constraints);
    var terms := OrderBy(cs).value;
    var i, j := terms[a].column, terms[b].column;
    OrderStands(cs, a, b);
    OrderByColumns(cs);
    assert HasColumn(terms, i) && HasColumn(terms, j);
    if i >= |defs| {
      VersionColumnsPlain(defs, constraints, i);
    }
    if j >= |defs| {
      VersionColumnsPlain(defs, constraints, j);
    }
    FinalColumn(defs, constraints, i);
    FinalColumn(defs, constraints, j);
  }

  /** A column of the primary key of the created table. */
  ghost predicate KeyedColumn(defs: seq<ColumnDef>, constraints: seq<Constraint>, i: nat)
    requires i < |defs|
  {
    PrimaryKeyOption in defs[i].options || NamedIn(constraints, PrimaryKey, defs[i].name)
  }

  /** The partition of a created table: that of the last column in the primary key whose type has one. */
  lemma PartitionIff(defs: seq<ColumnDef>, constraints: seq<Constraint>, i: nat, tr: Transform)
    requires DefsOk(defs)
    ensures PartitionBy(Final(defs, constraints)) == Some(Partition(i, tr)) <==>
            && i < |defs| && KeyedColumn(defs, constraints, i) && PartitionsBy(defs[i].dataType, tr)
            && forall j, other | i < j < |defs| && KeyedColumn(defs, constraints, j) :: !PartitionsBy(defs[j].dataType, other)
  {
    hide Final, PartitionBy, TransformOf, PartitionsBy;
    var cs := Final(defs, constraints);
    PartitionIsLast(cs, i, tr);
    forall j: nat | j < |cs|
      ensures j < |defs| ==> cs[j].dataType == defs[j].dataType && (cs[j].primaryKey <==> KeyedColumn(defs, constraints, j))
      ensures j >= |defs| ==> !cs[j].primaryKey
    {
      if j < |defs| {
        FinalColumn(defs, constraints, j);
      } else {
        VersionColumnsPlain(defs, constraints, j);
      }
    }
    forall dataType, other ensures TransformOf(dataType) == Some(other) <==> PartitionsBy(dataType, other) {
      TransformIff(dataType, other);
    }
  }

  /** The primary key as the source database understands it: `same` says which spellings name one column. */
  ghost predicate IsKey(defs: seq<ColumnDef>, constraints: seq<Constraint>, same: (string, string) -> bool, i: nat)
    requires i < |defs|
  {
    PrimaryKeyOption in defs[i].options ||
    exists c, n | 0 <= c < |constraints| && constraints[c].kind == PrimaryKey && n in constraints[c].keys :: same(n, defs[i].name)
  }

  ghost function SourceTable(defs: seq<ColumnDef>, constraints: seq<Constraint>, same: (string, string) -> bool): TableInfo {
    TableInfo(seq(|defs|, i requires 0 <= i < |defs| => defs[i].name),
              set i: nat | i < |defs| && IsKey(defs, constraints, same, i))
  }

  /** The created table as the server sees it. */
  ghost function SchemaOf(defs: seq<ColumnDef>, constraints: seq<Constraint>, same: (string, string) -> bool): Schema
    requires OrderBy(Final(defs, constraints)).Some?
  {
    var cs := Final(defs, constraints);
    var terms := OrderBy(cs).value;
    Schema(SourceTable(defs, constraints, same),
           seq(|defs|, i requires 0 <= i < |defs| => cs[i].nullable),
           seq(|terms|, j requires 0 <= j < |terms| => terms[j].column),
           PartitionBy(cs))
  }

  ghost predicate SpellingOk(same: (string, string) -> bool) {
    forall n :: same(n, n)
  }

  lemma ClashIff(defs: seq<ColumnDef>, constraints: seq<Constraint>)
    requires DefsOk(defs)
    ensures NoNameListed(Final(defs, constraints)) <==> NoClash(defs, constraints)
  {
    hide Final, KeyNamed, StaysNullable, Flagged;
    var cs := Final(defs, constraints);
    forall i: nat, j: nat | j < i < |cs|
      ensures Flagged(cs[i]) && Flagged(cs[j]) && cs[i].name == TermText(cs[j]) <==> Clash(defs, constraints, j, i)
    {
      if i >= |defs| {
        VersionColumnsPlain(defs, constraints, i);
      } else {
        FlaggedIff(defs, constraints, i);
        FlaggedIff(defs, constraints, j);
        assert defs[j].name != defs[i].name;
      }
    }
  }

  /** Being passed over is visible in the definition. */
  lemma {:induction false} PassedOverIff(defs: seq<ColumnDef>, constraints: seq<Constraint>, i: nat)
    requires DefsOk(defs) && i < |defs|
    ensures Skipped(Final(defs, constraints), i) <==> PassedOver(defs, constraints, i)
    decreases i
  {
    hide Final, KeyNamed, StaysNullable, Flagged;
    var cs := Final(defs, constraints);
    FlaggedIff(defs, constraints, i);
    forall j: nat | j < i
      ensures Flagged(cs[j]) && !Skipped(cs, j) && cs[i].name == TermText(cs[j]) <==>
              && KeyNamed(defs, constraints, j) && !PassedOver(defs, constraints, j)
              && StaysNullable(defs, constraints, j) && defs[i].name == "assumeNotNull(" + defs[j].name + ")"
    {
      PassedOverIff(defs, constraints, j);
      FlaggedIff(defs, constraints, j);
      assert defs[j].name != defs[i].name;
    }
    SkippedBy(cs, i);
  }

  /** A table is created exactly when its definition has a primary key in the spelling of a column that is not passed
      over. */
  lemma CreatedIff(defs: seq<ColumnDef>, constraints: seq<Constraint>)
    requires DefsOk(defs)
    ensures OrderBy(Final(defs, constraints)).Some? <==>
            exists i: nat | i < |defs| ::
              && (PrimaryKeyOption in defs[i].options || NamedIn(constraints, PrimaryKey, defs[i].name))
              && !PassedOver(defs, constraints, i)
  {
    hide OrderBy, Final, Skipped, PassedOver;
    var cs := Final(defs, constraints);
    OrderByColumns(cs);
    forall i: nat | i < |cs|
      ensures cs[i].primaryKey <==>
              i < |defs| && (PrimaryKeyOption in defs[i].options || NamedIn(constraints, PrimaryKey, defs[i].name))
      ensures i < |defs| ==> (Skipped(cs, i) <==> PassedOver(defs, constraints, i))
    {
      if i < |defs| {
        FinalColumn(defs, constraints, i);
        PassedOverIff(defs, constraints, i);
      } else {
        VersionColumnsPlain(defs, constraints, i);
      }
    }
  }

  /** The sort key of a created table reads exactly the named columns that are not passed over. */
  lemma SortKeyColumns(defs: seq<ColumnDef>, constraints: seq<Constraint>, same: (string, string) -> bool, i: nat)
    requires DefsOk(defs) && OrderBy(Final(defs, constraints)).Some?
    ensures i in SchemaOf(defs, constraints, same).orders <==>
            i < |defs| && KeyNamed(defs, constraints, i) && !PassedOver(defs, constraints, i)
  {
    hide OrderBy, Final, SourceTable, Flagged, Skipped, PassedOver, KeyNamed;
    var cs, s := Final(defs, constraints), SchemaOf(defs, constraints, same);
    var terms := OrderBy(cs).value;
    OrderByColumns(cs);
    if i < |defs| {
      FlaggedIff(defs, constraints, i);
      PassedOverIff(defs, constraints, i);
    } else if i < |cs| {
      VersionColumnsPlain(defs, constraints, i);
    }
    if HasColumn(terms, i) {
      var j :| 0 <= j < |terms| && terms[j].column == i;
      assert s.orders[j] == i;
    }
    if i in s.orders {
      var j :| 0 <= j < |terms| && s.orders[j] == i;
      assert terms[j].column == i;
    }
  }

  /** Every column of the primary key is declared or spelled as a key column. */
  ghost predicate KeysNamed(defs: seq<ColumnDef>, constraints: seq<Constraint>, same: (string, string) -> bool) {
    forall k: nat | k < |defs| && IsKey(defs, constraints, same, k) :: KeyNamed(defs, constraints, k)
  }

  /** Every column of the primary key is declared or spelled as a key column and not passed over, or else it is the
      column of the partition and has a partition for every value. */
  ghost predicate KeysKept(defs: seq<ColumnDef>, constraints: seq<Constraint>, same: (string, string) -> bool,
                           server: Server, render: Renderer)
    requires OrderBy(Final(defs, constraints)).Some?
  {
    forall k: nat | k < |defs| && IsKey(defs, constraints, same, k) ::
      || (KeyNamed(defs, constraints, k) && !PassedOver(defs, constraints, k))
      || PartitionTells(SchemaOf(defs, constraints, same), server, render, k)
  }

  lemma PassedOverClashes(defs: seq<ColumnDef>, constraints: seq<Constraint>, i: nat) returns (j: nat)
    requires i < |defs| && KeyNamed(defs, constraints, i) && PassedOver(defs, constraints, i)
    ensures Clash(defs, constraints, j, i)
  {
    j :| j < i && KeyNamed(defs, constraints, j) && StaysNullable(defs, constraints, j)
         && defs[i].name == "assumeNotNull(" + defs[j].name + ")";
  }

  /** Without a clash nothing is passed over, and the spelling alone decides. */
  lemma KeptWithoutClash(defs: seq<ColumnDef>, constraints: seq<Constraint>, same: (string, string) -> bool,
                         server: Server, render: Renderer)
    requires DefsOk(defs) && NoClash(defs, constraints) && OrderBy(Final(defs, constraints)).Some?
    ensures forall i: nat | i < |defs| && KeyNamed(defs, constraints, i) :: !PassedOver(defs, constraints, i)
    ensures KeysKept(defs, constraints, same, server, render) <==> KeysNamed(defs, constraints, same)
  {
    hide OrderBy, Final, KeyNamed, IsKey, StaysNullable;
    forall i: nat | i < |defs| && KeyNamed(defs, constraints, i) ensures !PassedOver(defs, constraints, i) {
      if PassedOver(defs, constraints, i) {
        var j := PassedOverClashes(defs, constraints, i);
      }
    }
    var s := SchemaOf(defs, constraints, same);
    forall k: nat | k < |defs| && PartitionTells(s, server, render, k) ensures KeyNamed(defs, constraints, k) {
      PartitionIsKey(Final(defs, constraints));
      FlaggedIff(defs, constraints, k);
    }
  }

  /** A created table is one the replay can run on; what its sort key and its partition tell apart can be read off the
      definition. */
  lemma CreatedSchemaOk(defs: seq<ColumnDef>, constraints: seq<Constraint>, same: (string, string) -> bool,
                        server: Server, render: Renderer)
    requires DefsOk(defs) && SpellingOk(same) && OrderBy(Final(defs, constraints)).Some?
    ensures SchemaOk(SchemaOf(defs, constraints, same))
    ensures KeysDecided(SchemaOf(defs, constraints, same), server, render) <==> KeysKept(defs, constraints, same, server, render)
  {
    hide OrderBy, Final, IsKey, KeyNamed, PassedOver, Skipped, PartitionTells;
    var cs, s := Final(defs, constraints), SchemaOf(defs, constraints, same);
    OrderByColumns(cs);
    PartitionIsKey(cs);
    forall i: nat
      ensures i in s.orders <==> i < |defs| && KeyNamed(defs, constraints, i) && !PassedOver(defs, constraints, i)
    {
      SortKeyColumns(defs, constraints, same, i);
    }
    forall j | 0 <= j < |s.orders| ensures s.orders[j] < |defs| {
      assert s.orders[j] in s.orders;
    }
    if s.partition.Some? && s.partition.value.column >= |defs| {
      VersionColumnsPlain(defs, constraints, s.partition.value.column);
      assert false;
    }
    var i: nat :| i < |cs| && cs[i].primaryKey;
    if i >= |defs| {
      VersionColumnsPlain(defs, constraints, i);
      assert false;
    }
    FinalKeyIsSourceKey(defs, constraints, same, i);
    assert i in s.info.keys;
  }

  /** Whatever the created table takes for a key, or for NOT NULL on account of a key, is a key of the source. */
  lemma FinalKeyIsSourceKey(defs: seq<ColumnDef>, constraints: seq<Constraint>, same: (string, string) -> bool, i: nat)
    requires DefsOk(defs) && SpellingOk(same) && i < |defs|
    ensures Final(defs, constraints)[i].primaryKey ==> IsKey(defs, constraints, same, i)
    ensures !Final(defs, constraints)[i].nullable ==> NotNull in defs[i].options || IsKey(defs, constraints, same, i)
  {
    FinalColumn(defs, constraints, i);
    if NamedIn(constraints, PrimaryKey, defs[i].name) {
      var c :| 0 <= c < |constraints| && constraints[c].kind == PrimaryKey && defs[i].name in constraints[c].keys;
      assert same(defs[i].name, defs[i].name);
    }
  }

  /** A row the source accepts: NULL neither in a NOT NULL column nor in the primary key. */
  ghost predicate SourceRow(defs: seq<ColumnDef>, constraints: seq<Constraint>, same: (string, string) -> bool, row: Row) {
    |row| == |defs| &&
    forall i | 0 <= i < |row| && row[i].None? :: NotNull !in defs[i].options && !IsKey(defs, constraints, same, i)
  }

  lemma SourceRowsFit(defs: seq<ColumnDef>, constraints: seq<Constraint>, same: (string, string) -> bool, row: Row)
    requires DefsOk(defs) && SpellingOk(same) && OrderBy(Final(defs, constraints)).Some?
    requires SourceRow(defs, constraints, same, row)
    ensures NullsFit(SchemaOf(defs, constraints, same), row)
  {
    forall i | 0 <= i < |row| && row[i].None? ensures Final(defs, constraints)[i].nullable {
      FinalKeyIsSourceKey(defs, constraints, same, i);
    }
  }

  /** The events of a run on the source table, from its creation on. */
  ghost predicate SourceRun(defs: seq<ColumnDef>, constraints: seq<Constraint>, same: (string, string) -> bool, events: seq<RowEvent>) {
    && ValidRun(SourceTable(defs, constraints, same), {}, events)
    && forall e | e in events ::
         && (e.Inserted? ==> SourceRow(defs, constraints, same, e.row))
         && (e.Updated? ==> SourceRow(defs, constraints, same, e.after))
  }

  /** Replaying the run on the created table succeeds, and collapsing leaves exactly the rows of the source. */
  ghost predicate EndsEqual(defs: seq<ColumnDef>, constraints: seq<Constraint>, same: (string, string) -> bool,
                            server: Server, render: Renderer, events: seq<RowEvent>, versions: seq<int>)
    requires OrderBy(Final(defs, constraints)).Some? && SchemaOk(SchemaOf(defs, constraints, same))
    requires SourceRun(defs, constraints, same, events) && |versions| == |events|
  {
    var s := SchemaOf(defs, constraints, same);
    var r := Replayed(s, server, render, [], {}, events, versions);
    r.Some? && LogOk(s, r.value) && Collapsed(s, server, r.value) == RenderedAll(render, AfterAll({}, events))
  }

  /** From CREATE TABLE to the collapsed table, for every definition that keeps its key columns, every valid run of row
      events and every server: the ClickHouse table ends equal to the source. */
  lemma CreatedTableFollowsSource(defs: seq<ColumnDef>, constraints: seq<Constraint>, same: (string, string) -> bool,
                                  server: Server, render: Renderer, events: seq<RowEvent>, versions: seq<int>)
    requires DefsOk(defs) && SpellingOk(same) && OrderBy(Final(defs, constraints)).Some?
    requires KeysKept(defs, constraints, same, server, render) && KeysReadable(SourceTable(defs, constraints, same), render)
    requires SourceRun(defs, constraints, same, events) && |versions| == |events| && Nondecreasing(versions)
    ensures SchemaOk(SchemaOf(defs, constraints, same))
    ensures EndsEqual(defs, constraints, same, server, render, events, versions)
  {
    hide Replayed, Collapsed, SchemaOk, KeysDecided, KeysKept, OrderBy, Final;
    var s := SchemaOf(defs, constraints, same);
    CreatedSchemaOk(defs, constraints, same, server, render);
    forall e | e in events ensures EventFits(s, e) {
      if e.Inserted? {
        SourceRowsFit(defs, constraints, same, e.row);
      } else if e.Updated? {
        SourceRowsFit(defs, constraints, same, e.after);
      }
    }
    NothingCollapses(s, server, render);
    CollapseFollowsSource(s, server, render, [], {}, events, versions);
  }

  /** The definition decides: the created table ends equal to the source after every run exactly when every column of
      the primary key is kept: declared or spelled, letter for letter, as a part of some key, and not passed over for
      its name; or else read by a partition that tells its values apart. */
  lemma CreatedTableFollowsIff(defs: seq<ColumnDef>, constraints: seq<Constraint>, same: (string, string) -> bool,
                               server: Server, render: Renderer)
    requires DefsOk(defs) && SpellingOk(same) && OrderBy(Final(defs, constraints)).Some?
    requires KeysReadable(SourceTable(defs, constraints, same), render)
    ensures SchemaOk(SchemaOf(defs, constraints, same))
    ensures KeysKept(defs, constraints, same, server, render) <==>
            forall events, versions | SourceRun(defs, constraints, same, events) && |versions| == |events| && Nondecreasing(versions) ::
              EndsEqual(defs, constraints, same, server, render, events, versions)
  {
    hide SchemaOk, KeysDecided, KeysKept, OrderBy, Final, EndsEqual, SourceRun;
    CreatedSchemaOk(defs, constraints, same, server, render);
    if KeysKept(defs, constraints, same, server, render) {
      forall events, versions | SourceRun(defs, constraints, same, events) && |versions| == |events| && Nondecreasing(versions)
        ensures EndsEqual(defs, constraints, same, server, render, events, versions)
      {
        CreatedTableFollowsSource(defs, constraints, same, server, render, events, versions);
      }
    } else {
      var events := LostKeyLosesARow(defs, constraints, same, server, render);
      assert Nondecreasing([0, 0]);
    }
  }

  lemma LostKeyLosesARow(defs: seq<ColumnDef>, constraints: seq<Constraint>, same: (string, string) -> bool,
                         server: Server, render: Renderer) returns (events: seq<RowEvent>)
    requires OrderBy(Final(defs, constraints)).Some? && SchemaOk(SchemaOf(defs, constraints, same))
    requires KeysReadable(SourceTable(defs, constraints, same), render)
    requires !KeysDecided(SchemaOf(defs, constraints, same), server, render)
    ensures SourceRun(defs, constraints, same, events) && |events| == 2
    ensures !EndsEqual(defs, constraints, same, server, render, events, [0, 0])
  {
    hide Replayed, Collapsed, SchemaOk, OrderBy, Final, IsKey, PartitionTells;
    var s := SchemaOf(defs, constraints, same);
    var k :| k in s.info.keys && k !in s.orders && !PartitionTells(s, server, render, k);
    events := UndecidedKeyLosesARow(s, server, render, k);
  }
}
