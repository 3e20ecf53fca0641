/** The interceptors: they learn each result column's strategy from its
    description and then mask the rows, on both protocols. */
module Interceptor {
  import opened Wrappers
  import opened Bytes
  import opened Text
  import opened Rules
  import opened Masking
  import MySqlPackets
  import Postgres

  // ---- The column map ----

  /** Column positions with their strategies, and the labels seen so far. */
  datatype Tracker = Tracker(targetCols: seq<(nat, string)>, columnNames: seq<string>)

  const NOTHING := Tracker([], [])

  /** The strategy of the first entry for position `i`. */
  function Lookup(targetCols: seq<(nat, string)>, i: nat): Option<string> {
    if targetCols == [] then None
    else if targetCols[0].0 == i then Some(targetCols[0].1)
    else Lookup(targetCols[1..], i)
  }

  function AddColumn(t: Tracker, rules: seq<Rule>, c: Column): Tracker {
    var entry := match FirstMatch(rules, c) case Some(s) => [(|t.columnNames|, s)] case None => [];
    Tracker(t.targetCols + entry, t.columnNames + [c.name])
  }

  function AddColumns(t: Tracker, rules: seq<Rule>, cs: seq<Column>): Tracker
    decreases |cs|
  {
    if cs == [] then t else AddColumns(AddColumn(t, rules, cs[0]), rules, cs[1..])
  }

  /** Every position has the first-match strategy of its column, and there are
      entries for no other positions. */
  ghost predicate Tracks(t: Tracker, rules: seq<Rule>, cs: seq<Column>) {
    && |t.columnNames| == |cs|
    && forall i: nat :: Lookup(t.targetCols, i) == if i < |cs| then FirstMatch(rules, cs[i]) else None
  }

  lemma {:induction false} LookupAppend(a: seq<(nat, string)>, b: seq<(nat, string)>, i: nat)
    ensures Lookup(a + b, i) == if Lookup(a, i).Some? then Lookup(a, i) else Lookup(b, i)
  {
    if a == [] {
      assert a + b == b;
    } else {
      LookupAppend(a[1..], b, i);
      assert (a + b)[1..] == a[1..] + b;
    }
  }

  lemma TracksOneMore(t: Tracker, rules: seq<Rule>, cs: seq<Column>, c: Column)
    requires Tracks(t, rules, cs)
    ensures Tracks(AddColumn(t, rules, c), rules, cs + [c])
  {
    hide FirstMatch;
    var next := AddColumn(t, rules, c);
    var entry := next.targetCols[|t.targetCols|..];
    assert entry == match FirstMatch(rules, c) case Some(s) => [(|cs|, s)] case None => [];
    assert next.targetCols == t.targetCols + entry;
    forall i: nat
      ensures Lookup(next.targetCols, i) == if i < |cs| + 1 then FirstMatch(rules, (cs + [c])[i]) else None
    {
      LookupAppend(t.targetCols, entry, i);
      if entry != [] {
        assert entry[1..] == [];
      }
    }
  }

  /** After a reset, the columns described since have, in order, exactly the
      strategies of the first rules that match them. */
  lemma {:induction false} ColumnsTracked(t: Tracker, rules: seq<Rule>, before: seq<Column>, cs: seq<Column>)
    requires Tracks(t, rules, before)
    ensures Tracks(AddColumns(t, rules, cs), rules, before + cs)
    decreases |cs|
  {
    hide AddColumn, Tracks;
    if cs == [] {
      assert before + cs == before;
    } else {
      TracksOneMore(t, rules, before, cs[0]);
      ColumnsTracked(AddColumn(t, rules, cs[0]), rules, before + [cs[0]], cs[1..]);
      assert before + [cs[0]] + cs[1..] == before + cs;
    }
  }

  lemma TrackedAfterReset(rules: seq<Rule>, cs: seq<Column>)
    ensures Tracks(AddColumns(NOTHING, rules, cs), rules, cs)
  {
    assert Tracks(NOTHING, rules, []);
    ColumnsTracked(NOTHING, rules, [], cs);
    assert [] + cs == cs;
  }

  // ---- Several result sets after one reset ----

  /** The columns whose strategies are in force for the rows of a result set with
      columns `own`, when `before` were described since the reset. */
  function InForce(before: seq<Column>, own: seq<Column>): (cs: seq<Column>)
    ensures |cs| == |own|
  {
    (before + own)[..|own|]
  }

  predicate Agree(rules: seq<Rule>, cs: seq<Column>, ds: seq<Column>) {
    |cs| == |ds| && forall i: nat | i < |cs| :: FirstMatch(rules, cs[i]) == FirstMatch(rules, ds[i])
  }

  /** Each position has the strategy of the first rule for the result set's own column there. */
  predicate OwnStrategies(t: Tracker, rules: seq<Rule>, own: seq<Column>) {
    forall i: nat | i < |own| :: Lookup(t.targetCols, i) == FirstMatch(rules, own[i])
  }

  /** A result set that follows others is masked by position in all that was
      described since the reset; that is right exactly when the columns that have
      those positions have the same strategies as its own. */
  lemma LaterResultSetAligned(t: Tracker, rules: seq<Rule>, before: seq<Column>, own: seq<Column>)
    requires Tracks(t, rules, before)
    ensures var now := AddColumns(t, rules, own);
            && Tracks(now, rules, before + own)
            && OwnStrategies(now, rules, InForce(before, own))
            && (OwnStrategies(now, rules, own) <==> Agree(rules, InForce(before, own), own))
  {
    hide FirstMatch, Lookup, AddColumn;
    ColumnsTracked(t, rules, before, own);
    var now := AddColumns(t, rules, own);
    assert forall i: nat | i < |own| :: Lookup(now.targetCols, i) == FirstMatch(rules, InForce(before, own)[i]);
  }

  // ---- Rows ----

  type Values = seq<Option<bytes>>

  function MaskValue(env: Env, strategy: Option<string>, v: Option<bytes>): (r: Option<bytes>)
    requires SpansInOrder(env)
    ensures r.Some? <==> v.Some?
  {
    match v
    case None => None
    case Some(val) => (match MaskCell(env, strategy, val) case Kept => v case Replaced(masked) => Some(masked))
  }

  /** Each value masked with the strategy of its position; NULLs stay. */
  function MaskRow(env: Env, targetCols: seq<(nat, string)>, values: Values): (r: Values)
    requires SpansInOrder(env)
    ensures |r| == |values| && forall i :: 0 <= i < |r| ==> (r[i].Some? <==> values[i].Some?)
  {
    if !env.maskingEnabled then values
    else seq(|values|, i requires 0 <= i < |values| => MaskValue(env, Lookup(targetCols, i), values[i]))
  }

  method FindStrategy(targetCols: seq<(nat, string)>, i: nat) returns (s: Option<string>)
    ensures s == Lookup(targetCols, i)
  {
    for k := 0 to |targetCols|
      invariant Lookup(targetCols[k..], i) == Lookup(targetCols, i)
    {
      if targetCols[k].0 == i {
        return Some(targetCols[k].1);
      }
      assert targetCols[k..][1..] == targetCols[k + 1..];
    }
    s := None;
  }

  method MaskValues(env: Env, targetCols: seq<(nat, string)>, values: Values) returns (row: Values)
    requires SpansInOrder(env)
    ensures row == MaskRow(env, targetCols, values)
  {
    hide MaskCell, SpansInOrder, Lookup;
    if !env.maskingEnabled {
      return values;
    }
    row := values;
    for i := 0 to |values|
      invariant |row| == |values|
      invariant forall k :: 0 <= k < i ==> row[k] == MaskValue(env, Lookup(targetCols, k), values[k])
      invariant forall k :: i <= k < |values| ==> row[k] == values[k]
    {
      if values[i].Some? {
        var strategy := FindStrategy(targetCols, i);
        match MaskCell(env, strategy, values[i].value)
        case Kept =>
        case Replaced(masked) => row := row[i := Some(masked)];
      }
    }
  }

  method FindRule(rules: seq<Rule>, c: Column) returns (s: Option<string>)
    ensures s == FirstMatch(rules, c)
  {
    hide Matches;
    for k := 0 to |rules|
      invariant FirstMatch(rules[k..], c) == FirstMatch(rules, c)
    {
      if Matches(rules[k], c) {
        return Some(rules[k].strategy);
      }
      assert rules[k..][1..] == rules[k + 1..];
    }
    s := None;
  }

  // ---- MySQL ----

  /** The names of a MySQL column; `text` is the lossy UTF-8 decoding. */
  function MySqlNames(text: bytes -> string, c: MySqlPackets.ColumnDefinition): Column {
    MySqlColumn(Normalize(text(c.name)), Normalize(text(c.orgName)), Normalize(text(c.table)), Normalize(text(c.orgTable)))
  }

  class MySqlAnonymizer {
    var targetCols: seq<(nat, string)>
    var columnNames: seq<string>

    ghost function View(): Tracker
      reads this
    {
      Tracker(targetCols, columnNames)
    }

    constructor ()
      ensures View() == NOTHING
    {
      targetCols, columnNames := [], [];
    }

    method ResetColumns()
      modifies this
      ensures View() == NOTHING
    {
      targetCols, columnNames := [], [];
    }

    method OnColumnDefinition(text: bytes -> string, rules: seq<Rule>, col: MySqlPackets.ColumnDefinition)
      modifies this
      ensures View() == AddColumn(old(View()), rules, MySqlNames(text, col))
      ensures forall i | FirstAt(rules, MySqlNames(text, col), i) ::
                targetCols == old(targetCols) + [(|old(columnNames)|, rules[i].strategy)]
      ensures NoneMatches(rules, MySqlNames(text, col)) ==> targetCols == old(targetCols)
    {
      hide FirstMatch, Matches, NoneMatches;
      var c := MySqlNames(text, col);
      FirstMatchExactly(rules, c);
      hide MySqlNames;
      var colIdx := |columnNames|;
      columnNames := columnNames + [c.name];
      var s := FindRule(rules, c);
      if s.Some? {
        targetCols := targetCols + [(colIdx, s.value)];
      }
    }

    method OnResultRow(env: Env, values: Values) returns (row: Values)
      requires SpansInOrder(env)
      ensures row == MaskRow(env, targetCols, values)
    {
      row := MaskValues(env, targetCols, values);
    }
  }

  // ---- PostgreSQL ----

  /** Known table names by table OID and column names by OID and position. */
  datatype Catalog = Catalog(tables: map<nat, set<string>>, columns: map<(nat, nat), string>)

  /** The names of a PostgreSQL field; `text` is the UTF-8 decoding, empty on failure. */
  function PgNames(text: bytes -> string, cat: Catalog, f: Postgres.Field): Column {
    PgColumn(
      Normalize(text(f.name)),
      if f.tableOid != 0 && f.columnIndex > 0 && (f.tableOid, f.columnIndex) in cat.columns
      then Some(cat.columns[(f.tableOid, f.columnIndex)]) else None,
      if f.tableOid != 0 && f.tableOid in cat.tables then cat.tables[f.tableOid] else {})
  }

  function PgNamesAll(text: bytes -> string, cat: Catalog, fs: seq<Postgres.Field>): (cs: seq<Column>)
    ensures |cs| == |fs| && forall i :: 0 <= i < |fs| ==> cs[i] == PgNames(text, cat, fs[i])
  {
    seq(|fs|, i requires 0 <= i < |fs| => PgNames(text, cat, fs[i]))
  }

  class Anonymizer {
    var targetCols: seq<(nat, string)>
    var columnLabels: seq<string>
    var catalog: Catalog

    ghost function View(): Tracker
      reads this
    {
      Tracker(targetCols, columnLabels)
    }

    constructor ()
      ensures View() == NOTHING && catalog == Catalog(map[], map[])
    {
      targetCols, columnLabels, catalog := [], [], Catalog(map[], map[]);
    }

    method ResetColumns()
      modifies this`targetCols, this`columnLabels
      ensures View() == NOTHING
    {
      targetCols, columnLabels := [], [];
    }

    method RegisterTable(oid: nat, schema: string, table: string)
      modifies this`catalog
      ensures catalog == RegisteredTable(old(catalog), oid, schema, table)
    {
      if oid == 0 {
        return;
      }
      var aliases := if oid in catalog.tables then catalog.tables[oid] else {};
      aliases := aliases + {Normalize(table)};
      aliases := aliases + {Normalize(schema + "." + table)};
      ghost var known := if oid in catalog.tables then catalog.tables[oid] else {};
      assert aliases == known + {Normalize(table), Normalize(schema + "." + table)};
      catalog := catalog.(tables := catalog.tables[oid := aliases]);
    }

    method RegisterColumn(oid: nat, attnum: int, column: string)
      modifies this`catalog
      ensures catalog == RegisteredColumn(old(catalog), oid, attnum, column)
    {
      if oid == 0 || attnum <= 0 {
        return;
      }
      catalog := catalog.(columns := catalog.columns[(oid, attnum) := Normalize(column)]);
    }

    method OnRowDescription(text: bytes -> string, rules: seq<Rule>, fields: seq<Postgres.Field>)
      modifies this`targetCols, this`columnLabels
      ensures View() == AddColumns(NOTHING, rules, PgNamesAll(text, catalog, fields))
      ensures forall j, i | 0 <= j < |fields| && FirstAt(rules, PgNames(text, catalog, fields[j]), i) ::
                Lookup(targetCols, j) == Some(rules[i].strategy)
      ensures forall j | 0 <= j < |fields| && NoneMatches(rules, PgNames(text, catalog, fields[j])) :: Lookup(targetCols, j) == None
    {
      hide PgNames, FirstMatch, Matches, NoneMatches;
      ResetColumns();
      ghost var cs := PgNamesAll(text, catalog, fields);
      for i := 0 to |fields|
        invariant |columnLabels| == i
        invariant AddColumns(View(), rules, cs[i..]) == AddColumns(NOTHING, rules, cs)
      {
        var c := PgNames(text, catalog, fields[i]);
        assert cs[i..][0] == c && cs[i..][1..] == cs[i + 1..];
        ghost var before := View();
        columnLabels := columnLabels + [c.name];
        var s := FindRule(rules, c);
        if s.Some? {
          targetCols := targetCols + [(i, s.value)];
        }
        assert View() == AddColumn(before, rules, c);
      }
      hide AddColumns;
      TrackedAfterReset(rules, cs);
      forall j | 0 <= j < |fields|
        ensures forall i | FirstAt(rules, cs[j], i) :: Lookup(targetCols, j) == Some(rules[i].strategy)
        ensures NoneMatches(rules, cs[j]) ==> Lookup(targetCols, j) == None
      {
        FirstMatchExactly(rules, cs[j]);
      }
    }

    method OnDataRow(env: Env, values: Values) returns (row: Values)
      requires SpansInOrder(env)
      ensures row == MaskRow(env, targetCols, values)
    {
      row := MaskValues(env, targetCols, values);
    }
  }

  function RegisteredTable(cat: Catalog, oid: nat, schema: string, table: string): Catalog {
    if oid == 0 then cat
    else
      var known := if oid in cat.tables then cat.tables[oid] else {};
      cat.(tables := cat.tables[oid := known + {Normalize(table), Normalize(schema + "." + table)}])
  }

  function RegisteredColumn(cat: Catalog, oid: nat, attnum: int, column: string): Catalog {
    if oid == 0 || attnum <= 0 then cat else cat.(columns := cat.columns[(oid, attnum) := Normalize(column)])
  }

  /** Which columns a rule covers, from the names in a MySQL column definition: the
      label or the source name, and for a rule with a table the label or the source
      of the table. An unknown source name covers nothing. */
  lemma MySqlRuleCovers(text: bytes -> string, c: MySqlPackets.ColumnDefinition, r: Rule)
    ensures Matches(r, MySqlNames(text, c)) <==>
            && (var column, source := Normalize(r.column), Normalize(text(c.orgName));
                column == Normalize(text(c.name)) || (source != "" && column == source))
            && (r.table.Some? ==>
                  var table, source := Normalize(r.table.value), Normalize(text(c.orgTable));
                  table == Normalize(text(c.table)) || (source != "" && table == source))
  {
    hide Normalize;
  }

  /** The same for a PostgreSQL field, whose source names are those the catalog has
      for its table and position. A rule with a table covers no field of a table
      that is not in the catalog. */
  lemma PgRuleCovers(text: bytes -> string, cat: Catalog, f: Postgres.Field, r: Rule)
    ensures Matches(r, PgNames(text, cat, f)) <==>
            && (|| Normalize(r.column) == Normalize(text(f.name))
                || (&& f.tableOid != 0 && f.columnIndex > 0 && (f.tableOid, f.columnIndex) in cat.columns
                    && cat.columns[(f.tableOid, f.columnIndex)] == Normalize(r.column)))
            && (r.table.Some? ==>
                  f.tableOid != 0 && f.tableOid in cat.tables && Normalize(r.table.value) in cat.tables[f.tableOid])
  {
    hide Normalize;
  }

  /** A table is known by its bare and its qualified name, besides those it had; no
      other table gets a name. */
  lemma TableRegistered(cat: Catalog, oid: nat, schema: string, table: string, other: nat, name: string)
    ensures var known := RegisteredTable(cat, oid, schema, table);
            && known.columns == cat.columns
            && (other in known.tables && name in known.tables[other] <==>
                || (other in cat.tables && name in cat.tables[other])
                || (other == oid != 0 && (name == Normalize(table) || name == Normalize(schema + "." + table))))
  {
    hide Normalize;
  }

  lemma ColumnRegistered(cat: Catalog, oid: nat, attnum: int, column: string, other: (nat, nat))
    ensures var known := RegisteredColumn(cat, oid, attnum, column);
            && known.tables == cat.tables
            && if oid != 0 && attnum > 0 && other == (oid, attnum)
               then other in known.columns && known.columns[other] == Normalize(column)
               else (other in known.columns <==> other in cat.columns)
                    && (other in known.columns ==> known.columns[other] == cat.columns[other])
  {
    hide Normalize;
  }

  /** A label cannot hide a registered source column: whatever the field is
      called in the result, a rule for its source column covers it, with or
      without the table's bare or qualified name. */
  lemma AliasCannotHide(
    text: bytes -> string, cat: Catalog, f: Postgres.Field, schema: string, table: string, column: string, r: Rule)
    requires f.tableOid != 0 && f.columnIndex > 0
    requires Normalize(r.column) == Normalize(column)
    requires r.table.None? || Normalize(r.table.value) in {Normalize(table), Normalize(schema + "." + table)}
    ensures var known := RegisteredColumn(RegisteredTable(cat, f.tableOid, schema, table), f.tableOid, f.columnIndex, column);
            Matches(r, PgNames(text, known, f))
  {
    hide Normalize;
  }

  /** The same on MySQL, where the server names the source column and table. */
  lemma MySqlAliasCannotHide(text: bytes -> string, c: MySqlPackets.ColumnDefinition, r: Rule)
    requires Normalize(r.column) == Normalize(text(c.orgName)) != ""
    requires r.table.None? || Normalize(r.table.value) == Normalize(text(c.orgTable)) != ""
    ensures Matches(r, MySqlNames(text, c))
  {
    hide Normalize;
  }
}
