/** Masking rules: which columns a rule covers, first-match resolution, and the
    operations of the management interface on the rule list. */
module Rules {
  import opened Wrappers
  import opened Text

  datatype Rule = Rule(table: Option<string>, column: string, strategy: string)

  /** The names a rule is compared with. A MySQL column has its label, its source
      column and the label and source of its table; a PostgreSQL column has its
      label, its source column when known, and the known names of its table. */
  datatype Column =
    | MySqlColumn(name: string, source: string, labelTable: string, sourceTable: string)
    | PgColumn(name: string, pgSource: Option<string>, aliases: set<string>)

  predicate TableMatches(table: string, c: Column) {
    match c
    case MySqlColumn(_, _, labelTable, sourceTable) =>
      Normalize(table) == labelTable || (sourceTable != "" && Normalize(table) == sourceTable)
    case PgColumn(_, _, aliases) => Normalize(table) in aliases
  }

  predicate ColumnMatches(column: string, c: Column) {
    match c
    case MySqlColumn(name, source, _, _) =>
      Normalize(column) == name || (source != "" && Normalize(column) == source)
    case PgColumn(name, source, _) => Normalize(column) == name || source == Some(Normalize(column))
  }

  predicate Matches(r: Rule, c: Column) {
    (r.table.Some? ==> TableMatches(r.table.value, c)) && ColumnMatches(r.column, c)
  }

  /** The strategy of the first rule that matches. */
  function FirstMatch(rules: seq<Rule>, c: Column): (s: Option<string>)
    ensures s.Some? <==> exists r :: r in rules && Matches(r, c)
  {
    if rules == [] then None
    else if Matches(rules[0], c) then assert rules[0] in rules; Some(rules[0].strategy)
    else
      assert forall r :: r in rules <==> r == rules[0] || r in rules[1..];
      FirstMatch(rules[1..], c)
  }

  /** The rule at `i` matches and none before it does. */
  ghost predicate FirstAt(rules: seq<Rule>, c: Column, i: int) {
    0 <= i < |rules| && Matches(rules[i], c) && forall k | 0 <= k < i :: !Matches(rules[k], c)
  }

  ghost predicate NoneMatches(rules: seq<Rule>, c: Column) {
    forall k | 0 <= k < |rules| :: !Matches(rules[k], c)
  }

  lemma {:induction false} FirstMatchIs(rules: seq<Rule>, c: Column, i: int)
    requires FirstAt(rules, c, i)
    ensures FirstMatch(rules, c) == Some(rules[i].strategy)
    decreases |rules|
  {
    hide Matches;
    if i > 0 {
      FirstMatchIs(rules[1..], c, i - 1);
    }
  }

  /** The strategy for a column is that of the first rule that matches it, and there
      is none if and only if no rule does. */
  lemma FirstMatchExactly(rules: seq<Rule>, c: Column)
    ensures forall i | FirstAt(rules, c, i) :: FirstMatch(rules, c) == Some(rules[i].strategy)
    ensures FirstMatch(rules, c).None? <==> NoneMatches(rules, c)
  {
    hide Matches;
    forall i | FirstAt(rules, c, i) ensures FirstMatch(rules, c) == Some(rules[i].strategy) {
      FirstMatchIs(rules, c, i);
    }
    if FirstMatch(rules, c).Some? {
      var r :| r in rules && Matches(r, c);
      var k :| 0 <= k < |rules| && rules[k] == r;
    } else {
      forall k | 0 <= k < |rules| ensures !Matches(rules[k], c) {
        assert rules[k] in rules;
      }
    }
  }

  type Key = (Option<string>, string)

  function NormalizeTable(t: Option<string>): Option<string> {
    if t.Some? then Some(Normalize(t.value)) else None
  }

  function KeyOf(r: Rule): Key {
    (NormalizeTable(r.table), Normalize(r.column))
  }

  /** Rules with the same normalised key cover the same columns. */
  lemma SameKeySameColumns(r: Rule, q: Rule, c: Column)
    requires KeyOf(r) == KeyOf(q)
    ensures Matches(r, c) <==> Matches(q, c)
  {
    hide Normalize;
  }

  /** A column that one of the two covers and the other does not. */
  lemma OtherKeyOtherColumns(r: Rule, q: Rule)
    requires KeyOf(r) != KeyOf(q)
    ensures exists c :: Matches(r, c) != Matches(q, c)
  {
    hide Normalize;
    var rt, qt := NormalizeTable(r.table), NormalizeTable(q.table);
    var other := (if rt.Some? then rt.value else "") + (if qt.Some? then qt.value else "") + "x";
    var named := if rt.Some? && rt != qt then (if qt.Some? then rt.value else other) else if qt.Some? && rt.None? then other
                 else if rt.Some? then rt.value else "";
    var c := MySqlColumn(Normalize(r.column), "", named, "");
    assert rt.Some? ==> |other| > |rt.value|;
    assert qt.Some? ==> |other| > |qt.value|;
    if Normalize(r.column) != Normalize(q.column) {
      var d := MySqlColumn(Normalize(r.column), "", if rt.Some? then rt.value else "", "");
      assert Matches(r, d) && !Matches(q, d);
    } else {
      assert Matches(r, c) != Matches(q, c);
    }
  }

  /** Keys are the right notion: two rules have the same key if and only if they
      cover the same columns. */
  lemma KeyIsCoverage(r: Rule, q: Rule)
    ensures KeyOf(r) == KeyOf(q) <==> forall c :: Matches(r, c) <==> Matches(q, c)
  {
    hide KeyOf, Matches;
    if KeyOf(r) == KeyOf(q) {
      forall c ensures Matches(r, c) <==> Matches(q, c) {
        SameKeySameColumns(r, q, c);
      }
    } else {
      OtherKeyOtherColumns(r, q);
    }
  }

  function NormalizeRule(r: Rule): Rule {
    var t := NormalizeTable(r.table);
    r.(column := Normalize(r.column), table := if t == Some("") then None else t)
  }

  /** Normalising a rule at ingest changes which columns it covers exactly when
      its table name is blank: then it covers every table. */
  lemma NormalizeRuleCoverage(r: Rule)
    ensures (forall c :: Matches(NormalizeRule(r), c) <==> Matches(r, c)) <==> NormalizeTable(r.table) != Some("")
    ensures NormalizeTable(r.table) == Some("") ==>
              forall c :: Matches(NormalizeRule(r), c) <==> Matches(r.(table := None), c)
    ensures var n := NormalizeRule(r);
            && n.strategy == r.strategy && n.column == Normalize(r.column) && NormalizeRule(n) == n
            && (n.table.Some? ==> n.table.value != "")
  {
    NormalizeIdempotent(r.column);
    if r.table.Some? {
      NormalizeIdempotent(r.table.value);
    }
    var n := NormalizeRule(r);
    hide Normalize;
    if NormalizeTable(r.table) == Some("") {
      var c := MySqlColumn(Normalize(r.column), "", "t", "");
      assert Matches(n, c) && !Matches(r, c);
    }
  }

  // ---- Deduplication ----

  ghost predicate DistinctKeys(rules: seq<Rule>) {
    forall i, j :: 0 <= i < j < |rules| ==> KeyOf(rules[i]) != KeyOf(rules[j])
  }

  /** Keep each rule whose key is not in `seen` and not that of an earlier rule. */
  function DedupeFrom(rules: seq<Rule>, seen: set<Key>): (kept: seq<Rule>)
    ensures |kept| <= |rules|
    decreases |rules|
  {
    if rules == [] then []
    else if KeyOf(rules[0]) in seen then DedupeFrom(rules[1..], seen)
    else [rules[0]] + DedupeFrom(rules[1..], seen + {KeyOf(rules[0])})
  }

  function Dedupe(rules: seq<Rule>): seq<Rule> {
    DedupeFrom(rules, {})
  }

  lemma {:induction false} DedupeKeys(rules: seq<Rule>, seen: set<Key>)
    ensures var kept := DedupeFrom(rules, seen);
            DistinctKeys(kept) && (forall r | r in kept :: KeyOf(r) !in seen && r in rules)
    decreases |rules|
  {
    if rules != [] {
      var k := KeyOf(rules[0]);
      DedupeKeys(rules[1..], if k in seen then seen else seen + {k});
    }
  }

  lemma {:induction false} DedupeFromMeaning(rules: seq<Rule>, seen: set<Key>, c: Column)
    requires forall r | r in rules && KeyOf(r) in seen :: !Matches(r, c)
    ensures FirstMatch(DedupeFrom(rules, seen), c) == FirstMatch(rules, c)
    decreases |rules|
  {
    hide Matches, KeyOf;
    if rules != [] {
      var r0, rest := rules[0], rules[1..];
      var k := KeyOf(r0);
      assert r0 in rules && forall r | r in rest :: r in rules;
      if k in seen {
        DedupeFromMeaning(rest, seen, c);
      } else {
        var kept := DedupeFrom(rest, seen + {k});
        assert ([r0] + kept)[1..] == kept;
        if !Matches(r0, c) {
          forall r | r in rest && KeyOf(r) in seen + {k} ensures !Matches(r, c) {
            if KeyOf(r) == k {
              SameKeySameColumns(r, r0, c);
            }
          }
          DedupeFromMeaning(rest, seen + {k}, c);
        }
      }
    }
  }

  lemma {:induction false} DedupeDistinct(rules: seq<Rule>, seen: set<Key>)
    requires DistinctKeys(rules) && forall r | r in rules :: KeyOf(r) !in seen
    ensures DedupeFrom(rules, seen) == rules
    decreases |rules|
  {
    hide KeyOf;
    if rules != [] {
      assert rules[0] in rules;
      forall r | r in rules[1..] ensures KeyOf(r) !in seen + {KeyOf(rules[0])} {
        var i :| 0 <= i < |rules[1..]| && rules[1..][i] == r;
        assert r in rules && rules[i + 1] == r;
      }
      DedupeDistinct(rules[1..], seen + {KeyOf(rules[0])});
    }
  }

  /** Deduplication leaves every column's strategy as it was, on both protocols;
      the keys become distinct, and doing it again changes nothing. */
  lemma DedupeMeaning(rules: seq<Rule>, c: Column)
    ensures FirstMatch(Dedupe(rules), c) == FirstMatch(rules, c)
    ensures DistinctKeys(Dedupe(rules)) && Dedupe(Dedupe(rules)) == Dedupe(rules)
  {
    DedupeFromMeaning(rules, {}, c);
    DedupeKeys(rules, {});
    DedupeDistinct(Dedupe(rules), {});
  }

  // ---- Insertion and import ----

  datatype Outcome = Added | Updated | Unchanged

  function Upsert(rules: seq<Rule>, incoming: Rule): (r: (seq<Rule>, Outcome))
    decreases |rules|
  {
    if rules == [] then ([incoming], Added)
    else if KeyOf(rules[0]) == KeyOf(incoming) then
      if rules[0].strategy == incoming.strategy then (rules, Unchanged)
      else ([rules[0].(strategy := incoming.strategy)] + rules[1..], Updated)
    else
      var (rest, o) := Upsert(rules[1..], incoming);
      ([rules[0]] + rest, o)
  }

  /** The first rule with the key, at `i`, takes the strategy; without one the
      rule goes to the end. */
  lemma {:induction false} UpsertAt(rules: seq<Rule>, r: Rule, i: nat)
    requires i <= |rules| && forall k :: 0 <= k < i ==> KeyOf(rules[k]) != KeyOf(r)
    requires i < |rules| ==> KeyOf(rules[i]) == KeyOf(r)
    ensures Upsert(rules, r) ==
            if i == |rules| then (rules + [r], Added)
            else if rules[i].strategy == r.strategy then (rules, Unchanged)
            else (rules[i := rules[i].(strategy := r.strategy)], Updated)
    decreases |rules|
  {
    hide KeyOf;
    if i > 0 {
      var rest := rules[1..];
      UpsertAt(rest, r, i - 1);
      assert rules == [rules[0]] + rest && rules + [r] == [rules[0]] + (rest + [r]);
      if i < |rules| {
        assert rules[0] == rules[i := rules[i].(strategy := r.strategy)][0];
        assert [rules[0]] + rest[i - 1 := rest[i - 1].(strategy := r.strategy)] == rules[i := rules[i].(strategy := r.strategy)];
      }
    } else if rules != [] {
      assert rules[0 := rules[0].(strategy := r.strategy)] == [rules[0].(strategy := r.strategy)] + rules[1..];
    } else {
      assert rules + [r] == [r];
    }
  }

  datatype Imported = Imported(rules: seq<Rule>, added: nat, updated: nat, same: nat)

  function Count(i: Imported, rules: seq<Rule>, o: Outcome): Imported {
    match o
    case Added => i.(rules := rules, added := i.added + 1)
    case Updated => i.(rules := rules, updated := i.updated + 1)
    case Unchanged => i.(rules := rules, same := i.same + 1)
  }

  function ImportFrom(i: Imported, incoming: seq<Rule>): Imported
    decreases |incoming|
  {
    if incoming == [] then i
    else
      var (rules, o) := Upsert(i.rules, NormalizeRule(incoming[0]));
      ImportFrom(Count(i, rules, o), incoming[1..])
  }

  function Import(rules: seq<Rule>, incoming: seq<Rule>): Imported {
    ImportFrom(Imported(Dedupe(rules), 0, 0, 0), incoming)
  }

  /** The list as a table from keys to strategies: an earlier rule wins. */
  function FirstWins(rules: seq<Rule>): (m: map<Key, string>)
    ensures forall r | r in rules :: KeyOf(r) in m
  {
    if rules == [] then map[] else FirstWins(rules[1..])[KeyOf(rules[0]) := rules[0].strategy]
  }

  /** Imported rules as a table: a later rule wins. */
  function LastWins(incoming: seq<Rule>): map<Key, string> {
    if incoming == [] then map[]
    else
      var r := NormalizeRule(incoming[0]);
      map[KeyOf(r) := r.strategy] + LastWins(incoming[1..])
  }

  /** `b` has the rules of `a` in their places, up to strategies, and perhaps more. */
  ghost predicate Extends(b: seq<Rule>, a: seq<Rule>) {
    |a| <= |b| && forall i :: 0 <= i < |a| ==> b[i] == a[i].(strategy := b[i].strategy)
  }

  lemma UpdatesCommute(m: map<Key, string>, k: Key, s: string, l: Key, t: string)
    ensures k != l ==> m[k := s][l := t] == m[l := t][k := s]
    ensures k == l ==> m[k := s][l := t] == m[l := t]
  {
  }

  lemma {:induction false} UpsertTable(rules: seq<Rule>, r: Rule)
    ensures var (after, o) := Upsert(rules, r);
            && FirstWins(after) == FirstWins(rules)[KeyOf(r) := r.strategy]
            && (o.Added? <==> KeyOf(r) !in FirstWins(rules))
    decreases |rules|
  {
    hide Normalize, NormalizeTable;
    var (after, o) := Upsert(rules, r);
    if rules == [] {
      assert [r][1..] == [];
    } else if KeyOf(rules[0]) == KeyOf(r) {
      var q := after[0];
      assert KeyOf(q) == KeyOf(r) && q.strategy == r.strategy && after[1..] == rules[1..];
      hide KeyOf, Upsert;
      UpdatesCommute(FirstWins(rules[1..]), KeyOf(rules[0]), rules[0].strategy, KeyOf(r), r.strategy);
    } else {
      assert after[0] == rules[0] && after[1..] == Upsert(rules[1..], r).0 && o == Upsert(rules[1..], r).1;
      hide KeyOf, Upsert;
      UpsertTable(rules[1..], r);
      UpdatesCommute(FirstWins(rules[1..]), KeyOf(r), r.strategy, KeyOf(rules[0]), rules[0].strategy);
    }
  }

  lemma {:induction false} UpsertExtends(rules: seq<Rule>, r: Rule)
    ensures var (after, o) := Upsert(rules, r);
            && Extends(after, rules)
            && |after| == |rules| + (if o.Added? then 1 else 0)
            && (o.Added? ==> KeyOf(after[|rules|]) == KeyOf(r))
    decreases |rules|
  {
    hide KeyOf;
    if rules != [] && KeyOf(rules[0]) != KeyOf(r) {
      UpsertExtends(rules[1..], r);
      assert Upsert(rules, r).0[1..] == Upsert(rules[1..], r).0;
    }
  }

  lemma UpsertMap(rules: seq<Rule>, r: Rule)
    ensures var (after, o) := Upsert(rules, r);
            && FirstWins(after) == FirstWins(rules)[KeyOf(r) := r.strategy]
            && Extends(after, rules)
            && |after| == |rules| + (if o.Added? then 1 else 0)
            && (o.Added? <==> KeyOf(r) !in FirstWins(rules))
            && (o.Added? ==> KeyOf(after[|rules|]) == KeyOf(r))
  {
    hide KeyOf, Upsert, FirstWins, Extends;
    UpsertTable(rules, r);
    UpsertExtends(rules, r);
  }

  lemma {:induction false} KeyInTable(rules: seq<Rule>, k: Key)
    requires k in FirstWins(rules)
    ensures exists i :: 0 <= i < |rules| && KeyOf(rules[i]) == k
  {
    if KeyOf(rules[0]) != k {
      KeyInTable(rules[1..], k);
      var i :| 0 <= i < |rules[1..]| && KeyOf(rules[1..][i]) == k;
      assert KeyOf(rules[i + 1]) == k;
    }
  }

  lemma UpsertDistinct(rules: seq<Rule>, r: Rule)
    requires DistinctKeys(rules)
    ensures DistinctKeys(Upsert(rules, r).0)
  {
    var after := Upsert(rules, r).0;
    UpsertMap(rules, r);
    forall i, j | 0 <= i < j < |after| ensures KeyOf(after[i]) != KeyOf(after[j]) {
      assert KeyOf(after[i]) == KeyOf(rules[i]);
      if j == |rules| {
        assert rules[i] in rules;
      }
    }
  }

  lemma ExtendsTransitive(a: seq<Rule>, b: seq<Rule>, c: seq<Rule>)
    requires Extends(b, a) && Extends(c, b)
    ensures Extends(c, a)
  {
    forall i | 0 <= i < |a| ensures c[i] == a[i].(strategy := c[i].strategy) {
      assert b[i] == a[i].(strategy := b[i].strategy);
    }
  }

  lemma OverlayStep(m: map<Key, string>, k: Key, s: string, rest: map<Key, string>)
    ensures m[k := s] + rest == m + (map[k := s] + rest)
  {
  }

  lemma {:induction false} ImportFromMap(i: Imported, incoming: seq<Rule>)
    requires DistinctKeys(i.rules)
    ensures var r := ImportFrom(i, incoming);
            && FirstWins(r.rules) == FirstWins(i.rules) + LastWins(incoming)
            && DistinctKeys(r.rules) && Extends(r.rules, i.rules)
            && r.added + r.updated + r.same == i.added + i.updated + i.same + |incoming|
            && |r.rules| - |i.rules| == r.added - i.added
    decreases |incoming|
  {
    hide KeyOf, NormalizeRule, Upsert, Extends, DistinctKeys, FirstWins;
    if incoming != [] {
      var n := NormalizeRule(incoming[0]);
      var (rules, o) := Upsert(i.rules, n);
      UpsertMap(i.rules, n);
      UpsertDistinct(i.rules, n);
      ImportFromMap(Count(i, rules, o), incoming[1..]);
      OverlayStep(FirstWins(i.rules), KeyOf(n), n.strategy, LastWins(incoming[1..]));
      ExtendsTransitive(i.rules, rules, ImportFrom(i, incoming).rules);
    } else {
      ExtendsItself(i.rules);
    }
  }

  lemma ExtendsItself(a: seq<Rule>)
    ensures Extends(a, a)
  {
  }

  lemma {:induction false} DedupeMap(rules: seq<Rule>, seen: set<Key>)
    ensures FirstWins(DedupeFrom(rules, seen)) == FirstWins(rules) - seen
    decreases |rules|
  {
    hide KeyOf;
    if rules != [] {
      var k := KeyOf(rules[0]);
      if k in seen {
        DedupeMap(rules[1..], seen);
      } else {
        DedupeMap(rules[1..], seen + {k});
        var kept := DedupeFrom(rules[1..], seen + {k});
        assert ([rules[0]] + kept)[1..] == kept;
      }
    }
  }

  /** An import is a table overlay: the result has distinct keys and stands for
      the existing rules (first wins) overlaid with the imported ones (last
      wins). Existing rules stay where they were; the counts add up. */
  lemma ImportOverlays(rules: seq<Rule>, incoming: seq<Rule>)
    ensures var r := Import(rules, incoming);
            && DistinctKeys(r.rules)
            && FirstWins(r.rules) == FirstWins(rules) + LastWins(incoming)
            && Extends(r.rules, Dedupe(rules))
            && r.added + r.updated + r.same == |incoming|
            && |r.rules| == |Dedupe(rules)| + r.added
  {
    hide KeyOf, ImportFrom, LastWins, Extends, DistinctKeys;
    DedupeKeys(rules, {});
    DedupeMap(rules, {});
    assert FirstWins(rules) - {} == FirstWins(rules);
    hide FirstWins;
    ImportFromMap(Imported(Dedupe(rules), 0, 0, 0), incoming);
  }

  /** What an import should report, told from the table alone: a key that is new, one
      whose strategy changes, one that has it already. */
  function Tally(table: map<Key, string>, incoming: seq<Rule>): (nat, nat, nat)
    decreases |incoming|
  {
    if incoming == [] then (0, 0, 0)
    else
      var r := NormalizeRule(incoming[0]);
      var k := KeyOf(r);
      var (added, updated, same) := Tally(table[k := r.strategy], incoming[1..]);
      if k !in table then (added + 1, updated, same)
      else if table[k] != r.strategy then (added, updated + 1, same)
      else (added, updated, same + 1)
  }

  lemma {:induction false} OutcomeTold(rules: seq<Rule>, r: Rule)
    ensures var o := Upsert(rules, r).1;
            var table, k := FirstWins(rules), KeyOf(r);
            && (o.Added? <==> k !in table)
            && (o.Unchanged? <==> k in table && table[k] == r.strategy)
    decreases |rules|
  {
    hide KeyOf;
    if rules != [] && KeyOf(rules[0]) != KeyOf(r) {
      OutcomeTold(rules[1..], r);
    }
  }

  lemma {:induction false} ImportTallies(i: Imported, incoming: seq<Rule>)
    ensures var r := ImportFrom(i, incoming);
            var (added, updated, same) := Tally(FirstWins(i.rules), incoming);
            r.added == i.added + added && r.updated == i.updated + updated && r.same == i.same + same
    decreases |incoming|
  {
    hide KeyOf, NormalizeRule, Upsert, FirstWins;
    if incoming != [] {
      var n := NormalizeRule(incoming[0]);
      var (rules, o) := Upsert(i.rules, n);
      UpsertTable(i.rules, n);
      OutcomeTold(i.rules, n);
      ImportTallies(Count(i, rules, o), incoming[1..]);
    }
  }

  /** The numbers an import reports are those told from the table of the rules. */
  lemma ImportReports(rules: seq<Rule>, incoming: seq<Rule>)
    ensures var r := Import(rules, incoming); (r.added, r.updated, r.same) == Tally(FirstWins(rules), incoming)
  {
    hide ImportFrom, Tally, FirstWins;
    DedupeMap(rules, {});
    assert FirstWins(rules) - {} == FirstWins(rules);
    ImportTallies(Imported(Dedupe(rules), 0, 0, 0), incoming);
  }

  lemma {:induction false} StrategyAt(rules: seq<Rule>, i: nat)
    requires DistinctKeys(rules) && i < |rules|
    ensures KeyOf(rules[i]) in FirstWins(rules) && FirstWins(rules)[KeyOf(rules[i])] == rules[i].strategy
  {
    if i > 0 {
      assert KeyOf(rules[0]) != KeyOf(rules[i]);
      StrategyAt(rules[1..], i - 1);
    }
  }

  lemma SameTableSameRules(a: seq<Rule>, b: seq<Rule>)
    requires DistinctKeys(a) && DistinctKeys(b) && Extends(b, a) && FirstWins(a) == FirstWins(b)
    ensures a == b
  {
    forall i | 0 <= i < |a| ensures a[i] == b[i] {
      StrategyAt(a, i);
      StrategyAt(b, i);
      assert KeyOf(a[i]) == KeyOf(b[i]);
    }
    if |a| < |b| {
      StrategyAt(b, |a|);
      NewKey(a, b);
    }
  }

  lemma NewKey(a: seq<Rule>, b: seq<Rule>)
    requires DistinctKeys(b) && Extends(b, a) && |a| < |b|
    ensures KeyOf(b[|a|]) !in FirstWins(a)
  {
    var k := KeyOf(b[|a|]);
    forall i | 0 <= i < |a| ensures KeyOf(a[i]) != k {
      assert KeyOf(a[i]) == KeyOf(b[i]);
    }
    if k in FirstWins(a) {
      KeyInTable(a, k);
    }
  }

  /** Importing the same list again leaves the rules as they are. */
  lemma ImportTwice(rules: seq<Rule>, incoming: seq<Rule>)
    ensures var once := Import(rules, incoming).rules; Import(once, incoming).rules == once
  {
    hide KeyOf, Import, LastWins;
    var once := Import(rules, incoming).rules;
    ImportOverlays(rules, incoming);
    ImportOverlays(once, incoming);
    DedupeDistinct(once, {});
    var l := LastWins(incoming);
    assert FirstWins(rules) + l + l == FirstWins(rules) + l;
    SameTableSameRules(once, Import(once, incoming).rules);
  }

  // ---- Deletion ----

  /** A delete request names a column and perhaps a table. */
  predicate Deletes(table: Option<string>, column: string, r: Rule) {
    KeyOf(r).1 == Normalize(column) && (table.Some? ==> KeyOf(r).0 == NormalizeTable(table))
  }

  /** A request without a table names the rules for the column on every table and on
      none; a request with one only those for that very table, names compared without
      blanks and ASCII case. */
  lemma DeletesExactly(table: Option<string>, column: string, r: Rule)
    ensures Deletes(table, column, r) <==>
            && Normalize(r.column) == Normalize(column)
            && (table.None? || (r.table.Some? && Normalize(r.table.value) == Normalize(table.value)))
  {
    hide Normalize;
  }

  function Delete(rules: seq<Rule>, table: Option<string>, column: string): (kept: seq<Rule>)
    ensures |kept| <= |rules|
  {
    if rules == [] then []
    else if Deletes(table, column, rules[0]) then Delete(rules[1..], table, column)
    else [rules[0]] + Delete(rules[1..], table, column)
  }

  lemma DeleteStep(rules: seq<Rule>, table: Option<string>, column: string, i: nat)
    requires i < |rules|
    ensures var rest := Delete(rules[i + 1..], table, column);
            Delete(rules[i..], table, column) == if Deletes(table, column, rules[i]) then rest else [rules[i]] + rest
  {
    hide Deletes;
    assert rules[i..][0] == rules[i] && rules[i..][1..] == rules[i + 1..];
  }

  lemma DeleteAtEnds(rules: seq<Rule>, table: Option<string>, column: string)
    ensures Delete(rules[0..], table, column) == Delete(rules, table, column)
    ensures Delete(rules[|rules|..], table, column) == []
  {
    assert rules[0..] == rules && rules[|rules|..] == [];
  }

  /** A column's strategy survives a deletion that removes no rule covering it,
      and afterwards nothing the request names is left. */
  lemma {:induction false} DeleteMeaning(rules: seq<Rule>, table: Option<string>, column: string, c: Column)
    ensures (forall r | r in rules && Matches(r, c) :: !Deletes(table, column, r)) ==>
              FirstMatch(Delete(rules, table, column), c) == FirstMatch(rules, c)
    ensures forall r :: r in Delete(rules, table, column) <==> r in rules && !Deletes(table, column, r)
  {
    hide Matches, Deletes;
    if rules != [] {
      var rest := Delete(rules[1..], table, column);
      DeleteMeaning(rules[1..], table, column, c);
      assert rules[0] in rules && forall r :: r in rules <==> r == rules[0] || r in rules[1..];
      assert ([rules[0]] + rest)[1..] == rest;
    }
  }

  // ---- The rule list as the service holds it ----

  class RuleList {
    var rules: seq<Rule>

    constructor (initial: seq<Rule>)
      ensures rules == initial
    {
      rules := initial;
    }

    method DedupeRules() returns (removed: nat)
      modifies this
      ensures rules == Dedupe(old(rules)) && removed == |old(rules)| - |rules|
    {
      var all := rules;
      var seen: set<Key> := {};
      var kept := [];
      for i := 0 to |all|
        invariant kept + DedupeFrom(all[i..], seen) == Dedupe(all)
      {
        assert all[i..][0] == all[i] && all[i..][1..] == all[i + 1..];
        if KeyOf(all[i]) !in seen {
          seen := seen + {KeyOf(all[i])};
          kept := kept + [all[i]];
        }
      }
      assert all[|all|..] == [];
      rules := kept;
      removed := |all| - |kept|;
    }

    method UpsertRule(incoming: Rule) returns (o: Outcome)
      modifies this
      ensures (rules, o) == Upsert(old(rules), incoming)
    {
      hide KeyOf, Upsert;
      for i := 0 to |rules|
        invariant rules == old(rules)
        invariant forall k :: 0 <= k < i ==> KeyOf(rules[k]) != KeyOf(incoming)
      {
        if KeyOf(rules[i]) == KeyOf(incoming) {
          UpsertAt(rules, incoming, i);
          if rules[i].strategy == incoming.strategy {
            return Unchanged;
          }
          rules := rules[i := rules[i].(strategy := incoming.strategy)];
          return Updated;
        }
      }
      UpsertAt(rules, incoming, |rules|);
      rules := rules + [incoming];
      o := Added;
    }

    method ImportRules(incoming: seq<Rule>) returns (added: nat, updated: nat, same: nat)
      modifies this
      ensures Imported(rules, added, updated, same) == Import(old(rules), incoming)
    {
      hide KeyOf, Upsert, NormalizeRule, Dedupe;
      var removed := DedupeRules();
      added, updated, same := 0, 0, 0;
      ghost var spec := Import(old(rules), incoming);
      assert incoming[0..] == incoming;
      for i := 0 to |incoming|
        invariant ImportFrom(Imported(rules, added, updated, same), incoming[i..]) == spec
      {
        assert incoming[i..][0] == incoming[i] && incoming[i..][1..] == incoming[i + 1..];
        var o := UpsertRule(NormalizeRule(incoming[i]));
        match o
        case Added => added := added + 1;
        case Updated => updated := updated + 1;
        case Unchanged => same := same + 1;
      }
    }

    /** Returns the number of rules removed; none is an error to the caller. */
    method DeleteRule(table: Option<string>, column: string) returns (removed: nat)
      modifies this
      ensures rules == Delete(old(rules), table, column) && removed == |old(rules)| - |rules|
    {
      var all := rules;
      var kept := [];
      DeleteAtEnds(all, table, column);
      hide *;
      for i := 0 to |all|
        invariant kept + Delete(all[i..], table, column) == Delete(all, table, column)
      {
        DeleteStep(all, table, column, i);
        if !Deletes(table, column, all[i]) {
          Associative(kept, [all[i]], Delete(all[i + 1..], table, column));
          kept := kept + [all[i]];
        }
      }
      rules := kept;
      removed := |all| - |kept|;
    }
  }
}
