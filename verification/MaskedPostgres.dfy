/** The PostgreSQL relay end to end: row descriptions set the column map, client
    statements reset it, data rows are masked, and everything is sent on. */
module MaskedPostgres {
  import opened Wrappers
  import opened Bytes
  import opened Postgres
  import opened Interceptor
  import opened Rules
  import opened Masking
  import Text

  datatype Config = Config(text: bytes -> string, rules: seq<Rule>, env: Env)

  ghost predicate Ready(cfg: Config) {
    SpansInOrder(cfg.env)
  }

  /** What reaches the relay: a message from either side, or a newly loaded catalog. */
  datatype Event = FromServer(m: Message) | FromClient(m: Message) | Loaded(catalog: Catalog)

  /** A Query or a Parse; any other client message (Bind, Execute, Describe, ...) is
      only passed on. */
  predicate IsStatement(e: Event) {
    e.FromClient? && (e.m.Query? || e.m.Parse?)
  }

  datatype RelayState = RelayState(tracker: Tracker, catalog: Catalog)

  function RelayOne(cfg: Config, s: RelayState, e: Event): (r: (RelayState, seq<Message>))
    requires Ready(cfg)
    ensures |r.1| == if e.FromServer? then 1 else 0
  {
    match e
    case FromClient(m) => (
      match m
      case Query(_) => (s.(tracker := NOTHING), [])
      case Parse(_, _, _) => (s.(tracker := NOTHING), [])
      case _ => (s, []))
    case Loaded(cat) => (s.(catalog := cat), [])
    case FromServer(m) =>
      match m
      case RowDescription(fields) =>
        (s.(tracker := AddColumns(NOTHING, cfg.rules, PgNamesAll(cfg.text, s.catalog, fields))), [m])
      case DataRow(values) => (s, [DataRow(MaskRow(cfg.env, s.tracker.targetCols, values))])
      case _ => (s, [m])
  }

  function Relay(cfg: Config, s: RelayState, events: seq<Event>): (RelayState, seq<Message>)
    requires Ready(cfg)
    decreases |events|
  {
    if events == [] then (s, [])
    else
      var (next, ms) := RelayOne(cfg, s, events[0]);
      var (last, rest) := Relay(cfg, next, events[1..]);
      (last, ms + rest)
  }

  method HandleEvent(cfg: Config, anonymizer: Anonymizer, e: Event) returns (ms: seq<Message>)
    requires Ready(cfg)
    modifies anonymizer
    ensures (RelayState(anonymizer.View(), anonymizer.catalog), ms)
            == RelayOne(cfg, old(RelayState(anonymizer.View(), anonymizer.catalog)), e)
  {
    match e
    case FromClient(m) =>
      ms := [];
      if m.Query? || m.Parse? {
        anonymizer.ResetColumns();
      }
    case Loaded(cat) =>
      anonymizer.catalog := cat;
      ms := [];
    case FromServer(m) =>
      match m {
        case RowDescription(fields) =>
          anonymizer.OnRowDescription(cfg.text, cfg.rules, fields);
          ms := [m];
        case DataRow(values) =>
          var row := anonymizer.OnDataRow(cfg.env, values);
          ms := [DataRow(row)];
        case _ =>
          ms := [m];
      }
  }

  method RelayEvents(cfg: Config, anonymizer: Anonymizer, events: seq<Event>)
    returns (sent: seq<Message>, passed: seq<Message>)
    requires Ready(cfg)
    modifies anonymizer
    ensures passed == ClientMessages(events)
    ensures (RelayState(anonymizer.View(), anonymizer.catalog), sent)
            == Relay(cfg, old(RelayState(anonymizer.View(), anonymizer.catalog)), events)
  {
    hide RelayOne, Ready;
    sent, passed := [], [];
    ghost var all := Relay(cfg, RelayState(anonymizer.View(), anonymizer.catalog), events);
    assert events[0..] == events && [] + all.1 == all.1;
    assert [] + ClientMessages(events) == ClientMessages(events);
    for i := 0 to |events|
      invariant var more := Relay(cfg, RelayState(anonymizer.View(), anonymizer.catalog), events[i..]);
                (more.0, sent + more.1) == all
      invariant passed + ClientMessages(events[i..]) == ClientMessages(events)
    {
      ghost var before := sent;
      ghost var next := RelayOne(cfg, RelayState(anonymizer.View(), anonymizer.catalog), events[i]).0;
      assert events[i..][1..] == events[i + 1..];
      var ms := HandleEvent(cfg, anonymizer, events[i]);
      sent := sent + ms;
      if events[i].FromClient? {
        passed := passed + [events[i].m];
      }
      ghost var rest := Relay(cfg, next, events[i + 1..]).1;
      assert before + (ms + rest) == sent + rest;
    }
    assert sent + [] == sent;
  }

  /** What the server is sent: everything from the client. */
  function ClientMessages(events: seq<Event>): seq<Message> {
    if events == [] then []
    else (if events[0].FromClient? then [events[0].m] else []) + ClientMessages(events[1..])
  }

  // ---- Which columns a row is masked under ----

  function CatalogAfter(cat: Catalog, history: seq<Event>): Catalog {
    if history == [] then cat
    else if history[|history| - 1].Loaded? then history[|history| - 1].catalog
    else CatalogAfter(cat, history[..|history| - 1])
  }

  predicate IsDescription(e: Event) {
    e.FromServer? && e.m.RowDescription?
  }

  /** The columns of the latest row description, by the catalog of its time. */
  function LatestColumns(cfg: Config, cat: Catalog, history: seq<Event>): Option<seq<Column>> {
    if history == [] then None
    else
      var e, earlier := history[|history| - 1], history[..|history| - 1];
      if IsDescription(e) then Some(PgNamesAll(cfg.text, CatalogAfter(cat, earlier), e.m.fields))
      else LatestColumns(cfg, cat, earlier)
  }

  /** No client statement came after the latest row description. */
  predicate Current(history: seq<Event>) {
    history != [] &&
    var e := history[|history| - 1];
    IsDescription(e) || (!IsStatement(e) && Current(history[..|history| - 1]))
  }

  /** The columns in force for a row that comes after `history`: those of the
      latest description, or none after a later client statement. */
  function InForceAfter(cfg: Config, cat: Catalog, history: seq<Event>): seq<Column> {
    var latest := LatestColumns(cfg, cat, history);
    if Current(history) && latest.Some? then latest.value else []
  }

  function StrategyAt(cfg: Config, cs: seq<Column>, i: nat): Option<string> {
    if i < |cs| then FirstMatch(cfg.rules, cs[i]) else None
  }

  /** Each value masked under the first rule that matches its column. */
  function MaskedUnder(cfg: Config, cs: seq<Column>, values: Values): (r: Values)
    requires Ready(cfg)
    ensures |r| == |values| && forall i :: 0 <= i < |r| ==> (r[i].Some? <==> values[i].Some?)
  {
    if !cfg.env.maskingEnabled then values
    else seq(|values|, i requires 0 <= i < |values| => MaskValue(cfg.env, StrategyAt(cfg, cs, i), values[i]))
  }

  /** What the client should be sent after `history`. */
  function Sent(cfg: Config, cat: Catalog, history: seq<Event>, events: seq<Event>): seq<Message>
    requires Ready(cfg)
    decreases |events|
  {
    if events == [] then []
    else
      SentFor(cfg, InForceAfter(cfg, cat, history), events[0]) + Sent(cfg, cat, history + [events[0]], events[1..])
  }

  function SentFor(cfg: Config, cs: seq<Column>, e: Event): seq<Message>
    requires Ready(cfg)
  {
    if !e.FromServer? then []
    else [if e.m.DataRow? then DataRow(MaskedUnder(cfg, cs, e.m.values)) else e.m]
  }

  lemma StepHistory(cfg: Config, cat: Catalog, history: seq<Event>, e: Event)
    ensures CatalogAfter(cat, history + [e]) == if e.Loaded? then e.catalog else CatalogAfter(cat, history)
    ensures InForceAfter(cfg, cat, history + [e]) ==
            if IsDescription(e) then PgNamesAll(cfg.text, CatalogAfter(cat, history), e.m.fields)
            else if IsStatement(e) then []
            else InForceAfter(cfg, cat, history)
  {
    hide PgNamesAll;
    var after := history + [e];
    assert after[..|after| - 1] == history && after[|after| - 1] == e;
  }

  ghost predicate Follows(cfg: Config, cat: Catalog, history: seq<Event>, s: RelayState) {
    s.catalog == CatalogAfter(cat, history) && Tracks(s.tracker, cfg.rules, InForceAfter(cfg, cat, history))
  }

  lemma StepFollows(cfg: Config, cat: Catalog, history: seq<Event>, s: RelayState, e: Event)
    requires Ready(cfg) && Follows(cfg, cat, history, s)
    ensures var (next, ms) := RelayOne(cfg, s, e);
            Follows(cfg, cat, history + [e], next) && ms == SentFor(cfg, InForceAfter(cfg, cat, history), e)
  {
    hide Ready, InForceAfter, CatalogAfter, AddColumns, PgNamesAll, MaskRow, MaskedUnder, FirstMatch;
    StepHistory(cfg, cat, history, e);
    if IsStatement(e) {
      assert Tracks(NOTHING, cfg.rules, []);
    } else if IsDescription(e) {
      TrackedAfterReset(cfg.rules, PgNamesAll(cfg.text, s.catalog, e.m.fields));
    } else if e.FromServer? && e.m.DataRow? {
      RowMasked(cfg, s.tracker, InForceAfter(cfg, cat, history), e.m.values);
    }
  }

  lemma RowMasked(cfg: Config, t: Tracker, cs: seq<Column>, values: Values)
    requires Ready(cfg) && Tracks(t, cfg.rules, cs)
    ensures MaskRow(cfg.env, t.targetCols, values) == MaskedUnder(cfg, cs, values)
  {
    hide SpansInOrder, MaskValue, FirstMatch, Lookup;
    var a, b := MaskRow(cfg.env, t.targetCols, values), MaskedUnder(cfg, cs, values);
    forall i: nat | i < |values| ensures a[i] == b[i] {
      assert Lookup(t.targetCols, i) == StrategyAt(cfg, cs, i);
    }
  }

  /** Over any number of result sets, statements and catalog loads: every data
      row is masked under the first matches of the row description in force, and
      nothing else is touched. */
  lemma {:induction false} RelayMasks(cfg: Config, cat: Catalog, history: seq<Event>, s: RelayState, events: seq<Event>)
    requires Ready(cfg) && Follows(cfg, cat, history, s)
    ensures Relay(cfg, s, events).1 == Sent(cfg, cat, history, events)
    decreases |events|
  {
    hide Ready, Follows, RelayOne, SentFor, InForceAfter;
    if events != [] {
      StepFollows(cfg, cat, history, s, events[0]);
      RelayMasks(cfg, cat, history + [events[0]], RelayOne(cfg, s, events[0]).0, events[1..]);
    }
  }

  // ---- From the server's bytes to the client's decoder ----

  function ServerMessages(events: seq<Event>): seq<Message> {
    if events == [] then []
    else (if events[0].FromServer? then [events[0].m] else []) + ServerMessages(events[1..])
  }

  /** The masked rows still fit a frame. */
  predicate RowsFit(ms: seq<Message>) {
    forall m | m in ms && m.DataRow? :: Sendable(false, m)
  }

  lemma {:induction false} SentSendable(cfg: Config, cat: Catalog, history: seq<Event>, events: seq<Event>)
    requires Ready(cfg) && SendableAll(false, ServerMessages(events))
    requires RowsFit(Sent(cfg, cat, history, events))
    ensures SendableAll(false, Sent(cfg, cat, history, events))
    decreases |events|
  {
    hide Ready, InForceAfter, MaskedUnder, Sendable;
    if events != [] {
      var e, rest := events[0], events[1..];
      var out := SentFor(cfg, InForceAfter(cfg, cat, history), e);
      var more := Sent(cfg, cat, history + [e], rest);
      assert forall m | m in more :: m in out + more;
      if e.FromServer? {
        assert ServerMessages(events)[1..] == ServerMessages(rest) && (out + more)[1..] == more;
        assert out[0] in out + more;
      } else {
        assert [] + ServerMessages(rest) == ServerMessages(rest) && out + more == more;
      }
      SentSendable(cfg, cat, history + [e], rest);
    }
  }

  lemma {:induction false} StaysRegular(ms: seq<Message>)
    ensures !StateAfter(false, ms)
  {
    if ms != [] {
      StaysRegular(ms[1..]);
    }
  }

  /** However the bytes arrive on either leg, the proxy reads the server's
      messages and the client decodes exactly the masked ones, nothing more. */
  lemma ClientSeesMaskedRows(
    cfg: Config, cat: Catalog, events: seq<Event>, arriving: seq<bytes>, leaving: seq<bytes>)
    requires Ready(cfg) && SendableAll(false, ServerMessages(events))
    requires RowsFit(Sent(cfg, cat, [], events))
    requires arriving != [] && Concat(arriving) == EncodeAll(false, ServerMessages(events))
    ensures var sent := Relay(cfg, RelayState(NOTHING, cat), events).1;
            && Feed(Run(false, [], [], None), arriving) == Run(false, [], ServerMessages(events), None)
            && sent == Sent(cfg, cat, [], events)
            && SendableAll(false, sent)
            && (leaving != [] && Concat(leaving) == EncodeAll(false, sent) ==>
                  Feed(Run(false, [], [], None), leaving) == Run(false, [], sent, None))
  {
    assert Follows(cfg, cat, [], RelayState(NOTHING, cat));
    hide Ready, SendableAll, EncodeAll, Feed, Concat, Sent, Relay, Follows, RowsFit;
    RelayMasks(cfg, cat, [], RelayState(NOTHING, cat), events);
    var sent := Sent(cfg, cat, [], events);
    SentSendable(cfg, cat, [], events);
    StaysRegular(ServerMessages(events));
    StaysRegular(sent);
    StreamDecodes(false, ServerMessages(events), arriving);
    if leaving != [] && Concat(leaving) == EncodeAll(false, sent) {
      StreamDecodes(false, sent, leaving);
    }
  }

  // ---- Whose columns a row has ----

  /** The strategies for the columns in force are those for the row's own columns. */
  predicate AgreeWith(cfg: Config, cs: seq<Column>, own: seq<Column>) {
    forall i: nat | i < |own| :: StrategyAt(cfg, cs, i) == FirstMatch(cfg.rules, own[i])
  }

  lemma {:induction false} HistoryFollowed(cfg: Config, cat: Catalog, history: seq<Event>, s: RelayState, events: seq<Event>)
    requires Ready(cfg) && Follows(cfg, cat, history, s)
    ensures Follows(cfg, cat, history + events, Relay(cfg, s, events).0)
    decreases |events|
  {
    hide Ready, Follows, RelayOne, SentFor, InForceAfter;
    if events == [] {
      assert history + events == history;
    } else {
      StepFollows(cfg, cat, history, s, events[0]);
      HistoryFollowed(cfg, cat, history + [events[0]], RelayOne(cfg, s, events[0]).0, events[1..]);
      assert history + [events[0]] + events[1..] == history + events;
    }
  }

  lemma TrackedAsOwn(cfg: Config, t: Tracker, cs: seq<Column>, own: seq<Column>)
    requires Tracks(t, cfg.rules, cs)
    ensures OwnStrategies(t, cfg.rules, own) <==> AgreeWith(cfg, cs, own)
  {
    hide Lookup, FirstMatch;
    assert forall i: nat :: Lookup(t.targetCols, i) == StrategyAt(cfg, cs, i);
  }

  /** A row with the columns `own`, whichever statement it belongs to, comes after
      `history`. Every position has the strategy of its own column if and only if
      the latest description has the same strategies and no client statement came
      after it, or a statement did (or nothing was described) and no rule covers
      any of the row's columns. */
  lemma RowMaskedAsOwn(cfg: Config, cat: Catalog, history: seq<Event>, own: seq<Column>)
    requires Ready(cfg)
    ensures var latest := LatestColumns(cfg, cat, history);
            OwnStrategies(Relay(cfg, RelayState(NOTHING, cat), history).0.tracker, cfg.rules, own)
            <==> if Current(history) && latest.Some? then AgreeWith(cfg, latest.value, own)
                 else forall i: nat | i < |own| :: FirstMatch(cfg.rules, own[i]).None?
  {
    hide Ready, Relay, LatestColumns, Current, FirstMatch, OwnStrategies, Tracks;
    assert Tracks(NOTHING, cfg.rules, []) by { NothingTracked(cfg.rules); }
    assert Follows(cfg, cat, [], RelayState(NOTHING, cat)) by { AtFirst(cfg, cat); }
    HistoryFollowed(cfg, cat, [], RelayState(NOTHING, cat), history);
    assert [] + history == history;
    TrackedAsOwn(cfg, Relay(cfg, RelayState(NOTHING, cat), history).0.tracker, InForceAfter(cfg, cat, history), own);
  }

  /** A row of `n` values that does belong to the latest description has its
      strategies unless a client statement came between them and a rule covers a
      column it has. */
  lemma RowAfterStatement(cfg: Config, cat: Catalog, history: seq<Event>, n: nat)
    requires LatestColumns(cfg, cat, history).Some?
    ensures var own := LatestColumns(cfg, cat, history).value;
            (forall i: nat | i < n :: StrategyAt(cfg, InForceAfter(cfg, cat, history), i) == StrategyAt(cfg, own, i))
            <==> Current(history) || (forall i: nat | i < n && i < |own| :: FirstMatch(cfg.rules, own[i]).None?)
  {
    hide FirstMatch, LatestColumns, Current;
    var own := LatestColumns(cfg, cat, history).value;
    var now := InForceAfter(cfg, cat, history);
    if !Current(history) {
      assert forall i: nat :: StrategyAt(cfg, now, i) == None;
      assert forall i: nat | i < |own| :: StrategyAt(cfg, own, i) == FirstMatch(cfg.rules, own[i]);
    }
  }

  lemma NothingTracked(rules: seq<Rule>)
    ensures Tracks(NOTHING, rules, [])
  {
  }

  lemma AtFirst(cfg: Config, cat: Catalog)
    ensures Follows(cfg, cat, [], RelayState(NOTHING, cat))
  {
  }

  /** An event and, if it is a row, the columns it has. */
  datatype Owned = Owned(e: Event, own: seq<Column>)

  predicate IsRow(e: Event) {
    e.FromServer? && e.m.DataRow?
  }

  function Events(run: seq<Owned>): seq<Event> {
    if run == [] then [] else [run[0].e] + Events(run[1..])
  }

  /** When each row arrives the map has the strategies of its own columns. */
  predicate RightlyTracked(cfg: Config, s: RelayState, run: seq<Owned>)
    requires SpansInOrder(cfg.env)
    decreases |run|
  {
    run == [] ||
    (&& (IsRow(run[0].e) ==> OwnStrategies(s.tracker, cfg.rules, run[0].own))
     && RightlyTracked(cfg, RelayOne(cfg, s, run[0].e).0, run[1..]))
  }

  /** The columns in force for each row have the strategies of its own. */
  predicate AllAgree(cfg: Config, cat: Catalog, history: seq<Event>, run: seq<Owned>)
    decreases |run|
  {
    run == [] ||
    (&& (IsRow(run[0].e) ==> AgreeWith(cfg, InForceAfter(cfg, cat, history), run[0].own))
     && AllAgree(cfg, cat, history + [run[0].e], run[1..]))
  }

  /** Over any run, with statements executed again in any order: the strategies
      are right throughout if and only if those in force always agree. */
  lemma {:induction false} RightlyTrackedExactly(cfg: Config, cat: Catalog, history: seq<Event>, s: RelayState, run: seq<Owned>)
    requires Ready(cfg) && Follows(cfg, cat, history, s)
    ensures RightlyTracked(cfg, s, run) <==> AllAgree(cfg, cat, history, run)
    decreases |run|
  {
    if run != [] {
      var e := run[0].e;
      TrackedAsOwn(cfg, s.tracker, InForceAfter(cfg, cat, history), run[0].own);
      StepFollows(cfg, cat, history, s, e);
      hide SpansInOrder, Follows, RelayOne, InForceAfter, OwnStrategies, AgreeWith;
      RightlyTrackedExactly(cfg, cat, history + [e], RelayOne(cfg, s, e).0, run[1..]);
    }
  }

  /** What should be sent: every row masked under its own columns. */
  function RightlySent(cfg: Config, run: seq<Owned>): seq<Message>
    requires Ready(cfg)
  {
    if run == [] then [] else SentFor(cfg, run[0].own, run[0].e) + RightlySent(cfg, run[1..])
  }

  /** A row has as many values as columns. */
  predicate WellOwned(run: seq<Owned>) {
    forall o | o in run && IsRow(o.e) :: |o.e.m.values| == |o.own|
  }

  lemma AgreeingMasksAlike(cfg: Config, cs: seq<Column>, own: seq<Column>, values: Values)
    requires Ready(cfg) && AgreeWith(cfg, cs, own) && |values| == |own|
    ensures MaskedUnder(cfg, cs, values) == MaskedUnder(cfg, own, values)
  {
    hide SpansInOrder, MaskValue, FirstMatch;
    var a, b := MaskedUnder(cfg, cs, values), MaskedUnder(cfg, own, values);
    forall i: nat | i < |values| ensures a[i] == b[i] {
      assert StrategyAt(cfg, own, i) == FirstMatch(cfg.rules, own[i]);
    }
  }

  /** If they agree, what is sent is what should be. */
  lemma {:induction false} AgreeingIsRight(cfg: Config, cat: Catalog, history: seq<Event>, run: seq<Owned>)
    requires Ready(cfg) && WellOwned(run) && AllAgree(cfg, cat, history, run)
    ensures Sent(cfg, cat, history, Events(run)) == RightlySent(cfg, run)
    decreases |run|
  {
    if run != [] {
      var o, rest := run[0], run[1..];
      assert o in run && forall p | p in rest :: p in run;
      hide SpansInOrder, InForceAfter, AgreeWith, MaskedUnder;
      AgreeingIsRight(cfg, cat, history + [o.e], rest);
      assert Events(run)[0] == o.e && Events(run)[1..] == Events(rest);
      if IsRow(o.e) {
        AgreeingMasksAlike(cfg, InForceAfter(cfg, cat, history), o.own, o.e.m.values);
      }
    }
  }

  // ---- Rows that are not ----

  function Named(name: bytes): Postgres.Field {
    Postgres.Field(name, 0, 0, 25, -1, -1, 0)
  }

  lemma NameMatches(cfg: Config, name: bytes, cat: Catalog)
    requires cfg.text(name) == "e" && cfg.rules == [Rule(None, "e", "hash")]
    ensures FirstMatch(cfg.rules, PgNames(cfg.text, cat, Named(name))) == Some("hash")
  {
    assert Text.ToAsciiLower("e") == "e";
    assert Text.Normalize("e") == "e";
    hide Text.Normalize;
  }

  lemma OneValue(cfg: Config, s: RelayState, value: bytes)
    requires Ready(cfg) && cfg.env.maskingEnabled && !cfg.env.heuristicsEnabled
    ensures var sent := Relay(cfg, s, [FromServer(DataRow([Some(value)]))]).1;
            && (Lookup(s.tracker.targetCols, 0) == None ==> sent == [DataRow([Some(value)])])
            && (Lookup(s.tracker.targetCols, 0) == Some("hash") ==>
                  sent == [DataRow([Some(cfg.env.encode(cfg.env.hash(value)))])])
  {
    hide SpansInOrder, Lookup;
    var row := FromServer(DataRow([Some(value)]));
    assert [row][1..] == [];
    assert Relay(cfg, s, [row]).1 == RelayOne(cfg, s, row).1 + Relay(cfg, s, []).1;
    assert MaskRow(cfg.env, s.tracker.targetCols, [Some(value)])
        == [MaskValue(cfg.env, Lookup(s.tracker.targetCols, 0), Some(value))];
  }

  function Description(name: bytes): Event {
    FromServer(RowDescription([Named(name)]))
  }

  function OneRow(value: bytes): Event {
    FromServer(DataRow([Some(value)]))
  }

  lemma DescribedTracked(cfg: Config, name: bytes, cat: Catalog)
    requires Ready(cfg) && cfg.text(name) == "e" && cfg.rules == [Rule(None, "e", "hash")]
    ensures var d := RelayOne(cfg, RelayState(NOTHING, cat), Description(name));
            Lookup(d.0.tracker.targetCols, 0) == Some("hash") && d.0.catalog == cat && d.1 == [Description(name).m]
  {
    hide SpansInOrder, AddColumns, PgNames, FirstMatch;
    var cs := PgNamesAll(cfg.text, cat, [Named(name)]);
    NameMatches(cfg, name, cat);
    TrackedAfterReset(cfg.rules, cs);
  }

  lemma StatementResets(cfg: Config, s: RelayState, e: Event)
    requires Ready(cfg) && IsStatement(e)
    ensures RelayOne(cfg, s, e) == (RelayState(NOTHING, s.catalog), []) && Lookup(NOTHING.targetCols, 0) == None
  {
  }

  lemma TwoEvents(cfg: Config, s: RelayState, a: Event, b: Event)
    requires Ready(cfg)
    ensures Relay(cfg, s, [a, b]).1 == RelayOne(cfg, s, a).1 + Relay(cfg, RelayOne(cfg, s, a).0, [b]).1
  {
    hide RelayOne, Ready;
    assert [a, b][1..] == [b];
  }

  lemma ThreeEvents(cfg: Config, s: RelayState, a: Event, b: Event, c: Event)
    requires Ready(cfg)
    ensures var (s1, m1) := RelayOne(cfg, s, a);
            var (s2, m2) := RelayOne(cfg, s1, b);
            Relay(cfg, s, [a, b, c]).1 == m1 + (m2 + Relay(cfg, s2, [c]).1)
  {
    TwoEvents(cfg, RelayOne(cfg, s, a).0, b, c);
    hide RelayOne, Ready;
    assert [a, b, c][1..] == [b, c];
  }

  /** A column is to be hashed. The client sends its next statement after
      the description and before the row: the value goes out as it is. */
  lemma RowExposed(cfg: Config, name: bytes, cat: Catalog, value: bytes, next: Event)
    requires Ready(cfg) && IsStatement(next) && cfg.env.maskingEnabled && !cfg.env.heuristicsEnabled
    requires cfg.text(name) == "e" && cfg.rules == [Rule(None, "e", "hash")]
    ensures Relay(cfg, RelayState(NOTHING, cat), [Description(name), next, OneRow(value)]).1
            == [Description(name).m, DataRow([Some(value)])]
    ensures Relay(cfg, RelayState(NOTHING, cat), [Description(name), OneRow(value)]).1
            == [Description(name).m, DataRow([Some(cfg.env.encode(cfg.env.hash(value)))])]
  {
    hide RelayOne, Relay, Ready, Lookup, Description;
    var s, row := RelayState(NOTHING, cat), OneRow(value);
    var d := RelayOne(cfg, s, Description(name)).0;
    DescribedTracked(cfg, name, cat);
    StatementResets(cfg, d, next);
    OneValue(cfg, d, value);
    OneValue(cfg, s, value);
    TwoEvents(cfg, s, Description(name), row);
    ThreeEvents(cfg, s, Description(name), next, row);
  }

  lemma OtherMatchesNot(cfg: Config, other: bytes, cat: Catalog)
    requires cfg.text(other) == "o" && cfg.rules == [Rule(None, "e", "hash")]
    ensures FirstMatch(cfg.rules, PgNames(cfg.text, cat, Named(other))) == None
  {
    assert Text.ToAsciiLower("e") == "e" && Text.ToAsciiLower("o") == "o";
    assert Text.Normalize("e") == "e" && Text.Normalize("o") == "o";
    assert "e"[0] != "o"[0] && cfg.rules[1..] == [];
    hide Text.Normalize;
  }

  /** Two prepared statements: the first has a column that is to be hashed, the
      second has none. Executing the first again sends its value on as it is,
      although no statement came after the latest description. */
  lemma ReexecutedExposed(
    cfg: Config, name: bytes, other: bytes, cat: Catalog, value: bytes, first: Event, second: Event, bind: Event)
    requires IsStatement(first) && IsStatement(second) && bind.FromClient? && !IsStatement(bind)
    requires Ready(cfg) && cfg.env.maskingEnabled && !cfg.env.heuristicsEnabled
    requires cfg.text(name) == "e" && cfg.text(other) == "o" && cfg.rules == [Rule(None, "e", "hash")]
    ensures var history := [first, Description(name), second, Description(other), bind];
            var own := PgNamesAll(cfg.text, cat, [Named(name)]);
            && Current(history)
            && FirstMatch(cfg.rules, own[0]) == Some("hash")
            && Relay(cfg, RelayState(NOTHING, cat), history + [OneRow(value)]).1
               == [Description(name).m, Description(other).m, DataRow([Some(value)])]
  {
    NameMatches(cfg, name, cat);
    CurrentInExample(name, other, first, second, bind);
    ReexecutedSteps(cfg, name, other, cat, value, first, second, bind);
  }

  lemma CurrentInExample(name: bytes, other: bytes, first: Event, second: Event, bind: Event)
    requires !IsStatement(bind)
    ensures Current([first, Description(name), second, Description(other), bind])
  {
    var h := [first, Description(name), second, Description(other)];
    var history := h + [bind];
    assert history[..4] == h && Current(h) && history[4] == bind;
    assert history == [first, Description(name), second, Description(other), bind];
  }

  lemma DescriptionRelayed(cfg: Config, name: bytes, s: RelayState)
    requires Ready(cfg)
    ensures var (d, ms) := RelayOne(cfg, s, Description(name));
            && ms == [Description(name).m] && d.catalog == s.catalog
            && Lookup(d.tracker.targetCols, 0) == FirstMatch(cfg.rules, PgNames(cfg.text, s.catalog, Named(name)))
  {
    hide SpansInOrder, AddColumns, PgNames, FirstMatch;
    TrackedAfterReset(cfg.rules, PgNamesAll(cfg.text, s.catalog, [Named(name)]));
  }

  lemma ReexecutedSteps(
    cfg: Config, name: bytes, other: bytes, cat: Catalog, value: bytes, first: Event, second: Event, bind: Event)
    requires IsStatement(first) && IsStatement(second) && bind.FromClient? && !IsStatement(bind)
    requires Ready(cfg) && cfg.env.maskingEnabled && !cfg.env.heuristicsEnabled
    requires cfg.text(other) == "o" && cfg.rules == [Rule(None, "e", "hash")]
    ensures Relay(cfg, RelayState(NOTHING, cat),
                  [first, Description(name), second, Description(other), bind] + [OneRow(value)]).1
            == [Description(name).m, Description(other).m, DataRow([Some(value)])]
  {
    hide RelayOne, Ready, Lookup, Description, Relay;
    var s, row := RelayState(NOTHING, cat), OneRow(value);
    OtherMatchesNot(cfg, other, cat);
    hide FirstMatch;
    StatementResets(cfg, s, first);
    DescriptionRelayed(cfg, name, s);
    var d := RelayOne(cfg, s, Description(name)).0;
    StatementResets(cfg, d, second);
    DescriptionRelayed(cfg, other, s);
    var o := RelayOne(cfg, s, Description(other)).0;
    PassedOn(cfg, o, bind);
    OneValue(cfg, o, value);
    ThreeEvents(cfg, s, Description(other), bind, row);
    ThreeMore(cfg, s, first, Description(name), second, [Description(other), bind, row]);
    assert [first, Description(name), second, Description(other), bind] + [row]
        == [first, Description(name), second] + [Description(other), bind, row];
  }

  lemma PassedOn(cfg: Config, s: RelayState, e: Event)
    requires Ready(cfg) && e.FromClient? && !IsStatement(e)
    ensures RelayOne(cfg, s, e) == (s, [])
  {
  }

  lemma FirstEvent(cfg: Config, s: RelayState, a: Event, more: seq<Event>)
    requires Ready(cfg)
    ensures Relay(cfg, s, [a] + more).1 == RelayOne(cfg, s, a).1 + Relay(cfg, RelayOne(cfg, s, a).0, more).1
  {
    hide RelayOne, Ready;
    assert ([a] + more)[1..] == more;
  }

  lemma ThreeMore(cfg: Config, s: RelayState, a: Event, b: Event, c: Event, more: seq<Event>)
    requires Ready(cfg)
    ensures var (s1, m1) := RelayOne(cfg, s, a);
            var (s2, m2) := RelayOne(cfg, s1, b);
            var (s3, m3) := RelayOne(cfg, s2, c);
            Relay(cfg, s, [a, b, c] + more).1 == m1 + (m2 + (m3 + Relay(cfg, s3, more).1))
  {
    hide RelayOne, Ready, Relay;
    var s1 := RelayOne(cfg, s, a).0;
    FirstEvent(cfg, s, a, [b] + ([c] + more));
    FirstEvent(cfg, s1, b, [c] + more);
    FirstEvent(cfg, RelayOne(cfg, s1, b).0, c, more);
    assert [a, b, c] + more == [a] + ([b] + ([c] + more));
  }
}
