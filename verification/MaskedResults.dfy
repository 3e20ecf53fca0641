/** The command phase end to end: the server's replies are decoded, rows are
    masked, and everything is encoded again for the client. */
module MaskedResults {
  import opened Wrappers
  import opened Bytes
  import opened MySqlPackets
  import opened MySqlCodec
  import opened ResultSets
  import opened Interceptor
  import opened Rules
  import opened Masking

  /** What the relay needs from outside: lossy text decoding, the rules in
      force and the masking environment. */
  datatype Config = Config(text: bytes -> string, rules: seq<Rule>, env: Env)

  ghost predicate Ready(cfg: Config) {
    SpansInOrder(cfg.env)
  }

  function RelayOne(cfg: Config, t: Tracker, m: Message): (Tracker, Message)
    requires Ready(cfg)
  {
    match m
    case ColumnMsg(c) => (AddColumn(t, cfg.rules, MySqlNames(cfg.text, c)), m)
    case ResultRow(seqId, values) => (t, ResultRow(seqId, MaskRow(cfg.env, t.targetCols, values)))
    case _ => (t, m)
  }

  /** The messages sent on to the client, and the tracker afterwards. */
  function Relay(cfg: Config, t: Tracker, ms: seq<Message>): (r: (Tracker, seq<Message>))
    requires Ready(cfg)
    ensures |r.1| == |ms|
    decreases |ms|
  {
    if ms == [] then (t, [])
    else
      var (next, m) := RelayOne(cfg, t, ms[0]);
      var (last, rest) := Relay(cfg, next, ms[1..]);
      (last, [m] + rest)
  }

  lemma {:induction false} RelayAppend(cfg: Config, t: Tracker, a: seq<Message>, b: seq<Message>)
    requires Ready(cfg)
    ensures var (mid, ra) := Relay(cfg, t, a); var (last, rb) := Relay(cfg, mid, b);
            Relay(cfg, t, a + b) == (last, ra + rb)
    decreases |a|
  {
    hide RelayOne, Ready;
    if a == [] {
      assert a + b == b;
      assert [] + Relay(cfg, t, b).1 == Relay(cfg, t, b).1;
    } else {
      var (next, m) := RelayOne(cfg, t, a[0]);
      RelayAppend(cfg, next, a[1..], b);
      assert (a + b)[1..] == a[1..] + b;
      var ra := Relay(cfg, next, a[1..]).1;
      assert forall rb: seq<Message> :: [m] + (ra + rb) == [m] + ra + rb;
    }
  }

  method ForwardReplies(
    cfg: Config, anonymizer: MySqlAnonymizer, client: MySqlCodec, messages: seq<Message>, out: BytesMut)
    requires Ready(cfg)
    requires forall m | m in Relay(cfg, anonymizer.View(), messages).1 :: Encodable(m)
    modifies anonymizer, client`state, out
    ensures anonymizer.View() == Relay(cfg, old(anonymizer.View()), messages).0
    ensures out.data == old(out.data) + EncodeAll(Relay(cfg, old(anonymizer.View()), messages).1, client.capabilityFlags)
  {
    hide RelayOne, Ready, Encode, Encodable;
    var flags := client.capabilityFlags;
    ghost var all := Relay(cfg, anonymizer.View(), messages);
    ghost var start := out.data;
    assert messages[0..] == messages;
    for i := 0 to |messages|
      invariant client.capabilityFlags == flags
      invariant Relay(cfg, anonymizer.View(), messages[i..]).0 == all.0
      invariant forall m | m in Relay(cfg, anonymizer.View(), messages[i..]).1 :: Encodable(m)
      invariant out.data + EncodeAll(Relay(cfg, anonymizer.View(), messages[i..]).1, flags) == start + EncodeAll(all.1, flags)
    {
      ghost var t := anonymizer.View();
      ghost var (next, relayed) := RelayOne(cfg, t, messages[i]);
      ghost var rest := Relay(cfg, next, messages[i + 1..]).1;
      assert messages[i..][1..] == messages[i + 1..];
      assert Relay(cfg, t, messages[i..]).1 == [relayed] + rest;
      assert ([relayed] + rest)[1..] == rest && relayed in [relayed] + rest;
      assert forall m | m in rest :: m in [relayed] + rest;
      var m := HandleReply(cfg, anonymizer, messages[i]);
      client.EncodeMessage(m, out);
    }
  }

  method HandleReply(cfg: Config, anonymizer: MySqlAnonymizer, m: Message) returns (r: Message)
    requires Ready(cfg)
    modifies anonymizer
    ensures (anonymizer.View(), r) == RelayOne(cfg, old(anonymizer.View()), m)
  {
    hide SpansInOrder, MaskRow, AddColumn, MySqlNames;
    match m
    case ColumnMsg(c) =>
      anonymizer.OnColumnDefinition(cfg.text, cfg.rules, c);
      r := m;
    case ResultRow(seqId, values) =>
      var row := anonymizer.OnResultRow(cfg.env, values);
      r := ResultRow(seqId, row);
    case _ =>
      r := m;
  }

  // ---- One result set after a reset ----

  function ColumnsOf(cfg: Config, rs: ResultSet): (cs: seq<Column>)
    requires forall p | p in rs.columns :: ParseColumn(p.payload, p.seqId).Success?
    ensures |cs| == |rs.columns|
  {
    seq(|rs.columns|, i requires 0 <= i < |rs.columns| =>
      assert rs.columns[i] in rs.columns; MySqlNames(cfg.text, ParseColumn(rs.columns[i].payload, rs.columns[i].seqId).value))
  }

  /** A value masked under the first rule that matches its column. */
  function MaskedValue(cfg: Config, c: Column, v: Option<bytes>): Option<bytes>
    requires Ready(cfg)
  {
    if !cfg.env.maskingEnabled then v else MaskValue(cfg.env, FirstMatch(cfg.rules, c), v)
  }

  function MaskedRow(cfg: Config, cs: seq<Column>, r: Row): (m: Row)
    requires Ready(cfg) && |r.values| == |cs|
    ensures m.seqId == r.seqId && |m.values| == |cs|
    ensures forall i :: 0 <= i < |cs| ==> (m.values[i].Some? <==> r.values[i].Some?)
  {
    Row(r.seqId, seq(|cs|, i requires 0 <= i < |cs| => MaskedValue(cfg, cs[i], r.values[i])))
  }

  /** The result set the client should see. */
  function MaskedRows(cfg: Config, cs: seq<Column>, rows: seq<Row>): (m: seq<Row>)
    requires Ready(cfg) && forall r | r in rows :: |r.values| == |cs|
    ensures |m| == |rows|
  {
    seq(|rows|, i requires 0 <= i < |rows| => assert rows[i] in rows; MaskedRow(cfg, cs, rows[i]))
  }

  function MaskedResultSet(cfg: Config, rs: ResultSet, deprecateEof: bool): (m: ResultSet)
    requires Ready(cfg) && WellFormed(rs, deprecateEof)
    ensures m == rs.(rows := m.rows) && |m.rows| == |rs.rows|
  {
    rs.(rows := MaskedRows(cfg, ColumnsOf(cfg, rs), rs.rows))
  }

  lemma RowIsMasked(cfg: Config, t: Tracker, cs: seq<Column>, r: Row)
    requires Ready(cfg) && OwnStrategies(t, cfg.rules, cs) && |r.values| == |cs|
    ensures MaskRow(cfg.env, t.targetCols, r.values) == MaskedRow(cfg, cs, r).values
  {
    hide FirstMatch, Lookup, MaskValue, SpansInOrder;
    var a, b := MaskRow(cfg.env, t.targetCols, r.values), MaskedRow(cfg, cs, r).values;
    forall i | 0 <= i < |cs| ensures a[i] == b[i] {
      assert Lookup(t.targetCols, i) == FirstMatch(cfg.rules, cs[i]);
    }
  }

  lemma MaskedRowsSplit(cfg: Config, cs: seq<Column>, rows: seq<Row>)
    requires Ready(cfg) && rows != [] && forall r | r in rows :: |r.values| == |cs|
    ensures rows[0] in rows && forall r | r in rows[1..] :: r in rows
    ensures MaskedRows(cfg, cs, rows) == [MaskedRow(cfg, cs, rows[0])] + MaskedRows(cfg, cs, rows[1..])
  {
    hide Ready, MaskedRow;
    assert rows[0] in rows && forall r | r in rows[1..] :: r in rows;
    var a, b := MaskedRows(cfg, cs, rows), [MaskedRow(cfg, cs, rows[0])] + MaskedRows(cfg, cs, rows[1..]);
    assert |a| == |b|;
    forall i | 0 <= i < |a| ensures a[i] == b[i] {
      assert i > 0 ==> rows[1..][i - 1] == rows[i];
    }
  }

  lemma RowMessagesSplit(rows: seq<Row>)
    requires rows != [] && forall r | r in rows :: Storable(r.values)
    ensures forall r | r in rows[1..] :: r in rows
    ensures RowMessages(rows) == [ResultRow(rows[0].seqId, rows[0].values)] + RowMessages(rows[1..])
  {
    hide Storable, Encodable;
    assert forall r | r in rows[1..] :: r in rows;
    var a, b := RowMessages(rows), [ResultRow(rows[0].seqId, rows[0].values)] + RowMessages(rows[1..]);
    forall i | 0 <= i < |a| ensures a[i] == b[i] {
      assert i > 0 ==> rows[1..][i - 1] == rows[i];
    }
  }

  lemma RowRelayed(cfg: Config, t: Tracker, cs: seq<Column>, r: Row)
    requires Ready(cfg) && OwnStrategies(t, cfg.rules, cs) && |r.values| == |cs|
    ensures var m := MaskedRow(cfg, cs, r);
            RelayOne(cfg, t, ResultRow(r.seqId, r.values)) == (t, ResultRow(m.seqId, m.values))
  {
    hide SpansInOrder, OwnStrategies, MaskedRow, MaskRow;
    RowIsMasked(cfg, t, cs, r);
  }

  lemma {:induction false} RowsRelayed(cfg: Config, t: Tracker, cs: seq<Column>, rows: seq<Row>)
    requires Ready(cfg) && OwnStrategies(t, cfg.rules, cs)
    requires forall r | r in rows :: |r.values| == |cs| && Storable(r.values)
    requires forall r | r in MaskedRows(cfg, cs, rows) :: Storable(r.values)
    ensures Relay(cfg, t, RowMessages(rows)) == (t, RowMessages(MaskedRows(cfg, cs, rows)))
    decreases |rows|
  {
    hide OwnStrategies, Ready, Storable, MaskedRow, MaskRow, RelayOne;
    if rows != [] {
      var masked := MaskedRows(cfg, cs, rows);
      MaskedRowsSplit(cfg, cs, rows);
      var m, more := MaskedRow(cfg, cs, rows[0]), MaskedRows(cfg, cs, rows[1..]);
      hide MaskedRows;
      assert masked == [m] + more && masked[0] == m && masked[1..] == more;
      assert forall r | r in more :: r in masked;
      RowMessagesSplit(rows);
      RowMessagesSplit(masked);
      RowRelayed(cfg, t, cs, rows[0]);
      RowsRelayed(cfg, t, cs, rows[1..]);
      hide RowMessages;
      var first := ResultRow(rows[0].seqId, rows[0].values);
      assert ([first] + RowMessages(rows[1..]))[1..] == RowMessages(rows[1..]);
    }
  }

  lemma {:induction false} DefinitionsRelayed(cfg: Config, t: Tracker, ms: seq<Message>, cs: seq<Column>)
    requires Ready(cfg) && |cs| == |ms| && forall i :: 0 <= i < |ms| ==> ms[i].ColumnMsg?
    requires forall i :: 0 <= i < |ms| ==> cs[i] == MySqlNames(cfg.text, ms[i].column)
    ensures Relay(cfg, t, ms) == (AddColumns(t, cfg.rules, cs), ms)
    decreases |ms|
  {
    hide Ready, AddColumn, MySqlNames;
    if ms != [] {
      assert RelayOne(cfg, t, ms[0]) == (AddColumn(t, cfg.rules, cs[0]), ms[0]);
      hide RelayOne;
      DefinitionsRelayed(cfg, AddColumn(t, cfg.rules, cs[0]), ms[1..], cs[1..]);
      assert ms == [ms[0]] + ms[1..];
    }
  }

  lemma ColumnsRelayed(cfg: Config, t: Tracker, rs: ResultSet)
    requires Ready(cfg) && forall p | p in rs.columns :: ParseColumn(p.payload, p.seqId).Success?
    ensures Relay(cfg, t, ColumnMessages(rs.columns)) == (AddColumns(t, cfg.rules, ColumnsOf(cfg, rs)), ColumnMessages(rs.columns))
  {
    hide Ready, ParseColumn, Relay, AddColumns, MySqlNames;
    DefinitionsRelayed(cfg, t, ColumnMessages(rs.columns), ColumnsOf(cfg, rs));
  }

  lemma UntouchedRelayed(cfg: Config, t: Tracker, m: Message)
    requires Ready(cfg) && !m.ColumnMsg? && !m.ResultRow?
    ensures Relay(cfg, t, [m]) == (t, [m])
  {
    assert [m][1..] == [];
    assert Relay(cfg, t, []) == (t, []);
    assert [m] + [] == [m];
  }

  /** A result set masked by position in everything described since the reset. */
  function MaskedUnder(cfg: Config, before: seq<Column>, rs: ResultSet, deprecateEof: bool): (m: ResultSet)
    requires Ready(cfg) && WellFormed(rs, deprecateEof)
    ensures m == rs.(rows := m.rows) && |m.rows| == |rs.rows|
  {
    rs.(rows := MaskedRows(cfg, InForce(before, ColumnsOf(cfg, rs)), rs.rows))
  }

  /** Relaying a well-formed result set, with `before` described since the reset. */
  lemma ResultSetRelayed(cfg: Config, t: Tracker, before: seq<Column>, rs: ResultSet, flags: u32)
    requires Ready(cfg) && Tracks(t, cfg.rules, before) && WellFormed(rs, Has(flags, CLIENT_DEPRECATE_EOF))
    requires forall r | r in MaskedUnder(cfg, before, rs, Has(flags, CLIENT_DEPRECATE_EOF)).rows :: Storable(r.values)
    ensures var masked := MaskedUnder(cfg, before, rs, Has(flags, CLIENT_DEPRECATE_EOF));
            && WellFormed(masked, Has(flags, CLIENT_DEPRECATE_EOF))
            && Relay(cfg, t, Messages(rs, flags)) == (AddColumns(t, cfg.rules, ColumnsOf(cfg, rs)), Messages(masked, flags))
  {
    hide Ready, Has, ParseColumn, Relay, HeaderFor, IsTerminator, IsLegacyEof, Storable, ParseEof, ParseErr, Tracks, MaskedRow,
      OwnStrategies, Agree, InForce;
    var own := ColumnsOf(cfg, rs);
    var cs := InForce(before, own);
    var masked := rs.(rows := MaskedRows(cfg, cs, rs.rows));
    forall r | r in masked.rows ensures |r.values| == |cs| {
    }
    var now := AddColumns(t, cfg.rules, own);
    LaterResultSetAligned(t, cfg.rules, before, own);
    var m1 := [Generic(rs.header.seqId, rs.header.payload)];
    var m2 := m1 + ColumnMessages(rs.columns);
    var m3 := m2 + EofMessages(rs);
    var m4 := m3 + RowMessages(rs.rows);
    UntouchedRelayed(cfg, t, m1[0]);
    ColumnsRelayed(cfg, t, rs);
    RelayAppend(cfg, t, m1, ColumnMessages(rs.columns));
    EofRelayed(cfg, now, rs);
    RelayAppend(cfg, t, m2, EofMessages(rs));
    RowsRelayed(cfg, now, cs, rs.rows);
    RelayAppend(cfg, t, m3, RowMessages(rs.rows));
    UntouchedRelayed(cfg, now, TerminatorMessage(rs.terminator, flags));
    RelayAppend(cfg, t, m4, [TerminatorMessage(rs.terminator, flags)]);
  }

  /** Relaying one well-formed result set after a reset sends the client the
      same result set with every value masked under the first rule that matches
      its own column: again well formed, with the same columns and NULLs. */
  lemma ResultSetMasked(cfg: Config, rs: ResultSet, flags: u32)
    requires Ready(cfg) && WellFormed(rs, Has(flags, CLIENT_DEPRECATE_EOF))
    requires forall r | r in MaskedResultSet(cfg, rs, Has(flags, CLIENT_DEPRECATE_EOF)).rows :: Storable(r.values)
    ensures var masked := MaskedResultSet(cfg, rs, Has(flags, CLIENT_DEPRECATE_EOF));
            && WellFormed(masked, Has(flags, CLIENT_DEPRECATE_EOF))
            && Relay(cfg, NOTHING, Messages(rs, flags)).1 == Messages(masked, flags)
  {
    assert forall p | p in rs.columns :: ParseColumn(p.payload, p.seqId).Success?;
    hide Ready, Has, WellFormed, Relay, Messages, Storable, ParseColumn;
    TrackedAfterReset(cfg.rules, []);
    hide Tracks;
    FirstInForce(ColumnsOf(cfg, rs));
    ResultSetRelayed(cfg, NOTHING, [], rs, flags);
  }

  lemma FirstInForce(own: seq<Column>)
    ensures InForce([], own) == own
  {
    assert [] + own == own;
  }

  lemma EofRelayed(cfg: Config, t: Tracker, rs: ResultSet)
    requires Ready(cfg) && (rs.columnsEof.Some? ==> IsLegacyEof(rs.columnsEof.value.payload))
    ensures Relay(cfg, t, EofMessages(rs)) == (t, EofMessages(rs))
  {
    if rs.columnsEof.Some? {
      UntouchedRelayed(cfg, t, EofMessages(rs)[0]);
    }
  }

  /** The whole path, from the server's bytes to what the client decodes. The two
      legs need only agree on whether an EOF follows the columns. What the proxy
      reads is the result set; what it writes is, packet for packet, the masked
      one; the client decodes just that, is back in its command phase, and both
      sides go on with the bytes that follow. */
  lemma ClientSeesMaskedResultSet(cfg: Config, upstream: Codec, client: Codec, rs: ResultSet, more: bytes, tail: bytes)
    requires Ready(cfg)
    requires upstream.state.Command? && upstream.isClientSide && upstream.pending.None?
    requires client.state.Command? && client.isClientSide && client.pending.None?
    requires Has(upstream.capabilityFlags, CLIENT_DEPRECATE_EOF) == Has(client.capabilityFlags, CLIENT_DEPRECATE_EOF)
    requires WellFormed(rs, Has(client.capabilityFlags, CLIENT_DEPRECATE_EOF))
    requires forall r | r in MaskedResultSet(cfg, rs, Has(client.capabilityFlags, CLIENT_DEPRECATE_EOF)).rows ::
               Storable(r.values)
    ensures var masked := MaskedResultSet(cfg, rs, Has(client.capabilityFlags, CLIENT_DEPRECATE_EOF));
            var received := Messages(rs, upstream.capabilityFlags);
            var relayed := Relay(cfg, NOTHING, received).1;
            var nextUp := DecodeAll(upstream.(columnCount := |rs.columns|), more);
            var nextDown := DecodeAll(client.(columnCount := |rs.columns|), tail);
            && DecodeAll(upstream, Wire(Packets(rs)) + more) == nextUp.(messages := received + nextUp.messages)
            && (forall m | m in relayed :: Encodable(m))
            && WellFormed(masked, Has(client.capabilityFlags, CLIENT_DEPRECATE_EOF))
            && EncodeAll(relayed, client.capabilityFlags) == Wire(Packets(masked))
            && DecodeAll(client, Wire(Packets(masked)) + tail)
               == nextDown.(messages := Messages(masked, client.capabilityFlags) + nextDown.messages)
  {
    assert forall r | r in rs.rows :: Storable(r.values);
    hide Ready, WellFormed, Packets, Messages, DecodeAll, EncodeAll, Wire, Reads, Has, MaskedResultSet, Relay, Storable;
    var uf, cf := upstream.capabilityFlags, client.capabilityFlags;
    ResultSetMasked(cfg, rs, uf);
    var masked := MaskedResultSet(cfg, rs, Has(cf, CLIENT_DEPRECATE_EOF));
    var upAfter := upstream.(columnCount := |rs.columns|);
    var downAfter := client.(columnCount := |rs.columns|);
    ResultSetRead(upstream, rs);
    WireDecodes(upstream, Packets(rs), upAfter, Messages(rs, uf), more);
    ResultSetRead(upstream, masked);
    ReadsReencode(upstream, Packets(masked), upAfter, Messages(masked, uf), cf);
    ResultSetRead(client, masked);
    WireDecodes(client, Packets(masked), downAfter, Messages(masked, cf), tail);
  }
}
