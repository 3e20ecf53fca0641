/** Several result sets in answer to one query: the column map is not reset
    between them, so the later ones may be masked under the wrong columns. */
module LaterResultSets {
  import opened Wrappers
  import opened Bytes
  import opened MySqlPackets
  import opened MySqlCodec
  import opened ResultSets
  import opened Interceptor
  import opened Rules
  import opened Masking
  import opened MaskedResults
  import ProxyPackets
  import Text

  predicate AllWellFormed(replies: seq<Reply>, deprecateEof: bool) {
    forall r | r in replies :: WellFormedReply(r, deprecateEof)
  }

  /** The columns a reply describes. */
  function Described(cfg: Config, r: Reply, deprecateEof: bool): seq<Column>
    requires WellFormedReply(r, deprecateEof)
  {
    if r.Rows? then ColumnsOf(cfg, r.rs) else []
  }

  function AllDescribed(cfg: Config, replies: seq<Reply>, deprecateEof: bool): seq<Column>
    requires AllWellFormed(replies, deprecateEof)
    decreases |replies|
  {
    if replies == [] then []
    else
      assert replies[0] in replies && forall r | r in replies[1..] :: r in replies;
      Described(cfg, replies[0], deprecateEof) + AllDescribed(cfg, replies[1..], deprecateEof)
  }

  /** The replies as the proxy sends them on, when `before` were described since
      the reset: every row masked under the columns that have its positions. */
  function MaskedReplies(cfg: Config, before: seq<Column>, replies: seq<Reply>, deprecateEof: bool): (m: seq<Reply>)
    requires Ready(cfg) && AllWellFormed(replies, deprecateEof)
    ensures |m| == |replies|
    decreases |replies|
  {
    if replies == [] then []
    else
      assert replies[0] in replies && forall r | r in replies[1..] :: r in replies;
      [MaskedReply(cfg, before, replies[0], deprecateEof)]
      + MaskedReplies(cfg, before + Described(cfg, replies[0], deprecateEof), replies[1..], deprecateEof)
  }

  function MaskedReply(cfg: Config, before: seq<Column>, r: Reply, deprecateEof: bool): Reply
    requires Ready(cfg) && WellFormedReply(r, deprecateEof)
  {
    if r.Rows? then Rows(MaskedUnder(cfg, before, r.rs, deprecateEof)) else r
  }

  /** The replies as they should be sent on: every row masked under its own columns. */
  function RightReplies(cfg: Config, replies: seq<Reply>, deprecateEof: bool): (m: seq<Reply>)
    requires Ready(cfg) && AllWellFormed(replies, deprecateEof)
    ensures |m| == |replies|
    decreases |replies|
  {
    if replies == [] then []
    else
      assert replies[0] in replies && forall r | r in replies[1..] :: r in replies;
      [RightReply(cfg, replies[0], deprecateEof)] + RightReplies(cfg, replies[1..], deprecateEof)
  }

  function RightReply(cfg: Config, r: Reply, deprecateEof: bool): Reply
    requires Ready(cfg) && WellFormedReply(r, deprecateEof)
  {
    if r.Rows? then Rows(MaskedResultSet(cfg, r.rs, deprecateEof)) else r
  }

  /** The masked values still have lengths that can be written. */
  predicate FitsWhenMasked(r: Reply) {
    r.Rows? ==> forall row | row in r.rs.rows :: Storable(row.values)
  }

  // ---- What is sent on ----

  lemma ReplyRelayed(cfg: Config, t: Tracker, before: seq<Column>, r: Reply, flags: u32)
    requires Ready(cfg) && Tracks(t, cfg.rules, before) && WellFormedReply(r, Has(flags, CLIENT_DEPRECATE_EOF))
    requires FitsWhenMasked(MaskedReply(cfg, before, r, Has(flags, CLIENT_DEPRECATE_EOF)))
    ensures var d := Has(flags, CLIENT_DEPRECATE_EOF);
            var masked := MaskedReply(cfg, before, r, d);
            && WellFormedReply(masked, d)
            && Relay(cfg, t, ReplyMessages(r, flags)) == (AddColumns(t, cfg.rules, Described(cfg, r, d)), ReplyMessages(masked, flags))
  {
    hide Ready, WellFormed, Messages, Relay, Has, Tracks, Storable, MaskedUnder, AddColumn;
    match r
    case Rows(rs) => ResultSetRelayed(cfg, t, before, rs, flags);
    case Plain(p) => UntouchedRelayed(cfg, t, PlainMessage(p, flags));
  }

  lemma {:induction false} RepliesRelayed(cfg: Config, t: Tracker, before: seq<Column>, replies: seq<Reply>, flags: u32)
    requires Ready(cfg) && Tracks(t, cfg.rules, before) && AllWellFormed(replies, Has(flags, CLIENT_DEPRECATE_EOF))
    requires forall r | r in MaskedReplies(cfg, before, replies, Has(flags, CLIENT_DEPRECATE_EOF)) :: FitsWhenMasked(r)
    ensures var masked := MaskedReplies(cfg, before, replies, Has(flags, CLIENT_DEPRECATE_EOF));
            && AllWellFormed(masked, Has(flags, CLIENT_DEPRECATE_EOF))
            && Relay(cfg, t, AllMessages(replies, flags)).1 == AllMessages(masked, flags)
            && Tracks(Relay(cfg, t, AllMessages(replies, flags)).0, cfg.rules,
                      before + AllDescribed(cfg, replies, Has(flags, CLIENT_DEPRECATE_EOF)))
    decreases |replies|
  {
    hide Ready, WellFormedReply, ReplyMessages, Relay, Has, Tracks, FitsWhenMasked, MaskedReply, Described;
    var d := Has(flags, CLIENT_DEPRECATE_EOF);
    if replies == [] {
      RelayNothing(cfg, t);
      assert before + [] == before;
    } else {
      var r, rest := replies[0], replies[1..];
      assert r in replies && forall q | q in rest :: q in replies;
      var own := Described(cfg, r, d);
      var later := AllDescribed(cfg, rest, d);
      var masked := MaskedReplies(cfg, before, replies, d);
      var first := MaskedReply(cfg, before, r, d);
      assert masked[0] == first && masked[1..] == MaskedReplies(cfg, before + own, rest, d);
      assert masked[0] in masked && forall q | q in masked[1..] :: q in masked;
      ReplyRelayed(cfg, t, before, r, flags);
      ColumnsTracked(t, cfg.rules, before, own);
      var now := AddColumns(t, cfg.rules, own);
      RepliesRelayed(cfg, now, before + own, rest, flags);
      RelayAppend(cfg, t, ReplyMessages(r, flags), AllMessages(rest, flags));
      Text.Associative(before, own, later);
      assert forall q | q in masked :: q == first || q in masked[1..];
    }
  }

  lemma RelayNothing(cfg: Config, t: Tracker)
    requires Ready(cfg)
    ensures Relay(cfg, t, []) == (t, [])
  {
  }

  /** The whole answer to a query, from the server's bytes to what the client
      decodes, for any number of result sets and other replies: exactly the
      replies masked by position, and the following bytes untouched. */
  lemma ClientSeesMaskedReplies(cfg: Config, upstream: Codec, client: Codec, replies: seq<Reply>, more: bytes, tail: bytes)
    requires Ready(cfg)
    requires upstream.state.Command? && upstream.isClientSide && upstream.pending.None?
    requires client.state.Command? && client.isClientSide && client.pending.None?
    requires Has(upstream.capabilityFlags, CLIENT_DEPRECATE_EOF) == Has(client.capabilityFlags, CLIENT_DEPRECATE_EOF)
    requires AllWellFormed(replies, Has(client.capabilityFlags, CLIENT_DEPRECATE_EOF))
    requires forall r | r in MaskedReplies(cfg, [], replies, Has(client.capabilityFlags, CLIENT_DEPRECATE_EOF)) :: FitsWhenMasked(r)
    ensures var d := Has(client.capabilityFlags, CLIENT_DEPRECATE_EOF);
            var masked := MaskedReplies(cfg, [], replies, d);
            var received := AllMessages(replies, upstream.capabilityFlags);
            var relayed := Relay(cfg, NOTHING, received).1;
            var nextUp := DecodeAll(AfterReplies(upstream, replies), more);
            var nextDown := DecodeAll(AfterReplies(client, masked), tail);
            && DecodeAll(upstream, Wire(AllPackets(replies, d)) + more) == nextUp.(messages := received + nextUp.messages)
            && AllWellFormed(masked, d)
            && (forall m | m in relayed :: Encodable(m))
            && EncodeAll(relayed, client.capabilityFlags) == Wire(AllPackets(masked, d))
            && DecodeAll(client, Wire(AllPackets(masked, d)) + tail)
               == nextDown.(messages := AllMessages(masked, client.capabilityFlags) + nextDown.messages)
  {
    hide Ready, WellFormedReply, DecodeAll, EncodeAll, Wire, Has, MaskedReplies, Relay, FitsWhenMasked, AllPackets, AllMessages, AfterReplies;
    var uf, cf := upstream.capabilityFlags, client.capabilityFlags;
    NothingTracked(cfg.rules);
    hide Tracks;
    RepliesRelayed(cfg, NOTHING, [], replies, uf);
    var masked := MaskedReplies(cfg, [], replies, Has(cf, CLIENT_DEPRECATE_EOF));
    CommandPhase(upstream, replies, cf, more);
    CommandPhase(upstream, masked, cf, []);
    CommandPhase(client, masked, cf, tail);
  }

  /** The same when nothing follows: the client decodes the masked replies. */
  lemma ClientDecodesMaskedReplies(cfg: Config, upstream: Codec, client: Codec, replies: seq<Reply>, d: bool)
    requires Ready(cfg)
    requires upstream.state.Command? && upstream.isClientSide && upstream.pending.None?
    requires client.state.Command? && client.isClientSide && client.pending.None?
    requires d == Has(upstream.capabilityFlags, CLIENT_DEPRECATE_EOF) == Has(client.capabilityFlags, CLIENT_DEPRECATE_EOF)
    requires AllWellFormed(replies, d)
    requires forall r | r in MaskedReplies(cfg, [], replies, d) :: FitsWhenMasked(r)
    ensures var masked := MaskedReplies(cfg, [], replies, d);
            var relayed := Relay(cfg, NOTHING, DecodeAll(upstream, Wire(AllPackets(replies, d))).messages).1;
            && AllWellFormed(masked, d)
            && (forall m | m in relayed :: Encodable(m))
            && DecodeAll(client, EncodeAll(relayed, client.capabilityFlags)).messages == AllMessages(masked, client.capabilityFlags)
  {
    hide Ready, WellFormedReply, DecodeAll, EncodeAll, Wire, Has, MaskedReplies, Relay, FitsWhenMasked, AllPackets, AllMessages, AfterReplies;
    ClientSeesMaskedReplies(cfg, upstream, client, replies, [], []);
    var masked := MaskedReplies(cfg, [], replies, d);
    NothingLeft(AfterReplies(upstream, replies));
    NothingLeft(AfterReplies(client, masked));
    var w, v := Wire(AllPackets(replies, d)), Wire(AllPackets(masked, d));
    assert w + [] == w && v + [] == v;
    var received, sent := AllMessages(replies, upstream.capabilityFlags), AllMessages(masked, client.capabilityFlags);
    assert received + [] == received && sent + [] == sent;
  }

  lemma NothingLeft(c: Codec)
    ensures DecodeAll(c, []).messages == []
  {
  }

  lemma NothingTracked(rules: seq<Rule>)
    ensures Tracks(NOTHING, rules, [])
  {
  }

  // ---- When that is right ----

  /** As the rows of each result set arrive, the map has for each position the
      strategy of the first rule that matches the result set's own column. */
  predicate RightlyTracked(cfg: Config, t: Tracker, replies: seq<Reply>, deprecateEof: bool)
    requires AllWellFormed(replies, deprecateEof)
    decreases |replies|
  {
    replies == [] ||
    (assert replies[0] in replies && forall r | r in replies[1..] :: r in replies;
     var own := Described(cfg, replies[0], deprecateEof);
     var now := AddColumns(t, cfg.rules, own);
     OwnStrategies(now, cfg.rules, own) && RightlyTracked(cfg, now, replies[1..], deprecateEof))
  }

  /** Each result set's columns have the same strategies as the columns that were
      described at their positions, counting from the reset. */
  predicate Aligned(cfg: Config, before: seq<Column>, replies: seq<Reply>, deprecateEof: bool)
    requires AllWellFormed(replies, deprecateEof)
    decreases |replies|
  {
    replies == [] ||
    (assert replies[0] in replies && forall r | r in replies[1..] :: r in replies;
     var own := Described(cfg, replies[0], deprecateEof);
     Agree(cfg.rules, InForce(before, own), own) && Aligned(cfg, before + own, replies[1..], deprecateEof))
  }

  /** The strategies are right throughout if and only if the result sets align. */
  lemma {:induction false} RightlyTrackedExactly(cfg: Config, t: Tracker, before: seq<Column>, replies: seq<Reply>, deprecateEof: bool)
    requires Tracks(t, cfg.rules, before) && AllWellFormed(replies, deprecateEof)
    ensures RightlyTracked(cfg, t, replies, deprecateEof) <==> Aligned(cfg, before, replies, deprecateEof)
    decreases |replies|
  {
    hide WellFormedReply, Described, Tracks, OwnStrategies, Agree, InForce, AddColumn;
    if replies != [] {
      assert replies[0] in replies && forall r | r in replies[1..] :: r in replies;
      var own := Described(cfg, replies[0], deprecateEof);
      LaterResultSetAligned(t, cfg.rules, before, own);
      RightlyTrackedExactly(cfg, AddColumns(t, cfg.rules, own), before + own, replies[1..], deprecateEof);
    }
  }

  /** If they align, what is sent on is what should be: every value masked under
      the first rule that matches its own column. */
  lemma {:induction false} AlignedIsRight(cfg: Config, before: seq<Column>, replies: seq<Reply>, deprecateEof: bool)
    requires Ready(cfg) && AllWellFormed(replies, deprecateEof) && Aligned(cfg, before, replies, deprecateEof)
    ensures MaskedReplies(cfg, before, replies, deprecateEof) == RightReplies(cfg, replies, deprecateEof)
    decreases |replies|
  {
    hide Ready, WellFormedReply, InForce, Agree, Described, MaskedReply, RightReply;
    if replies != [] {
      assert replies[0] in replies && forall r | r in replies[1..] :: r in replies;
      var own := Described(cfg, replies[0], deprecateEof);
      AlignedIsRight(cfg, before + own, replies[1..], deprecateEof);
      AlignedReplyIsRight(cfg, before, replies[0], deprecateEof);
    }
  }

  lemma AlignedReplyIsRight(cfg: Config, before: seq<Column>, r: Reply, deprecateEof: bool)
    requires Ready(cfg) && WellFormedReply(r, deprecateEof)
    requires var own := Described(cfg, r, deprecateEof); Agree(cfg.rules, InForce(before, own), own)
    ensures MaskedReply(cfg, before, r, deprecateEof) == RightReply(cfg, r, deprecateEof)
  {
    hide Ready, InForce, Agree, MaskedRows, ColumnsOf, HeaderFor, IsTerminator, IsLegacyEof, Storable;
    if r.Rows? {
      AgreeMasksAlike(cfg, InForce(before, ColumnsOf(cfg, r.rs)), ColumnsOf(cfg, r.rs), r.rs.rows);
    }
  }

  lemma AgreeMasksAlike(cfg: Config, cs: seq<Column>, ds: seq<Column>, rows: seq<Row>)
    requires Ready(cfg) && Agree(cfg.rules, cs, ds) && forall r | r in rows :: |r.values| == |ds|
    ensures MaskedRows(cfg, cs, rows) == MaskedRows(cfg, ds, rows)
  {
    hide Ready, FirstMatch, MaskValue;
    forall k | 0 <= k < |rows| ensures MaskedRows(cfg, cs, rows)[k] == MaskedRows(cfg, ds, rows)[k] {
      assert rows[k] in rows;
      var a, b := MaskedRow(cfg, cs, rows[k]).values, MaskedRow(cfg, ds, rows[k]).values;
      assert forall i | 0 <= i < |ds| :: a[i] == b[i];
    }
  }

  // ---- An input on which it is not ----

  function Named(name: bytes): ColumnDefinition {
    ColumnDefinition(2, [], [], [], [], name, [], 33, 40, 0xfd, 0, 0, [])
  }

  /** A result set with a single column, as a server sends it. */
  function OneColumn(name: bytes, rows: seq<Row>): ResultSet
    requires |name| < U64_LIMIT
  {
    ResultSet(Packet(1, [1]), [Packet(2, ColumnPayload(Named(name)))], None, rows, Packet(4, [0xfe]))
  }

  lemma OneColumnWellFormed(cfg: Config, name: bytes, rows: seq<Row>)
    requires |name| < U64_LIMIT && forall r | r in rows :: |r.values| == 1 && Storable(r.values)
    ensures WellFormed(OneColumn(name, rows), true)
    ensures ColumnsOf(cfg, OneColumn(name, rows)) == [MySqlNames(cfg.text, Named(name))]
  {
    hide ColumnPayload, ParseColumn, Storable;
    ProxyPackets.BuiltColumnReads(Named(name));
  }

  /** The single rule of the example: e-mail addresses are hashed. */
  const EMAIL_RULE: Rule := Rule(None, "email", "hash")

  function Ids(id: bytes): Reply
    requires |id| < U64_LIMIT
  {
    Rows(OneColumn(id, []))
  }

  function Addresses(email: bytes, value: bytes): Reply
    requires |email| < U64_LIMIT
  {
    Rows(OneColumn(email, [Row(3, [Some(value)])]))
  }

  /** Bytes that decode to the two column names. */
  predicate AreNames(text: bytes -> string, id: bytes, email: bytes) {
    |id| < U64_LIMIT && |email| < U64_LIMIT && text([]) == "" && text(id) == "id" && text(email) == "email"
  }

  lemma NamesInExample(cfg: Config, id: bytes, email: bytes)
    requires AreNames(cfg.text, id, email)
    ensures FirstMatch([EMAIL_RULE], MySqlNames(cfg.text, Named(id))) == None
    ensures FirstMatch([EMAIL_RULE], MySqlNames(cfg.text, Named(email))) == Some("hash")
  {
    assert [EMAIL_RULE][1..] == [];
    LowerNames();
    hide Text.Normalize;
    assert |"id"| == 2 && |"email"| == 5;
  }

  lemma LowerNames()
    ensures Text.Normalize("id") == "id" && Text.Normalize("email") == "email" && Text.Normalize("") == ""
  {
    assert Text.ToAsciiLower("id") == "id" && Text.ToAsciiLower("email") == "email";
  }

  lemma AnswerWellFormed(cfg: Config, id: bytes, email: bytes, value: bytes)
    requires |id| < U64_LIMIT && |email| < U64_LIMIT && |value| < U64_LIMIT
    ensures WellFormedReply(Ids(id), true)
    ensures WellFormedReply(Addresses(email, value), true)
    ensures Described(cfg, Ids(id), true) == [MySqlNames(cfg.text, Named(id))]
    ensures Described(cfg, Addresses(email, value), true) == [MySqlNames(cfg.text, Named(email))]
  {
    hide WellFormed, ColumnsOf, MySqlNames, OneColumn;
    assert Storable([Some(value)]);
    OneColumnWellFormed(cfg, id, []);
    OneColumnWellFormed(cfg, email, [Row(3, [Some(value)])]);
  }

  lemma OneRow(cfg: Config, c: Column, seqId: byte, value: bytes)
    requires Ready(cfg) && cfg.env.maskingEnabled && !cfg.env.heuristicsEnabled
    ensures FirstMatch(cfg.rules, c) == None ==>
              MaskedRows(cfg, [c], [Row(seqId, [Some(value)])]) == [Row(seqId, [Some(value)])]
    ensures FirstMatch(cfg.rules, c) == Some("hash") ==>
              MaskedRows(cfg, [c], [Row(seqId, [Some(value)])]) == [Row(seqId, [Some(cfg.env.encode(cfg.env.hash(value)))])]
  {
    hide Ready, FirstMatch;
    var r := Row(seqId, [Some(value)]);
    assert MaskedRow(cfg, [c], r).values == [MaskedValue(cfg, c, Some(value))];
    assert MaskedRows(cfg, [c], [r]) == [MaskedRow(cfg, [c], r)];
  }

  lemma AnswerMasked(cfg: Config, id: bytes, email: bytes, value: bytes)
    requires Ready(cfg) && |id| < U64_LIMIT && |email| < U64_LIMIT && cfg.env.maskingEnabled && !cfg.env.heuristicsEnabled
    requires WellFormedReply(Ids(id), true)
    requires WellFormedReply(Addresses(email, value), true)
    requires |Described(cfg, Ids(id), true)| == 1 && FirstMatch(cfg.rules, Described(cfg, Ids(id), true)[0]) == None
    requires |Described(cfg, Addresses(email, value), true)| == 1
    requires FirstMatch(cfg.rules, Described(cfg, Addresses(email, value), true)[0]) == Some("hash")
    ensures MaskedReply(cfg, [], Ids(id), true) == Ids(id)
    ensures MaskedReply(cfg, Described(cfg, Ids(id), true), Addresses(email, value), true) == Addresses(email, value)
    ensures RightReply(cfg, Addresses(email, value), true).rs.rows == [Row(3, [Some(cfg.env.encode(cfg.env.hash(value)))])]
  {
    hide Ready, FirstMatch, WellFormed, ColumnsOf, ColumnPayload, MaskedRow;
    var c, d := Described(cfg, Ids(id), true), Described(cfg, Addresses(email, value), true);
    assert c == [c[0]] && d == [d[0]] && [] + c == c;
    assert InForce([], c) == c && InForce(c, d) == c;
    OneRow(cfg, c[0], 3, value);
    OneRow(cfg, d[0], 3, value);
    assert MaskedRows(cfg, c, []) == [];
  }

  lemma TwoReplies(cfg: Config, a: Reply, b: Reply, deprecateEof: bool)
    requires Ready(cfg) && WellFormedReply(a, deprecateEof) && WellFormedReply(b, deprecateEof)
    ensures AllWellFormed([a, b], deprecateEof)
    ensures MaskedReplies(cfg, [], [a, b], deprecateEof)
            == [MaskedReply(cfg, [], a, deprecateEof), MaskedReply(cfg, Described(cfg, a, deprecateEof), b, deprecateEof)]
  {
    hide Ready, WellFormedReply, MaskedReply, Described;
    var own := Described(cfg, a, deprecateEof);
    assert [a, b][1..] == [b] && [b][1..] == [] && [] + own == own;
    assert MaskedReplies(cfg, own, [b], deprecateEof) == [MaskedReply(cfg, own, b, deprecateEof)];
  }

  /** A rule hashes e-mail addresses; a query answered with a result set of ids
      and then one of addresses sends the addresses on as they are. */
  lemma LaterColumnExposed(cfg: Config, id: bytes, email: bytes, value: bytes, flags: u32)
    requires Ready(cfg) && cfg.rules == [EMAIL_RULE] && cfg.env.maskingEnabled && !cfg.env.heuristicsEnabled
    requires AreNames(cfg.text, id, email) && |value| < U64_LIMIT && Has(flags, CLIENT_DEPRECATE_EOF)
    ensures AllWellFormed([Ids(id), Addresses(email, value)], true)
    ensures Relay(cfg, NOTHING, AllMessages([Ids(id), Addresses(email, value)], flags)).1 == AllMessages([Ids(id), Addresses(email, value)], flags)
    ensures WellFormedReply(Addresses(email, value), true)
    ensures RightReply(cfg, Addresses(email, value), true).rs.rows == [Row(3, [Some(cfg.env.encode(cfg.env.hash(value)))])]
  {
    hide Ready, WellFormedReply, Has, Relay, AllMessages, MaskedReplies, RightReply, MaskedReply, MySqlNames, FirstMatch,
      FitsWhenMasked, Described, Ids, Addresses, Named;
    AnswerWellFormed(cfg, id, email, value);
    NamesInExample(cfg, id, email);
    AnswerMasked(cfg, id, email, value);
    TwoReplies(cfg, Ids(id), Addresses(email, value), true);
    AnswerFits(id, email, value);
    NothingTracked(cfg.rules);
    hide Tracks;
    RepliesRelayed(cfg, NOTHING, [], [Ids(id), Addresses(email, value)], flags);
  }

  lemma AnswerFits(id: bytes, email: bytes, value: bytes)
    requires |id| < U64_LIMIT && |email| < U64_LIMIT && |value| < U64_LIMIT
    ensures FitsWhenMasked(Ids(id)) && FitsWhenMasked(Addresses(email, value))
  {
    hide ColumnPayload;
    assert Storable([Some(value)]);
  }
}
