/** What the server sends in reply to commands, and what the upstream-facing
    codec makes of it (section "Text Resultset" of the MySQL Client/Server
    Protocol). */
module ResultSets {
  import opened Wrappers
  import opened Bytes
  import opened Framing
  import opened MySqlPackets
  import opened MySqlCodec
  import opened MySqlStreams
  import Lenenc

  /** One payload with the sequence id of its first packet. */
  datatype Packet = Packet(seqId: byte, payload: bytes)

  datatype Row = Row(seqId: byte, values: Values)

  datatype ResultSet = ResultSet(
    header: Packet, columns: seq<Packet>, columnsEof: Option<Packet>, rows: seq<Row>, terminator: Packet)

  /** The canonical bytes of a run of packets. */
  function Wire(packets: seq<Packet>): bytes {
    if packets == [] then [] else Chunked(packets[0].payload, packets[0].seqId) + Wire(packets[1..])
  }

  function EncodeAll(messages: seq<Message>, flags: u32): bytes
    requires forall m | m in messages :: Encodable(m)
  {
    if messages == [] then [] else Encode(messages[0], flags) + EncodeAll(messages[1..], flags)
  }

  /** Writing the message gives back the packet it was read from. */
  predicate Faithful(p: Packet, m: Message) {
    Forwarded(m) || (m.ResultRow? && m.seqId == p.seqId && Storable(m.values) && p.payload == RowPayload(m.values))
  }

  /** From `c`, the packets are read as exactly these messages, each of which
      writes back as its packet, leaving `d`. */
  ghost predicate Reads(c: Codec, packets: seq<Packet>, d: Codec, messages: seq<Message>)
    decreases |packets|
  {
    if packets == [] then d == c && messages == []
    else
      var p := packets[0];
      var (next, r) := Dispatch(c, p.seqId, p.payload, |p.payload| >= M);
      && messages != [] && r == Success(messages[0]) && Faithful(p, messages[0])
      && Reads(next, packets[1..], d, messages[1..])
  }

  lemma {:induction false} ReadsAppend(
    c: Codec, p: seq<Packet>, d: Codec, m: seq<Message>, q: seq<Packet>, e: Codec, n: seq<Message>)
    requires Reads(c, p, d, m) && Reads(d, q, e, n)
    ensures Reads(c, p + q, e, m + n)
    decreases |p|
  {
    hide Dispatch, Faithful;
    if p == [] {
      assert p + q == q && m + n == n;
    } else {
      var next := Dispatch(c, p[0].seqId, p[0].payload, |p[0].payload| >= M).0;
      ReadsAppend(next, p[1..], d, m[1..], q, e, n);
      assert (p + q)[1..] == p[1..] + q && (m + n)[1..] == m[1..] + n;
    }
  }

  lemma ReadsOne(c: Codec, p: Packet, d: Codec, m: Message)
    requires Dispatch(c, p.seqId, p.payload, |p.payload| >= M) == (d, Success(m)) && Faithful(p, m)
    ensures Reads(c, [p], d, [m])
  {
    hide Dispatch, Faithful;
    assert [p][1..] == [] && [m][1..] == [];
    assert Reads(d, [], d, []);
  }

  /** Decoding the wire form of packets yields their messages and continues
      with whatever follows. */
  lemma {:induction false} WireDecodes(c: Codec, packets: seq<Packet>, d: Codec, messages: seq<Message>, tail: bytes)
    requires c.pending.None? && Reads(c, packets, d, messages)
    ensures DecodeAll(c, Wire(packets) + tail)
            == var more := DecodeAll(d, tail); more.(messages := messages + more.messages)
    decreases |packets|
  {
    hide Dispatch, DecodeAll, Chunked;
    var more := DecodeAll(d, tail);
    if packets == [] {
      assert Wire(packets) + tail == tail && messages + more.messages == more.messages;
    } else {
      var p := packets[0];
      var rest := Wire(packets[1..]) + tail;
      Reassembles(c, p.payload, p.seqId, rest);
      assert Wire(packets) + tail == Chunked(p.payload, p.seqId) + rest;
      WireDecodes(Dispatch(c, p.seqId, p.payload, |p.payload| >= M).0, packets[1..], d, messages[1..], tail);
      assert messages + more.messages == [messages[0]] + (messages[1..] + more.messages);
    }
  }

  /** Whatever was read so is written back byte for byte. */
  lemma {:induction false} ReadsReencode(c: Codec, packets: seq<Packet>, d: Codec, messages: seq<Message>, flags: u32)
    requires Reads(c, packets, d, messages)
    ensures forall m | m in messages :: Encodable(m)
    ensures EncodeAll(messages, flags) == Wire(packets)
    decreases |packets|
  {
    hide Dispatch, Chunked, RowPayload;
    if packets != [] {
      var p := packets[0];
      ForwardedVerbatim(c, p.seqId, p.payload, |p.payload| >= M, flags);
      ReadsReencode(Dispatch(c, p.seqId, p.payload, |p.payload| >= M).0, packets[1..], d, messages[1..], flags);
      assert forall m | m in messages :: m == messages[0] || m in messages[1..];
    }
  }

  // ---- Well-formed replies ----

  predicate HeaderFor(payload: bytes, count: nat) {
    && payload != [] && payload[0] !in {0, 0xff, 0xfe}
    && Lenenc.Read(payload).Success? && Lenenc.Read(payload).value.0 == count
  }

  predicate IsTerminator(payload: bytes) {
    payload != [] && ((payload[0] == 0xfe && |payload| < M) || payload[0] == 0xff)
  }

  predicate IsLegacyEof(payload: bytes) {
    1 <= |payload| < 9 && payload[0] == 0xfe
  }

  predicate WellFormed(rs: ResultSet, deprecateEof: bool) {
    var n := |rs.columns|;
    && 0 < n < 4096
    && HeaderFor(rs.header.payload, n)
    && (forall p | p in rs.columns :: ParseColumn(p.payload, p.seqId).Success?)
    && (rs.columnsEof.None? <==> deprecateEof)
    && (rs.columnsEof.Some? ==> IsLegacyEof(rs.columnsEof.value.payload))
    && (forall r | r in rs.rows :: |r.values| == n && Storable(r.values))
    && IsTerminator(rs.terminator.payload)
  }

  function Eof(rs: ResultSet): seq<Packet> {
    if rs.columnsEof.Some? then [rs.columnsEof.value] else []
  }

  function RowPackets(rows: seq<Row>): seq<Packet>
    requires forall r | r in rows :: Storable(r.values)
  {
    seq(|rows|, i requires 0 <= i < |rows| => assert rows[i] in rows; Packet(rows[i].seqId, RowPayload(rows[i].values)))
  }

  function Packets(rs: ResultSet): seq<Packet>
    requires forall r | r in rs.rows :: Storable(r.values)
  {
    [rs.header] + rs.columns + Eof(rs) + RowPackets(rs.rows) + [rs.terminator]
  }

  function ColumnMessages(columns: seq<Packet>): (ms: seq<Message>)
    requires forall p | p in columns :: ParseColumn(p.payload, p.seqId).Success?
    ensures forall m | m in ms :: m.ColumnMsg? && Encodable(m)
  {
    seq(|columns|, i requires 0 <= i < |columns| =>
      assert columns[i] in columns; ColumnMsg(ParseColumn(columns[i].payload, columns[i].seqId).value))
  }

  function EofMessages(rs: ResultSet): (ms: seq<Message>)
    requires rs.columnsEof.Some? ==> IsLegacyEof(rs.columnsEof.value.payload)
    ensures forall m | m in ms :: Encodable(m)
  {
    if rs.columnsEof.Some? then [EofMsg(ParseEof(rs.columnsEof.value.payload, rs.columnsEof.value.seqId).value)] else []
  }

  function RowMessages(rows: seq<Row>): (ms: seq<Message>)
    requires forall r | r in rows :: Storable(r.values)
    ensures forall m | m in ms :: m.ResultRow? && Encodable(m)
  {
    seq(|rows|, i requires 0 <= i < |rows| => assert rows[i] in rows; ResultRow(rows[i].seqId, rows[i].values))
  }

  /** The terminator is not parsed; an ERR packet in its place is, if it can be. */
  function TerminatorMessage(t: Packet, flags: u32): (m: Message)
    requires IsTerminator(t.payload)
    ensures Encodable(m)
  {
    var err := ParseErr(t.payload, t.seqId, flags);
    if t.payload[0] == 0xff && err.Success? then ErrMsg(err.value) else Generic(t.seqId, t.payload)
  }

  /** A result set as the messages it must come out as. */
  function Messages(rs: ResultSet, flags: u32): (ms: seq<Message>)
    requires WellFormed(rs, Has(flags, CLIENT_DEPRECATE_EOF))
    ensures forall m | m in ms :: Encodable(m)
  {
    assert Encodable(Generic(rs.header.seqId, rs.header.payload));
    hide Has, HeaderFor, ParseColumn, IsLegacyEof, IsTerminator, Storable, Encodable, ColumnMessages, EofMessages, RowMessages,
      TerminatorMessage;
    [Generic(rs.header.seqId, rs.header.payload)] + ColumnMessages(rs.columns) + EofMessages(rs)
    + RowMessages(rs.rows) + [TerminatorMessage(rs.terminator, flags)]
  }

  // ---- Reading a result set ----

  lemma {:induction false} ColumnsRead(c: Codec, columns: seq<Packet>, d: Codec)
    requires columns != [] && c.state == ReadingColumns(|columns|)
    requires forall p | p in columns :: ParseColumn(p.payload, p.seqId).Success?
    requires d == c.(state := if c.UsesDeprecateEof() then ReadingRows else ReadingColumns(1))
    ensures Reads(c, columns, d, ColumnMessages(columns))
    decreases |columns|
  {
    hide ParseColumn, Has;
    var p := columns[0];
    var ms := ColumnMessages(columns);
    assert p in columns;
    assert Dispatch(c, p.seqId, p.payload, |p.payload| >= M).1 == Success(ms[0]);
    if |columns| == 1 {
      assert columns == [p] && ms == [ms[0]];
      ReadsOne(c, p, d, ms[0]);
    } else {
      var rest := columns[1..];
      assert forall q | q in rest :: q in columns;
      ColumnsRead(c.(state := ReadingColumns(|rest|)), rest, d);
      assert ms[1..] == ColumnMessages(rest);
    }
  }

  lemma {:induction false} RowsRead(c: Codec, rows: seq<Row>)
    requires c.state.ReadingRows? && c.columnCount > 0
    requires forall r | r in rows :: |r.values| == c.columnCount && Storable(r.values)
    ensures Reads(c, RowPackets(rows), c, RowMessages(rows))
    decreases |rows|
  {
    hide Dispatch, RowPayload;
    if rows != [] {
      var rest := rows[1..];
      assert rows[0] in rows && forall r | r in rest :: r in rows;
      RowDispatches(c, rows[0].seqId, rows[0].values);
      RowsRead(c, rest);
      assert RowPackets(rows)[1..] == RowPackets(rest) && RowMessages(rows)[1..] == RowMessages(rest);
    }
  }

  lemma HeaderRead(c: Codec, header: Packet, count: nat)
    requires c.state.Command? && c.isClientSide && 0 < count < 4096 && HeaderFor(header.payload, count)
    ensures Reads(c, [header], c.(columnCount := count, state := ReadingColumns(count)),
                  [Generic(header.seqId, header.payload)])
  {
    HeaderTakenUp(c, header, count, |header.payload| >= M);
    hide Dispatch, HeaderFor;
    ReadsOne(c, header, c.(columnCount := count, state := ReadingColumns(count)), Generic(header.seqId, header.payload));
  }

  /** The count in a header decides what the codec waits for: it is taken up if and
      only if it is between 1 and 4095. Otherwise the header is passed on as it is
      and the codec stays where it was. */
  lemma HeaderTakenUp(c: Codec, header: Packet, count: nat, assembled: bool)
    requires c.state.Command? && c.isClientSide && HeaderFor(header.payload, count)
    ensures Dispatch(c, header.seqId, header.payload, assembled) ==
            (if 0 < count < 4096 then c.(columnCount := count, state := ReadingColumns(count)) else c,
             Success(Generic(header.seqId, header.payload)))
    ensures Dispatch(c, header.seqId, header.payload, assembled).0 != c <==> 0 < count < 4096
  {
    hide Lenenc.Read, ParseOk, ParseErr, ParseEof;
  }

  /** So after a header of 4096 columns or more the first column definition, whose
      catalog is always `def`, is itself read as the header of three columns. */
  lemma WideResultSetMisread(c: Codec, header: Packet, count: nat, column: Packet)
    requires c.state.Command? && c.isClientSide && HeaderFor(header.payload, count) && count >= 4096
    requires |column.payload| >= 4 && column.payload[..4] == [3, 0x64, 0x65, 0x66]
    ensures Reads(c, [header, column], c.(columnCount := 3, state := ReadingColumns(3)),
                  [Generic(header.seqId, header.payload), Generic(column.seqId, column.payload)])
  {
    HeaderTakenUp(c, header, count, |header.payload| >= M);
    assert column.payload[0] == column.payload[..4][0] == 3;
    assert HeaderFor(column.payload, 3);
    HeaderTakenUp(c, column, 3, |column.payload| >= M);
    hide Dispatch, HeaderFor, Reads;
    ReadsOne(c, header, c, Generic(header.seqId, header.payload));
    ReadsOne(c, column, c.(columnCount := 3, state := ReadingColumns(3)), Generic(column.seqId, column.payload));
    ReadsAppend(c, [header], c, [Generic(header.seqId, header.payload)], [column],
                c.(columnCount := 3, state := ReadingColumns(3)), [Generic(column.seqId, column.payload)]);
    assert [header] + [column] == [header, column];
  }

  /** With CLIENT_OPTIONAL_RESULTSET_METADATA the header starts with a byte that
      says whether column definitions follow, and that byte is read as the count:
      when they follow, one column is expected, whatever the count, so the header
      is read right if and only if the result set has one column. */
  lemma MetadataFlagIsCount(c: Codec, seqId: byte, count: nat, assembled: bool)
    requires c.state.Command? && c.isClientSide && count < U64_LIMIT
    ensures Dispatch(c, seqId, [1] + Lenenc.Write(count), assembled)
            == (c.(columnCount := 1, state := ReadingColumns(1)), Success(Generic(seqId, [1] + Lenenc.Write(count))))
    ensures count == 1 <==>
            Dispatch(c, seqId, [1] + Lenenc.Write(count), assembled).0 == c.(columnCount := count, state := ReadingColumns(count))
  {
    hide Lenenc.Write;
    var p := [1] + Lenenc.Write(count);
    assert p[0] == 1 && HeaderFor(p, 1);
    HeaderTakenUp(c, Packet(seqId, p), 1, assembled);
    hide Dispatch;
  }

  /** With CLIENT_DEPRECATE_EOF the second column definition of such a result set is
      then read as a row with one value, and all but that value is lost: what is
      written in its place holds the catalog name alone. */
  lemma SecondColumnReadAsRow(c: Codec, seqId: byte, count: nat, first: Packet, second: Packet, flags: u32)
    requires c.state.Command? && c.isClientSide && c.UsesDeprecateEof() && count < U64_LIMIT
    requires ParseColumn(first.payload, first.seqId).Success?
    requires 4 <= |second.payload| < M && second.payload[..4] == [3, 0x64, 0x65, 0x66]
    ensures var c1 := Dispatch(c, seqId, [1] + Lenenc.Write(count), false).0;
            var c2 := Dispatch(c1, first.seqId, first.payload, |first.payload| >= M).0;
            var r := Dispatch(c2, second.seqId, second.payload, false).1;
            && r == Success(ResultRow(second.seqId, [Some([0x64, 0x65, 0x66])]))
            && Encode(r.value, flags) == Chunked([3, 0x64, 0x65, 0x66], second.seqId)
  {
    MetadataFlagIsCount(c, seqId, count, false);
    var c1 := c.(columnCount := 1, state := ReadingColumns(1));
    FirstColumnRead(c1, first);
    OneValueRead(c1.(state := ReadingRows), second);
    hide Dispatch, ParseColumn, Chunked, Has, Lenenc.Write;
  }

  lemma FirstColumnRead(c: Codec, first: Packet)
    requires c.state == ReadingColumns(1) && c.UsesDeprecateEof() && ParseColumn(first.payload, first.seqId).Success?
    ensures Dispatch(c, first.seqId, first.payload, |first.payload| >= M).0 == c.(state := ReadingRows)
  {
    hide ParseColumn, Has;
  }

  lemma OneValueRead(c: Codec, p: Packet)
    requires c.state.ReadingRows? && c.columnCount == 1
    requires 4 <= |p.payload| < M && p.payload[..4] == [3, 0x64, 0x65, 0x66]
    ensures Dispatch(c, p.seqId, p.payload, false) == (c, Success(ResultRow(p.seqId, [Some([0x64, 0x65, 0x66])])))
    ensures RowPayload([Some([0x64, 0x65, 0x66])]) == [3, 0x64, 0x65, 0x66]
  {
    var v: Values := [Some([0x64, 0x65, 0x66])];
    var tail := p.payload[4..];
    assert v[1..] == [];
    assert RowPayload(v) == [3, 0x64, 0x65, 0x66];
    assert p.payload == RowPayload(v) + tail;
    RowRoundTrip(v, tail);
    hide RowPayload, ParseValues;
    assert p.payload[0] == p.payload[..4][0];
  }

  lemma EofRead(c: Codec, rs: ResultSet)
    requires rs.columnsEof.None? <==> c.UsesDeprecateEof()
    requires rs.columnsEof.Some? ==> IsLegacyEof(rs.columnsEof.value.payload)
    requires c.state == if c.UsesDeprecateEof() then ReadingRows else ReadingColumns(1)
    ensures Reads(c, Eof(rs), c.(state := ReadingRows), EofMessages(rs))
  {
    hide Has;
    if rs.columnsEof.Some? {
      ReadsOne(c, rs.columnsEof.value, c.(state := ReadingRows), EofMessages(rs)[0]);
    }
  }

  lemma TerminatorRead(c: Codec, t: Packet)
    requires c.state.ReadingRows? && IsTerminator(t.payload)
    ensures Reads(c, [t], c.(state := Command), [TerminatorMessage(t, c.capabilityFlags)])
  {
    hide ParseErr, ParseValues;
    ReadsOne(c, t, c.(state := Command), TerminatorMessage(t, c.capabilityFlags));
  }

  /** In the command phase a well-formed result set is read as exactly its
      messages and the codec is back in the command phase. */
  lemma ResultSetRead(c: Codec, rs: ResultSet)
    requires c.state.Command? && c.isClientSide && WellFormed(rs, c.UsesDeprecateEof())
    ensures Reads(c, Packets(rs), c.(columnCount := |rs.columns|), Messages(rs, c.capabilityFlags))
  {
    hide Has, Reads, HeaderFor, ParseColumn, IsTerminator, IsLegacyEof, TerminatorMessage, RowPackets, RowMessages,
      ColumnMessages, EofMessages, Eof;
    var n := |rs.columns|;
    var c1 := c.(columnCount := n, state := ReadingColumns(n));
    var c2 := c1.(state := if c.UsesDeprecateEof() then ReadingRows else ReadingColumns(1));
    var c3 := c1.(state := ReadingRows);
    HeaderRead(c, rs.header, n);
    ColumnsRead(c1, rs.columns, c2);
    EofRead(c2, rs);
    RowsRead(c3, rs.rows);
    TerminatorRead(c3, rs.terminator);
    var p1, m1 := [rs.header], [Generic(rs.header.seqId, rs.header.payload)];
    var p2, m2 := p1 + rs.columns, m1 + ColumnMessages(rs.columns);
    var p3, m3 := p2 + Eof(rs), m2 + EofMessages(rs);
    var p4, m4 := p3 + RowPackets(rs.rows), m3 + RowMessages(rs.rows);
    ReadsAppend(c, p1, c1, m1, rs.columns, c2, ColumnMessages(rs.columns));
    ReadsAppend(c, p2, c2, m2, Eof(rs), c3, EofMessages(rs));
    ReadsAppend(c, p3, c3, m3, RowPackets(rs.rows), c3, RowMessages(rs.rows));
    ReadsAppend(c, p4, c3, m4, [rs.terminator], c3.(state := Command), [TerminatorMessage(rs.terminator, c.capabilityFlags)]);
  }

  // ---- A whole command phase ----

  /** A server's reply: a result set, or a packet that is none (OK, ERR, EOF,
      a local-file request, an empty packet). */
  datatype Reply = Rows(rs: ResultSet) | Plain(packet: Packet)

  predicate WellFormedReply(r: Reply, deprecateEof: bool) {
    match r
    case Rows(rs) => WellFormed(rs, deprecateEof)
    case Plain(p) => p.payload == [] || p.payload[0] in {0, 0xfb, 0xfe, 0xff}
  }

  function ReplyPackets(r: Reply, deprecateEof: bool): seq<Packet>
    requires WellFormedReply(r, deprecateEof)
  {
    match r
    case Rows(rs) => Packets(rs)
    case Plain(p) => [p]
  }

  function PlainMessage(p: Packet, flags: u32): (m: Message)
    ensures Encodable(m) && Forwarded(m)
  {
    if p.payload == [] then Generic(p.seqId, p.payload) else CommandReply(flags, p.seqId, p.payload)
  }

  function ReplyMessages(r: Reply, flags: u32): (ms: seq<Message>)
    requires WellFormedReply(r, Has(flags, CLIENT_DEPRECATE_EOF))
    ensures forall m | m in ms :: Encodable(m)
  {
    match r
    case Rows(rs) => Messages(rs, flags)
    case Plain(p) => [PlainMessage(p, flags)]
  }

  function AfterReply(c: Codec, r: Reply): Codec {
    if r.Rows? then c.(columnCount := |r.rs.columns|) else c
  }

  lemma ReplyRead(c: Codec, r: Reply)
    requires c.state.Command? && c.isClientSide && WellFormedReply(r, Has(c.capabilityFlags, CLIENT_DEPRECATE_EOF))
    ensures Reads(c, ReplyPackets(r, Has(c.capabilityFlags, CLIENT_DEPRECATE_EOF)), AfterReply(c, r), ReplyMessages(r, c.capabilityFlags))
  {
    hide WellFormed, Packets, Messages, CommandReply, Has;
    match r
    case Rows(rs) => ResultSetRead(c, rs);
    case Plain(p) =>
      ReadsOne(c, p, c, PlainMessage(p, c.capabilityFlags));
  }

  function AllPackets(replies: seq<Reply>, deprecateEof: bool): seq<Packet>
    requires forall r | r in replies :: WellFormedReply(r, deprecateEof)
  {
    if replies == [] then [] else ReplyPackets(replies[0], deprecateEof) + AllPackets(replies[1..], deprecateEof)
  }

  function AllMessages(replies: seq<Reply>, flags: u32): (ms: seq<Message>)
    requires forall r | r in replies :: WellFormedReply(r, Has(flags, CLIENT_DEPRECATE_EOF))
    ensures forall m | m in ms :: Encodable(m)
  {
    if replies == [] then [] else ReplyMessages(replies[0], flags) + AllMessages(replies[1..], flags)
  }

  function AfterReplies(c: Codec, replies: seq<Reply>): (d: Codec)
    ensures d == c.(columnCount := d.columnCount)
    decreases |replies|
  {
    if replies == [] then c else AfterReplies(AfterReply(c, replies[0]), replies[1..])
  }

  lemma {:induction false} RepliesRead(c: Codec, replies: seq<Reply>)
    requires c.state.Command? && c.isClientSide
    requires forall r | r in replies :: WellFormedReply(r, Has(c.capabilityFlags, CLIENT_DEPRECATE_EOF))
    ensures Reads(c, AllPackets(replies, Has(c.capabilityFlags, CLIENT_DEPRECATE_EOF)), AfterReplies(c, replies), AllMessages(replies, c.capabilityFlags))
    decreases |replies|
  {
    hide Reads, WellFormedReply, ReplyPackets, ReplyMessages, Has;
    if replies == [] {
      ReadsNothing(c);
    } else {
      var next := AfterReply(c, replies[0]);
      assert replies[0] in replies && forall r | r in replies[1..] :: r in replies;
      ReplyRead(c, replies[0]);
      RepliesRead(next, replies[1..]);
      ReadsAppend(c, ReplyPackets(replies[0], Has(c.capabilityFlags, CLIENT_DEPRECATE_EOF)), next, ReplyMessages(replies[0], c.capabilityFlags),
                  AllPackets(replies[1..], Has(c.capabilityFlags, CLIENT_DEPRECATE_EOF)), AfterReplies(next, replies[1..]),
                  AllMessages(replies[1..], c.capabilityFlags));
    }
  }

  lemma ReadsNothing(c: Codec)
    ensures Reads(c, [], c, [])
  {
  }

  /** The command phase as a whole: for any replies, the codec emits exactly
      their messages and is back in the command phase with whatever follows
      untouched, and encoding those messages gives the server's bytes back. */
  lemma CommandPhase(c: Codec, replies: seq<Reply>, flags: u32, tail: bytes)
    requires c.state.Command? && c.isClientSide && c.pending.None?
    requires forall r | r in replies :: WellFormedReply(r, Has(c.capabilityFlags, CLIENT_DEPRECATE_EOF))
    ensures var ms := AllMessages(replies, c.capabilityFlags);
            var more := DecodeAll(AfterReplies(c, replies), tail);
            && DecodeAll(c, Wire(AllPackets(replies, Has(c.capabilityFlags, CLIENT_DEPRECATE_EOF))) + tail) == more.(messages := ms + more.messages)
            && AfterReplies(c, replies).state.Command?
            && EncodeAll(ms, flags) == Wire(AllPackets(replies, Has(c.capabilityFlags, CLIENT_DEPRECATE_EOF)))
  {
    hide Reads, DecodeAll, Wire, EncodeAll, WellFormedReply, AllMessages, AllPackets, Has;
    RepliesRead(c, replies);
    var ms := AllMessages(replies, c.capabilityFlags);
    WireDecodes(c, AllPackets(replies, Has(c.capabilityFlags, CLIENT_DEPRECATE_EOF)), AfterReplies(c, replies), ms, tail);
    ReadsReencode(c, AllPackets(replies, Has(c.capabilityFlags, CLIENT_DEPRECATE_EOF)), AfterReplies(c, replies), ms, flags);
  }
}
