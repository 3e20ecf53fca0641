/** MySQL packets: their parsed forms, the parsers, and the payload encoders. */
module MySqlPackets {
  import opened Wrappers
  import opened Bytes
  import Bits
  import opened Framing
  import Lenenc

  // Capability flags, by bit number.
  const CLIENT_CONNECT_WITH_DB: nat := 3
  const CLIENT_COMPRESS: nat := 5
  const CLIENT_PROTOCOL_41: nat := 9
  const CLIENT_SSL: nat := 11
  const CLIENT_SECURE_CONNECTION: nat := 15
  const CLIENT_PLUGIN_AUTH: nat := 19
  const CLIENT_CONNECT_ATTRS: nat := 20
  const CLIENT_DEPRECATE_EOF: nat := 24

  predicate Has(flags: u32, flag: nat) {
    Bits.Bit(flags, flag)
  }

  datatype HandshakeV10 = HandshakeV10(
    protocolVersion: byte, serverVersion: bytes, connectionId: u32, authPluginDataPart1: bytes,
    capabilityFlags: u32, characterSet: byte, statusFlags: u16, authPluginDataPart2: bytes,
    authPluginName: bytes, raw: bytes)

  datatype HandshakeResponse = HandshakeResponse(
    capabilityFlags: u32, maxPacketSize: u32, characterSet: byte, username: bytes, authResponse: bytes,
    database: Option<bytes>, authPluginName: Option<bytes>, raw: bytes)
  {
    /** The 32-byte prefix with CLIENT_SSL set: a TLS handshake comes next. */
    predicate IsSslRequest() {
      |raw| == 32 && Has(capabilityFlags, CLIENT_SSL)
    }
  }

  datatype ColumnDefinition = ColumnDefinition(
    seqId: byte, catalog: bytes, schema: bytes, table: bytes, orgTable: bytes, name: bytes, orgName: bytes,
    characterSet: u16, columnLength: u32, columnType: byte, flags: u16, decimals: byte, raw: bytes)

  type Values = seq<Option<bytes>>

  datatype OkPacket = OkPacket(
    seqId: byte, affectedRows: nat, lastInsertId: nat, statusFlags: u16, warnings: u16, info: bytes, raw: bytes)

  datatype ErrPacket = ErrPacket(
    seqId: byte, errorCode: u16, sqlState: bytes, errorMessage: bytes, raw: bytes)

  datatype EofPacket = EofPacket(seqId: byte, warnings: u16, statusFlags: u16, raw: bytes)

  datatype Message =
    | HandshakeMsg(handshake: HandshakeV10)
    | ResponseMsg(response: HandshakeResponse)
    | Generic(seqId: byte, payload: bytes)
    | Query(seqId: byte, query: bytes)
    | ColumnMsg(column: ColumnDefinition)
    | ResultRow(seqId: byte, values: Values)
    | OkMsg(ok: OkPacket)
    | ErrMsg(err: ErrPacket)
    | EofMsg(eof: EofPacket)

  function U16At(s: bytes, i: nat): u16
    requires i + 2 <= |s|
  {
    Pow256Values(); FromLEBound(s[i..i + 2]);
    FromLE(s[i..i + 2])
  }

  function U32At(s: bytes, i: nat): u32
    requires i + 4 <= |s|
  {
    Pow256Values(); FromLEBound(s[i..i + 4]);
    FromLE(s[i..i + 4])
  }

  // ---- OK, ERR and EOF: read for logging, forwarded verbatim ----

  function ParseOk(packet: bytes, seqId: byte, flags: u32): (r: Result<OkPacket>)
    ensures r.Success? ==> r.value.raw == packet != [] && r.value.seqId == seqId
    ensures r.Success? ==> r.value.affectedRows < U64_LIMIT && r.value.lastInsertId < U64_LIMIT
  {
    if packet == [] then Failure("truncated OK packet") else
    var b0 := packet[1..];
    var (affected, n0) :- Lenenc.Read(b0);
    var b1 := b0[n0..];
    var (insertId, n1) :- Lenenc.Read(b1);
    var b2 := b1[n1..];
    if Has(flags, CLIENT_PROTOCOL_41) then
      if |b2| < 4 then Failure("truncated OK packet: missing status/warnings")
      else Success(OkPacket(seqId, affected, insertId, U16At(b2, 0), U16At(b2, 2), b2[4..], packet))
    else Success(OkPacket(seqId, affected, insertId, 0, 0, b2, packet))
  }

  function ParseErr(packet: bytes, seqId: byte, flags: u32): (r: Result<ErrPacket>)
    ensures r.Success? ==> r.value.raw == packet != [] && r.value.seqId == seqId
  {
    if |packet| < 3 then Failure("truncated ERR packet") else
    var b := packet[3..];
    if Has(flags, CLIENT_PROTOCOL_41) then
      if |b| < 6 then Failure("truncated ERR packet: missing sql state")
      else Success(ErrPacket(seqId, U16At(packet, 1), b[1..6], b[6..], packet)) // skips the '#' marker
    else Success(ErrPacket(seqId, U16At(packet, 1), [0, 0, 0, 0, 0], b, packet))
  }

  function ParseEof(packet: bytes, seqId: byte): (r: Result<EofPacket>)
    ensures r.Success? <==> packet != []
    ensures r.Success? ==> r.value.raw == packet && r.value.seqId == seqId
  {
    if packet == [] then Failure("truncated EOF packet") else
    Success(EofPacket(seqId,
                      if |packet| >= 3 then U16At(packet, 1) else 0,
                      if |packet| >= 5 then U16At(packet, 3) else 0,
                      packet))
  }

  // ---- Column definitions ----

  predicate ColumnFits(c: ColumnDefinition) {
    |c.catalog| < U64_LIMIT && |c.schema| < U64_LIMIT && |c.table| < U64_LIMIT &&
    |c.orgTable| < U64_LIMIT && |c.name| < U64_LIMIT && |c.orgName| < U64_LIMIT
  }

  function ParseColumn(packet: bytes, seqId: byte): (r: Result<ColumnDefinition>)
    ensures r.Success? ==> r.value.raw == packet && |packet| >= 19 && r.value.seqId == seqId && ColumnFits(r.value)
  {
    var (catalog, b1) :- Lenenc.ReadString(packet);
    var (schema, b2) :- Lenenc.ReadString(b1);
    var (table, b3) :- Lenenc.ReadString(b2);
    var (orgTable, b4) :- Lenenc.ReadString(b3);
    var (name, b5) :- Lenenc.ReadString(b4);
    var (orgName, b6) :- Lenenc.ReadString(b5);
    if |b6| < 13 then Failure("truncated column definition: missing fixed fields")
    else Success(ColumnDefinition(seqId, catalog, schema, table, orgTable, name, orgName,
                                  U16At(b6, 1), U32At(b6, 3), b6[7], U16At(b6, 8), b6[10], packet))
  }

  // ---- Text rows ----

  predicate Storable(values: Values) {
    forall v | v in values && v.Some? :: |v.value| < U64_LIMIT
  }

  function ValueBytes(v: Option<bytes>): (b: bytes)
    requires v.Some? ==> |v.value| < U64_LIMIT
    ensures b != [] && b[0] != 0xff && (b[0] == 0xfe ==> |b| > M)
  {
    match v
    case None => [0xfb] // NULL
    case Some(s) => Lenenc.WriteString(s)
  }

  /** The payload of a row: its values' encodings in order. */
  function RowPayload(values: Values): bytes
    requires Storable(values)
  {
    if values == [] then [] else
      assert forall v | v in values[1..] :: v in values;
      assert values[0] in values;
      ValueBytes(values[0]) + RowPayload(values[1..])
  }

  /** Read one value off a non-empty buffer: 0xFB is NULL. */
  function ParseValue(buf: bytes): (r: Result<(Option<bytes>, bytes)>)
    requires buf != []
    ensures r.Success? ==> |r.value.1| < |buf| && (r.value.0.Some? ==> |r.value.0.value| < U64_LIMIT)
  {
    if buf[0] == 0xfb then Success((None, buf[1..]))
    else
      var (len, used) :- Lenenc.Read(buf);
      if |buf| - used < len then Failure("malformed ResultRow: field length exceeds remaining")
      else Success((Some(buf[used..used + len]), buf[used + len..]))
  }

  lemma ValueRoundTrip(v: Option<bytes>, tail: bytes)
    requires v.Some? ==> |v.value| < U64_LIMIT
    ensures ParseValue(ValueBytes(v) + tail) == Success((v, tail))
  {
    var buf := ValueBytes(v) + tail;
    if v.Some? {
      var s := v.value;
      var w := Lenenc.Write(|s|);
      assert buf == w + (s + tail);
      Lenenc.ReadWrite(|s|, s + tail);
      assert buf[|w|..|w| + |s|] == s && buf[|w| + |s|..] == tail;
    } else {
      assert buf[1..] == tail;
    }
  }

  /** The value at the front of the buffer has the shortest form of length. */
  predicate CanonicalValue(buf: bytes)
    requires buf != [] && ParseValue(buf).Success?
  {
    buf[0] == 0xfb || Lenenc.Minimal(buf)
  }

  lemma CanonicalValueIsRewritten(buf: bytes)
    requires buf != [] && ParseValue(buf).Success? && CanonicalValue(buf)
    ensures var (v, rest) := ParseValue(buf).value; ValueBytes(v) + rest == buf
  {
    var (v, rest) := ParseValue(buf).value;
    if v.Some? {
      Lenenc.WriteRead(buf);
      var used := Lenenc.Read(buf).value.1;
      assert buf == buf[..used] + v.value + rest;
    }
  }

  lemma WrittenValueIsCanonical(v: Option<bytes>, more: bytes)
    requires v.Some? ==> |v.value| < U64_LIMIT
    ensures var buf := ValueBytes(v) + more;
            ParseValue(buf) == Success((v, more)) && CanonicalValue(buf)
  {
    hide Lenenc.Write, Lenenc.Read, Lenenc.Minimal, ParseValue;
    ValueRoundTrip(v, more);
    if v.Some? {
      Lenenc.WriteIsMinimal(|v.value|, v.value + more);
      assert ValueBytes(v) + more == Lenenc.Write(|v.value|) + (v.value + more);
    }
  }

  lemma ValueReencode(buf: bytes, more: bytes)
    requires buf != [] && ParseValue(buf).Success?
    ensures var (v, rest) := ParseValue(buf).value;
            ValueBytes(v) + more == buf <==> CanonicalValue(buf) && more == rest
  {
    var (v, rest) := ParseValue(buf).value;
    WrittenValueIsCanonical(v, more);
    if CanonicalValue(buf) {
      CanonicalValueIsRewritten(buf);
    }
  }

  /** Read `n` values; also returns the bytes that were left over, which the
      decoder ignores. */
  function ParseValues(buf: bytes, n: nat): (r: Result<(Values, bytes)>)
    ensures r.Success? ==> |r.value.0| == n && Storable(r.value.0)
    decreases n
  {
    if n == 0 then Success(([], buf))
    else if buf == [] then Failure("malformed ResultRow: buffer exhausted")
    else
      var (v, more) :- ParseValue(buf);
      var (vs, rest) :- ParseValues(more, n - 1);
      Success(([v] + vs, rest))
  }

  lemma ParseValuesStep(buf: bytes, n: nat)
    requires n > 0 && buf != [] && ParseValue(buf).Success?
    requires ParseValues(ParseValue(buf).value.1, n - 1).Success?
    ensures var (v, more) := ParseValue(buf).value; var (vs, rest) := ParseValues(more, n - 1).value;
            ParseValues(buf, n) == Success(([v] + vs, rest))
  {
  }

  lemma {:induction false} RowRoundTrip(values: Values, tail: bytes)
    requires Storable(values)
    ensures ParseValues(RowPayload(values) + tail, |values|) == Success((values, tail))
  {
    hide ValueBytes, ParseValue;
    if values == [] {
      assert RowPayload(values) + tail == tail;
    } else {
      assert values[0] in values;
      RowPayloadStep(values);
      var more := RowPayload(values[1..]) + tail;
      RowRoundTrip(values[1..], tail);
      ValueRoundTrip(values[0], more);
      assert RowPayload(values) + tail == ValueBytes(values[0]) + more;
      ParseValuesStep(RowPayload(values) + tail, |values|);
      assert [values[0]] + values[1..] == values;
    }
  }

  /** A row is never mistaken for an ERR packet, and starts with 0xFE only when
      its payload needs several packets. */
  lemma RowFirstByte(values: Values)
    requires Storable(values) && values != []
    ensures var p := RowPayload(values); p != [] && p[0] != 0xff && (p[0] == 0xfe ==> |p| > M)
  {
    assert values[0] in values;
  }

  /** The first `n` values of the buffer all have shortest-form lengths and
      nothing follows the last. */
  predicate CanonicalRow(buf: bytes, n: nat)
    requires ParseValues(buf, n).Success?
    decreases n
  {
    if n == 0 then buf == []
    else CanonicalValue(buf) && CanonicalRow(ParseValue(buf).value.1, n - 1)
  }

  /** Writing back what was read reproduces the payload exactly for canonical rows. */
  lemma {:induction false} RowReencode(buf: bytes, n: nat)
    requires ParseValues(buf, n).Success?
    ensures RowPayload(ParseValues(buf, n).value.0) == buf <==> CanonicalRow(buf, n)
    decreases n
  {
    if n > 0 {
      var (v, more) := ParseValue(buf).value;
      var (vs, rest) := ParseValues(more, n - 1).value;
      RowReencode(more, n - 1);
      assert ([v] + vs)[1..] == vs;
      ValueReencode(buf, RowPayload(vs));
    }
  }

  method ParseResultRow(buf: BytesMut, columnCount: nat) returns (r: Result<Values>)
    modifies buf
    ensures var spec := ParseValues(old(buf.data), columnCount);
            match spec
            case Success((values, rest)) => r == Success(values) && buf.data == rest
            case Failure(e) => r == Failure(e)
  {
    hide ParseValue, Storable;
    var values: Values := [];
    ghost var all := ParseValues(buf.data, columnCount);
    assert all.Success? ==> values + all.value.0 == all.value.0;
    for i := 0 to columnCount
      invariant |values| == i
      invariant var left := ParseValues(buf.data, columnCount - i);
                (left.Success? <==> all.Success?) &&
                (left.Success? ==> all.value == (values + left.value.0, left.value.1)) &&
                (left.Failure? ==> all == left)
    {
      if buf.data == [] {
        return Failure("malformed ResultRow: buffer exhausted");
      }
      var parsed := ParseValue(buf.data);
      if parsed.Failure? {
        return Failure(parsed.error);
      }
      ghost var before := values;
      values := values + [parsed.value.0];
      buf.data := parsed.value.1;
      ghost var left := ParseValues(buf.data, columnCount - i - 1);
      assert left.Success? ==> before + ([parsed.value.0] + left.value.0) == values + left.value.0;
    }
    assert values + [] == values;
    r := Success(values);
  }

  method EncodeResultRow(seqId: byte, values: Values, dst: BytesMut)
    requires Storable(values)
    modifies dst
    ensures dst.data == old(dst.data) + Chunked(RowPayload(values), seqId)
  {
    hide ValueBytes;
    var payload: bytes := [];
    assert values[0..] == values;
    for i := 0 to |values|
      invariant dst.data == old(dst.data)
      invariant payload + RowPayload(values[i..]) == RowPayload(values)
    {
      assert values[i] in values;
      RowPayloadStep(values[i..]);
      assert values[i..][1..] == values[i + 1..];
      payload := payload + ValueBytes(values[i]);
    }
    assert payload == RowPayload(values);
    WritePacketChunked(dst, payload, seqId);
  }

  lemma RowPayloadStep(values: Values)
    requires Storable(values) && values != []
    ensures Storable(values[1..])
    ensures RowPayload(values) == ValueBytes(values[0]) + RowPayload(values[1..])
  {
    assert forall v | v in values[1..] :: v in values;
  }
}
