/** Which message a packet is read as, and which state the codec is then in, told
    from the state, the side, the first byte and the length of the packet. */
module MessageKinds {
  import opened Wrappers
  import opened Bytes
  import opened Framing
  import opened MySqlPackets
  import opened MySqlCodec
  import opened MySqlStreams
  import Handshake
  import Lenenc

  predicate StartsWith(packet: bytes, b: byte) {
    packet != [] && packet[0] == b
  }

  /** A packet is a query if and only if it is a COM_QUERY from a client in its
      command phase; then the query is what follows the command byte, and the
      codec is left as it was. */
  lemma QueryReadExactly(c: Codec, seqId: byte, packet: bytes, assembled: bool)
    ensures var (d, r) := Dispatch(c, seqId, packet, assembled);
            if c.state.Command? && !c.isClientSide && StartsWith(packet, 3)
            then d == c && r == Success(Query(seqId, packet[1..]))
            else r.Success? ==> !r.value.Query?
  {
    hide ParseOk, ParseErr, ParseEof, ParseColumn, ParseValues, Lenenc.Read, Handshake.ParseHandshakeV10,
      Handshake.ParseHandshakeResponse, Encodable;
  }

  /** The same off the wire, for a query of any length, whatever follows it. */
  lemma QueryDecoded(c: Codec, seqId: byte, query: bytes, tail: bytes)
    requires c.state.Command? && !c.isClientSide && c.pending.None?
    ensures DecodeAll(c, Chunked([3] + query, seqId) + tail) == After((c, Success(Query(seqId, query))), tail)
  {
    hide Dispatch, DecodeAll, Chunked;
    var packet := [3] + query;
    Reassembles(c, packet, seqId, tail);
    QueryReadExactly(c, seqId, packet, |packet| >= M);
    assert packet[1..] == query;
  }

  /** What else a client can send in its command phase: anything is taken, nothing
      changes the codec, and a packet is opaque unless its first byte is that of an
      OK, ERR or EOF packet and it can be read as one. */
  lemma CommandTaken(c: Codec, seqId: byte, packet: bytes, assembled: bool)
    requires c.state.Command? && !c.isClientSide && !StartsWith(packet, 3)
    ensures var (d, r) := Dispatch(c, seqId, packet, assembled);
            && d == c && r.Success? && Forwarded(r.value) && !r.value.ColumnMsg?
            && (!StartsWith(packet, 0) && !StartsWith(packet, 0xff) && !StartsWith(packet, 0xfe) ==> r.value == Generic(seqId, packet))
  {
    hide ParseOk, ParseErr, ParseEof, Encodable;
  }

  /** In the two phases before a packet from the server may be OK or ERR. */
  predicate LoggingIn(c: Codec) {
    c.isClientSide && (c.state.WaitingHandshakeResponse? || c.state.WaitingAuthResponse?)
  }

  lemma OkReadExactly(c: Codec, seqId: byte, packet: bytes, assembled: bool)
    ensures var r := Dispatch(c, seqId, packet, assembled).1;
            var ok := ParseOk(packet, seqId, c.capabilityFlags);
            if (LoggingIn(c) || c.state.Command?) && StartsWith(packet, 0) && ok.Success?
            then r == Success(OkMsg(ok.value))
            else r.Success? ==> !r.value.OkMsg?
  {
    hide ParseOk, ParseErr, ParseEof, ParseColumn, ParseValues, Lenenc.Read, Handshake.ParseHandshakeV10,
      Handshake.ParseHandshakeResponse, Encodable;
  }

  lemma ErrReadExactly(c: Codec, seqId: byte, packet: bytes, assembled: bool)
    ensures var r := Dispatch(c, seqId, packet, assembled).1;
            var err := ParseErr(packet, seqId, c.capabilityFlags);
            if (LoggingIn(c) || c.state.Command? || c.state.ReadingRows?) && StartsWith(packet, 0xff) && err.Success?
            then r == Success(ErrMsg(err.value))
            else r.Success? ==> !r.value.ErrMsg?
  {
    hide ParseOk, ParseErr, ParseEof, ParseColumn, ParseValues, Lenenc.Read, Handshake.ParseHandshakeV10,
      Handshake.ParseHandshakeResponse, Encodable;
  }

  lemma EofReadExactly(c: Codec, seqId: byte, packet: bytes, assembled: bool)
    ensures var r := Dispatch(c, seqId, packet, assembled).1;
            if && (c.state.Command? || (c.state.ReadingColumns? && !Has(c.capabilityFlags, CLIENT_DEPRECATE_EOF)))
               && StartsWith(packet, 0xfe) && |packet| < 9
            then r == Success(EofMsg(ParseEof(packet, seqId).value))
            else r.Success? ==> !r.value.EofMsg?
  {
    hide ParseOk, ParseErr, ParseEof, ParseColumn, ParseValues, Lenenc.Read, Handshake.ParseHandshakeV10,
      Handshake.ParseHandshakeResponse, Encodable, Has;
  }

  /** A legacy EOF between column definitions. */
  predicate EndsColumns(c: Codec, packet: bytes) {
    StartsWith(packet, 0xfe) && |packet| < 9 && !Has(c.capabilityFlags, CLIENT_DEPRECATE_EOF)
  }

  /** What ends a result set: a 0xFE packet that came in one piece, or an ERR packet. */
  predicate EndsRows(packet: bytes, assembled: bool) {
    StartsWith(packet, 0xff) || (StartsWith(packet, 0xfe) && !assembled)
  }

  lemma ColumnReadExactly(c: Codec, seqId: byte, packet: bytes, assembled: bool)
    ensures var r := Dispatch(c, seqId, packet, assembled).1;
            var column := ParseColumn(packet, seqId);
            if c.state.ReadingColumns? && !EndsColumns(c, packet) && column.Success?
            then r == Success(ColumnMsg(column.value))
            else r.Success? ==> !r.value.ColumnMsg?
  {
    hide ParseOk, ParseErr, ParseEof, ParseColumn, ParseValues, Lenenc.Read, Handshake.ParseHandshakeV10,
      Handshake.ParseHandshakeResponse, Encodable, Has;
  }

  lemma ResultRowReadExactly(c: Codec, seqId: byte, packet: bytes, assembled: bool)
    ensures var (d, r) := Dispatch(c, seqId, packet, assembled);
            var values := ParseValues(packet, c.columnCount);
            if c.state.ReadingRows? && packet != [] && !EndsRows(packet, assembled) && values.Success?
            then d == c && r == Success(ResultRow(seqId, values.value.0))
            else r.Success? ==> !r.value.ResultRow?
  {
    hide ParseOk, ParseErr, ParseEof, ParseColumn, ParseValues, Lenenc.Read, Handshake.ParseHandshakeV10,
      Handshake.ParseHandshakeResponse, Encodable, Has;
  }

  lemma LoginMessageReadExactly(c: Codec, seqId: byte, packet: bytes, assembled: bool)
    ensures var (d, r) := Dispatch(c, seqId, packet, assembled);
            var greeting, response := Handshake.ParseHandshakeV10(packet), Handshake.ParseHandshakeResponse(packet);
            && (if c.state.WaitingHandshake? && c.isClientSide && greeting.Success?
                then r == Success(HandshakeMsg(greeting.value)) && d == c.(state := WaitingHandshakeResponse)
                else r.Success? ==> !r.value.HandshakeMsg?)
            && (if c.state.WaitingHandshakeResponse? && !c.isClientSide && response.Success?
                then r == Success(ResponseMsg(response.value))
                     && d == c.(state := Command, capabilityFlags := response.value.capabilityFlags)
                else r.Success? ==> !r.value.ResponseMsg?)
  {
    hide ParseOk, ParseErr, ParseEof, ParseColumn, ParseValues, Lenenc.Read, Handshake.ParseHandshakeV10,
      Handshake.ParseHandshakeResponse, Encodable, Has;
  }

  /** Reading fails, and so ends the connection, only where there is a parse that
      nothing stands in for. */
  lemma FailsExactly(c: Codec, seqId: byte, packet: bytes, assembled: bool)
    ensures Dispatch(c, seqId, packet, assembled).1.Failure? <==>
            match c.state
            case WaitingHandshake => c.isClientSide && Handshake.ParseHandshakeV10(packet).Failure?
            case WaitingHandshakeResponse => !c.isClientSide && Handshake.ParseHandshakeResponse(packet).Failure?
            case WaitingAuthResponse => false
            case Command =>
              c.isClientSide && packet != [] && packet[0] !in {0, 0xfe, 0xff} && Lenenc.Read(packet).Failure?
            case ReadingColumns(_) => !EndsColumns(c, packet) && ParseColumn(packet, seqId).Failure?
            case ReadingRows => packet == [] || (!EndsRows(packet, assembled) && ParseValues(packet, c.columnCount).Failure?)
  {
    hide ParseOk, ParseErr, ParseEof, ParseValues, Lenenc.Read, Handshake.ParseHandshakeV10,
      Handshake.ParseHandshakeResponse, Encodable, Has;
    if c.state.ReadingColumns? && packet == [] {
      assert Lenenc.ReadString(packet).Failure?;
    } else {
      hide ParseColumn;
    }
  }

  /** The state after a packet that was read. */
  lemma StateAfter(c: Codec, seqId: byte, packet: bytes, assembled: bool)
    requires Dispatch(c, seqId, packet, assembled).1.Success?
    ensures var (d, r) := Dispatch(c, seqId, packet, assembled);
            d.state ==
            match c.state
            case WaitingHandshake => if c.isClientSide then WaitingHandshakeResponse else WaitingHandshake
            case WaitingHandshakeResponse =>
              if c.isClientSide && (packet == [] || packet[0] == 0xff) then WaitingHandshakeResponse else Command
            case WaitingAuthResponse => if r.value.OkMsg? then Command else WaitingAuthResponse
            case Command =>
              if c.isClientSide && packet != [] && packet[0] !in {0, 0xfe, 0xff} && 0 < Lenenc.Read(packet).value.0 < 4096
              then ReadingColumns(Lenenc.Read(packet).value.0) else Command
            case ReadingColumns(n) =>
              if r.value.EofMsg? then ReadingRows
              else if n > 1 then ReadingColumns(n - 1)
              else if Has(c.capabilityFlags, CLIENT_DEPRECATE_EOF) then ReadingRows else ReadingColumns(n)
            case ReadingRows => if r.value.ResultRow? then ReadingRows else Command
  {
    hide ParseOk, ParseErr, ParseEof, ParseColumn, ParseValues, Lenenc.Read, Handshake.ParseHandshakeV10,
      Handshake.ParseHandshakeResponse, Encodable, Has;
  }

  /** The flags change only with a client's response, and the width of rows only
      with a header, which announces it. */
  lemma SettingsAfter(c: Codec, seqId: byte, packet: bytes, assembled: bool)
    ensures var (d, r) := Dispatch(c, seqId, packet, assembled);
            && d.capabilityFlags == (if r.Success? && r.value.ResponseMsg? then r.value.response.capabilityFlags else c.capabilityFlags)
            && d.columnCount == (if c.state.Command? && d.state.ReadingColumns? then d.state.remaining else c.columnCount)
  {
    hide ParseOk, ParseErr, ParseEof, ParseColumn, ParseValues, Lenenc.Read, Handshake.ParseHandshakeV10,
      Handshake.ParseHandshakeResponse, Encodable, Has;
  }

  /** One header in front of everything is the canonical run of packets if and only
      if the number is the same and the payload fits one unfinished packet. */
  lemma OneHeader(payload: bytes, a: byte, b: byte)
    ensures Header(|payload|, a) + payload == Chunked(payload, b) <==> a == b && |payload| < M
  {
    SingleHeaderChunks(payload, b);
    assert Chunked(payload, b)[3] == b;
    assert (Header(|payload|, a) + payload)[3] == a;
  }

  /** A greeting and a response are written with one header and a fixed number, so
      they go on as they came if and only if they had that number, 0 or 1, and fit one
      unfinished packet. */
  lemma LoginMessageForwarded(c: Codec, seqId: byte, packet: bytes, assembled: bool, flags: u32)
    requires Dispatch(c, seqId, packet, assembled).1.Success?
    ensures var m := Dispatch(c, seqId, packet, assembled).1.value;
            && (m.HandshakeMsg? ==> (Encode(m, flags) == Chunked(packet, seqId) <==> seqId == 0 && |packet| < M))
            && (m.ResponseMsg? ==> (Encode(m, flags) == Chunked(packet, seqId) <==> seqId == 1 && |packet| < M))
  {
    hide Dispatch, Chunked, Header, Handshake.ParseHandshakeV10, Handshake.ParseHandshakeResponse, Handshake.HandshakePayload;
    LoginMessageReadExactly(c, seqId, packet, assembled);
    var m := Dispatch(c, seqId, packet, assembled).1.value;
    if m.HandshakeMsg? {
      Handshake.PatchTouchesOnlyFlags(packet, m.handshake.capabilityFlags);
      OneHeader(packet, 0, seqId);
    } else if m.ResponseMsg? {
      assert |packet| >= 32 by { ResponseIsLong(packet); }
      OneHeader(packet, 1, seqId);
    }
  }

  lemma ResponseIsLong(packet: bytes)
    ensures Handshake.ParseHandshakeResponse(packet).Success? ==> |packet| >= 32
  {
    hide Handshake.ParseResponseBody;
  }
}
