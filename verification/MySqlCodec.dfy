/** The MySQL codec: framing, reassembly and the state machine that decides how
    each payload is read; and the encoder. */
module MySqlCodec {
  import opened Wrappers
  import opened Bytes
  import opened Framing
  import opened MySqlPackets
  import Handshake
  import Lenenc

  datatype State =
    | WaitingHandshake
    | WaitingHandshakeResponse
    | WaitingAuthResponse
    | Command
    | ReadingColumns(remaining: nat)
    | ReadingRows

  /** A logical packet of which only full-size pieces have arrived. */
  datatype Pending = Pending(seqId: byte, payload: bytes)

  /** The value of a codec: everything `decode` reads and updates. */
  datatype Codec = Codec(
    state: State, capabilityFlags: u32, isClientSide: bool, columnCount: nat, pending: Option<Pending>)
  {
    predicate UsesDeprecateEof() {
      Has(capabilityFlags, CLIENT_DEPRECATE_EOF)
    }
  }

  function NewServer(): Codec {
    Codec(WaitingHandshake, 0, false, 0, None)
  }

  function NewClient(): Codec {
    Codec(WaitingHandshake, 0, true, 0, None)
  }

  type Dispatched = (Codec, Result<Message>)

  /** Sizes and counts are 64-bit numbers. */
  predicate Encodable(m: Message) {
    match m
    case ResultRow(_, values) => Storable(values)
    case OkMsg(o) => o.affectedRows < U64_LIMIT && o.lastInsertId < U64_LIMIT
    case ColumnMsg(c) => ColumnFits(c)
    case _ => true
  }

  /** The message accounts for the payload it was read from. */
  predicate ReadFrom(m: Message, seqId: byte, packet: bytes) {
    && Encodable(m)
    && match m
       case HandshakeMsg(h) => h.raw == packet
       case ResponseMsg(r) => r.raw == packet
       case Generic(s, payload) => s == seqId && payload == packet
       case Query(s, query) => s == seqId && packet == [3] + query
       case ColumnMsg(c) => c.seqId == seqId && c.raw == packet != []
       case ResultRow(s, values) => s == seqId
       case OkMsg(o) => o.seqId == seqId && o.raw == packet != []
       case ErrMsg(e) => e.seqId == seqId && e.raw == packet != []
       case EofMsg(e) => e.seqId == seqId && e.raw == packet != []
  }

  // ---- How one whole payload is read, state by state ----

  function DispatchHandshake(c: Codec, seqId: byte, packet: bytes): (d: Dispatched)
    ensures d.1.Success? ==> ReadFrom(d.1.value, seqId, packet)
  {
    if c.isClientSide then
      match Handshake.ParseHandshakeV10(packet)
      case Failure(e) => (c, Failure(e))
      case Success(h) => (c.(state := WaitingHandshakeResponse), Success(HandshakeMsg(h)))
    else (c, Success(Generic(seqId, packet)))
  }

  function DispatchHandshakeResponse(c: Codec, seqId: byte, packet: bytes): (d: Dispatched)
    ensures d.1.Success? ==> ReadFrom(d.1.value, seqId, packet)
  {
    if !c.isClientSide then
      match Handshake.ParseHandshakeResponse(packet)
      case Failure(e) => (c, Failure(e))
      case Success(r) => (c.(capabilityFlags := r.capabilityFlags, state := Command), Success(ResponseMsg(r)))
    else
      var first: byte := if packet == [] then 0xff else packet[0];
      if first == 0 then
        var ok := ParseOk(packet, seqId, c.capabilityFlags);
        (c.(state := Command), Success(if ok.Success? then OkMsg(ok.value) else Generic(seqId, packet)))
      else if first == 0xff then
        var err := ParseErr(packet, seqId, c.capabilityFlags);
        (c, Success(if err.Success? then ErrMsg(err.value) else Generic(seqId, packet)))
      else (c.(state := Command), Success(Generic(seqId, packet)))
  }

  /** Only the upstream-facing codec reads OK and ERR here: a client's reply is
      opaque and may start with any byte. */
  function DispatchAuth(c: Codec, seqId: byte, packet: bytes): (d: Dispatched)
    ensures d.1.Success? ==> ReadFrom(d.1.value, seqId, packet)
  {
    var ok := ParseOk(packet, seqId, c.capabilityFlags);
    var err := ParseErr(packet, seqId, c.capabilityFlags);
    if c.isClientSide && packet != [] && packet[0] == 0 && ok.Success?
    then (c.(state := Command), Success(OkMsg(ok.value)))
    else if c.isClientSide && packet != [] && packet[0] == 0xff && err.Success?
    then (c, Success(ErrMsg(err.value)))
    else (c, Success(Generic(seqId, packet)))
  }

  /** OK, ERR or a legacy EOF in the command phase; anything else is generic. */
  function CommandReply(flags: u32, seqId: byte, packet: bytes): (m: Message)
    requires packet != []
    ensures ReadFrom(m, seqId, packet) && !m.ResultRow? && !m.Query?
  {
    var ok := ParseOk(packet, seqId, flags);
    var err := ParseErr(packet, seqId, flags);
    var eof := ParseEof(packet, seqId);
    if packet[0] == 0 && ok.Success? then OkMsg(ok.value)
    else if packet[0] == 0xff && err.Success? then ErrMsg(err.value)
    else if packet[0] == 0xfe && |packet| < 9 && eof.Success? then EofMsg(eof.value)
    else Generic(seqId, packet)
  }

  function DispatchCommand(c: Codec, seqId: byte, packet: bytes): (d: Dispatched)
    ensures d.1.Success? ==> ReadFrom(d.1.value, seqId, packet)
  {
    if packet == [] then (c, Success(Generic(seqId, packet)))
    else if !c.isClientSide && packet[0] == 3 then (c, Success(Query(seqId, packet[1..])))
    else if c.isClientSide && packet[0] !in {0, 0xff, 0xfe} then
      match Lenenc.Read(packet)
      case Failure(e) => (c, Failure(e))
      case Success((count, _)) =>
        if 0 < count < 4096
        then (c.(columnCount := count, state := ReadingColumns(count)), Success(Generic(seqId, packet)))
        else (c, Success(CommandReply(c.capabilityFlags, seqId, packet)))
    else (c, Success(CommandReply(c.capabilityFlags, seqId, packet)))
  }

  function DispatchColumns(c: Codec, seqId: byte, packet: bytes): (d: Dispatched)
    requires c.state.ReadingColumns?
    ensures d.1.Success? ==> ReadFrom(d.1.value, seqId, packet)
  {
    if packet == [] then (c, Failure("empty MySQL packet while reading column definitions"))
    else if packet[0] == 0xfe && |packet| < 9 && !c.UsesDeprecateEof()
    then (c.(state := ReadingRows), Success(EofMsg(ParseEof(packet, seqId).value)))
    else
      match ParseColumn(packet, seqId)
      case Failure(e) => (c, Failure(e))
      case Success(column) =>
        var left := Handshake.SaturatingSub(c.state.remaining, 1);
        var next := if left > 0 then ReadingColumns(left) else if c.UsesDeprecateEof() then ReadingRows else c.state;
        (c.(state := next), Success(ColumnMsg(column)))
  }

  /** A 0xFE packet ends the result set unless it had to be reassembled: then it
      is a row whose first value needs an 8-byte length. */
  function DispatchRows(c: Codec, seqId: byte, packet: bytes, assembled: bool): (d: Dispatched)
    ensures d.1.Success? ==> ReadFrom(d.1.value, seqId, packet)
    ensures d.1.Success? && d.1.value.ResultRow? ==>
              ParseValues(packet, c.columnCount).Success? && d.1.value.values == ParseValues(packet, c.columnCount).value.0
  {
    if packet == [] then (c, Failure("empty MySQL packet while reading result rows"))
    else if packet[0] == 0xfe && !assembled then (c.(state := Command), Success(Generic(seqId, packet)))
    else if packet[0] == 0xff then
      var err := ParseErr(packet, seqId, c.capabilityFlags);
      (c.(state := Command), Success(if err.Success? then ErrMsg(err.value) else Generic(seqId, packet)))
    else
      match ParseValues(packet, c.columnCount)
      case Failure(e) => (c, Failure(e))
      case Success((values, _)) => (c, Success(ResultRow(seqId, values)))
  }

  function Dispatch(c: Codec, seqId: byte, packet: bytes, assembled: bool): (r: Dispatched)
    ensures r.0.pending == c.pending && r.0.isClientSide == c.isClientSide
    ensures r.1.Success? ==> ReadFrom(r.1.value, seqId, packet)
    ensures r.1.Success? && r.1.value.ResultRow? ==>
              ParseValues(packet, c.columnCount).Success? && r.1.value.values == ParseValues(packet, c.columnCount).value.0
  {
    match c.state
    case WaitingHandshake => DispatchHandshake(c, seqId, packet)
    case WaitingHandshakeResponse => DispatchHandshakeResponse(c, seqId, packet)
    case WaitingAuthResponse => DispatchAuth(c, seqId, packet)
    case Command => DispatchCommand(c, seqId, packet)
    case ReadingColumns(_) => DispatchColumns(c, seqId, packet)
    case ReadingRows => DispatchRows(c, seqId, packet, assembled)
  }

  // ---- Framing on top of it ----

  /** What one packet at the front of the buffer leads to. */
  datatype Step =
    | NeedMore
    | Silent(codec: Codec, rest: bytes)
    | Done(codec: Codec, rest: bytes, result: Result<Message>)

  function StepPacket(c: Codec, src: bytes): (s: Step)
    ensures !s.NeedMore? ==> |s.rest| + 4 <= |src|
  {
    if |src| < 4 then NeedMore else
    var len := FromLE(src[..3]);
    if |src| < 4 + len then NeedMore else
    var seqId, packet, rest := src[3], src[4..4 + len], src[4 + len..];
    if len == M then
      var so := if c.pending.Some? then c.pending.value else Pending(seqId, []);
      Silent(c.(pending := Some(so.(payload := so.payload + packet))), rest)
    else
      match c.pending
      case None =>
        var (d, m) := Dispatch(c, seqId, packet, false);
        Done(d, rest, m)
      case Some(so) =>
        var (d, m) := Dispatch(c.(pending := None), so.seqId, so.payload + packet, true);
        Done(d, rest, m)
  }

  /** One call of `decode`: packets are consumed up to the first that completes
      a message or fails; `None` means that more bytes are needed. */
  function Decode(c: Codec, src: bytes): (r: (Codec, bytes, Result<Option<Message>>))
    ensures |r.1| <= |src|
    ensures r.2 != Success(None) ==> |r.1| + 4 <= |src|
    decreases |src|
  {
    match StepPacket(c, src)
    case NeedMore => (c, src, Success(None))
    case Silent(d, rest) => Decode(d, rest)
    case Done(d, rest, m) => (d, rest, if m.Success? then Success(Some(m.value)) else Failure(m.error))
  }

  /** The outcome of decoding until more bytes are needed or decoding failed. */
  datatype Run = Run(codec: Codec, rest: bytes, messages: seq<Message>, error: Option<string>)

  function DecodeAll(c: Codec, src: bytes): (r: Run)
    decreases |src|
  {
    match StepPacket(c, src)
    case NeedMore => Run(c, src, [], None)
    case Silent(d, rest) => DecodeAll(d, rest)
    case Done(d, rest, m) =>
      if m.Failure? then Run(d, rest, [], Some(m.error))
      else
        var more := DecodeAll(d, rest);
        more.(messages := [m.value] + more.messages)
  }

  // ---- Encoding ----

  /** Where a packet came off the wire it is forwarded verbatim. */
  function RawOr(raw: bytes, built: bytes, seqId: byte): bytes {
    if raw != [] then Chunked(raw, seqId) else Header(|built|, seqId) + built
  }

  function OkPayload(o: OkPacket, flags: u32): bytes
    requires o.affectedRows < U64_LIMIT && o.lastInsertId < U64_LIMIT
  {
    [0] + Lenenc.Write(o.affectedRows) + Lenenc.Write(o.lastInsertId)
    + (if Has(flags, CLIENT_PROTOCOL_41) then LE(o.statusFlags, 2) + LE(o.warnings, 2) else []) + o.info
  }

  function ErrPayload(e: ErrPacket, flags: u32): bytes {
    [0xff] + LE(e.errorCode, 2) + (if Has(flags, CLIENT_PROTOCOL_41) then [0x23] + e.sqlState else []) + e.errorMessage
  }

  function EofPayload(e: EofPacket): bytes {
    [0xfe] + LE(e.warnings, 2) + LE(e.statusFlags, 2)
  }

  function ColumnPayload(c: ColumnDefinition): bytes
    requires ColumnFits(c)
  {
    Lenenc.WriteString(c.catalog) + Lenenc.WriteString(c.schema) + Lenenc.WriteString(c.table)
    + Lenenc.WriteString(c.orgTable) + Lenenc.WriteString(c.name) + Lenenc.WriteString(c.orgName)
    + [0x0c] + LE(c.characterSet, 2) + LE(c.columnLength, 4) + [c.columnType] + LE(c.flags, 2) + [c.decimals] + [0, 0]
  }

  function Encode(m: Message, flags: u32): bytes
    requires Encodable(m)
  {
    match m
    case HandshakeMsg(h) => Handshake.EncodeHandshakeV10(h)
    case ResponseMsg(r) => Handshake.EncodeResponse(r)
    case Generic(seqId, payload) => Chunked(payload, seqId)
    case Query(seqId, query) => Header(1 + |query|, seqId) + [3] + query
    case ColumnMsg(c) => RawOr(c.raw, ColumnPayload(c), c.seqId)
    case ResultRow(seqId, values) => Chunked(RowPayload(values), seqId)
    case OkMsg(o) => RawOr(o.raw, OkPayload(o, flags), o.seqId)
    case ErrMsg(e) => RawOr(e.raw, ErrPayload(e, flags), e.seqId)
    case EofMsg(e) => RawOr(e.raw, EofPayload(e), e.seqId)
  }

  function AfterEncode(c: Codec, m: Message): Codec {
    if m.HandshakeMsg? && !c.isClientSide && c.state.WaitingHandshake?
    then c.(state := WaitingHandshakeResponse) else c
  }

  // ---- The codec object ----

  class MySqlCodec {
    var state: State
    var capabilityFlags: u32
    var isClientSide: bool
    var columnCount: nat
    var pendingLarge: Option<Pending>

    ghost function View(): Codec
      reads this
    {
      Codec(state, capabilityFlags, isClientSide, columnCount, pendingLarge)
    }

    constructor (c: Codec)
      ensures View() == c
    {
      state, capabilityFlags, isClientSide := c.state, c.capabilityFlags, c.isClientSide;
      columnCount, pendingLarge := c.columnCount, c.pending;
    }

    method DispatchPacket(seqId: byte, packet: bytes, assembled: bool) returns (r: Result<Message>)
      modifies this`state, this`capabilityFlags, this`columnCount
      ensures (View(), r) == Dispatch(old(View()), seqId, packet, assembled)
    {
      ghost var c := View();
      match state
      case WaitingHandshake =>
        if !isClientSide {
          return Success(Generic(seqId, packet));
        }
        var h := Handshake.ParseHandshakeV10(packet);
        if h.Failure? {
          return Failure(h.error);
        }
        state := WaitingHandshakeResponse;
        r := Success(HandshakeMsg(h.value));
      case WaitingHandshakeResponse =>
        r := this.FirstReply(seqId, packet);
      case WaitingAuthResponse =>
        if isClientSide && packet != [] {
          if packet[0] == 0 {
            var ok := ParseOk(packet, seqId, capabilityFlags);
            if ok.Success? {
              state := Command;
              return Success(OkMsg(ok.value));
            }
          } else if packet[0] == 0xff {
            var err := ParseErr(packet, seqId, capabilityFlags);
            if err.Success? {
              return Success(ErrMsg(err.value));
            }
          }
        }
        r := Success(Generic(seqId, packet));
      case Command =>
        if isClientSide && packet != [] && packet[0] !in {0, 0xff, 0xfe} {
          var count := Lenenc.Read(packet);
          if count.Failure? {
            return Failure(count.error);
          }
          if 0 < count.value.0 < 4096 {
            columnCount := count.value.0;
            state := ReadingColumns(columnCount);
            return Success(Generic(seqId, packet));
          }
        }
        r := Success(if packet == [] then Generic(seqId, packet)
                     else if !isClientSide && packet[0] == 3 then Query(seqId, packet[1..])
                     else CommandReply(capabilityFlags, seqId, packet));
      case ReadingColumns(remaining) =>
        r := this.NextColumn(remaining, seqId, packet);
      case ReadingRows =>
        r := this.NextRow(seqId, packet, assembled);
    }

    method FirstReply(seqId: byte, packet: bytes) returns (r: Result<Message>)
      requires state.WaitingHandshakeResponse?
      modifies this`state, this`capabilityFlags
      ensures (View(), r) == DispatchHandshakeResponse(old(View()), seqId, packet)
    {
      if !isClientSide {
        var response := Handshake.ParseHandshakeResponse(packet);
        if response.Failure? {
          return Failure(response.error);
        }
        capabilityFlags, state := response.value.capabilityFlags, Command;
        return Success(ResponseMsg(response.value));
      }
      var first: byte := if packet == [] then 0xff else packet[0];
      r := Success(Generic(seqId, packet));
      if first == 0xff {
        var err := ParseErr(packet, seqId, capabilityFlags);
        if err.Success? {
          r := Success(ErrMsg(err.value));
        }
        return;
      }
      state := Command;
      if first == 0 {
        var ok := ParseOk(packet, seqId, capabilityFlags);
        if ok.Success? {
          r := Success(OkMsg(ok.value));
        }
      }
    }

    method NextColumn(remaining: nat, seqId: byte, packet: bytes) returns (r: Result<Message>)
      requires state == ReadingColumns(remaining)
      modifies this`state
      ensures (View(), r) == DispatchColumns(old(View()), seqId, packet)
    {
      if packet == [] {
        return Failure("empty MySQL packet while reading column definitions");
      }
      var deprecateEof := Has(capabilityFlags, CLIENT_DEPRECATE_EOF);
      if packet[0] == 0xfe && |packet| < 9 && !deprecateEof {
        state := ReadingRows;
        return Success(EofMsg(ParseEof(packet, seqId).value));
      }
      var column := ParseColumn(packet, seqId);
      if column.Failure? {
        return Failure(column.error);
      }
      var left := Handshake.SaturatingSub(remaining, 1);
      if left > 0 {
        state := ReadingColumns(left);
      } else if deprecateEof {
        state := ReadingRows;
      }
      r := Success(ColumnMsg(column.value));
    }

    method NextRow(seqId: byte, packet: bytes, assembled: bool) returns (r: Result<Message>)
      requires state.ReadingRows?
      modifies this`state
      ensures (View(), r) == DispatchRows(old(View()), seqId, packet, assembled)
    {
      if packet == [] {
        return Failure("empty MySQL packet while reading result rows");
      }
      if packet[0] == 0xfe && !assembled {
        state := Command;
        return Success(Generic(seqId, packet));
      }
      if packet[0] == 0xff {
        state := Command;
        var err := ParseErr(packet, seqId, capabilityFlags);
        return Success(if err.Success? then ErrMsg(err.value) else Generic(seqId, packet));
      }
      var buf := new BytesMut();
      buf.data := packet;
      var values := ParseResultRow(buf, columnCount);
      if values.Failure? {
        return Failure(values.error);
      }
      r := Success(ResultRow(seqId, values.value));
    }
  
    method DecodePacket(src: BytesMut) returns (r: Result<Option<Message>>)
      modifies this, src
      ensures (View(), src.data, r) == Decode(old(View()), old(src.data))
    {
      hide Dispatch;
      ghost var start := Decode(View(), src.data);
      while true
        invariant Decode(View(), src.data) == start
        decreases |src.data|
      {
        if |src.data| < 4 {
          return Success(None);
        }
        var payloadLen := FromLE(src.data[..3]);
        var seqId := src.data[3];
        if |src.data| < 4 + payloadLen {
          return Success(None);
        }
        var packet := src.data[4..4 + payloadLen];
        src.data := src.data[4 + payloadLen..];
        if payloadLen == M {
          var so := if pendingLarge.Some? then pendingLarge.value else Pending(seqId, []);
          pendingLarge := Some(so.(payload := so.payload + packet));
          continue;
        }
        var assembled := pendingLarge.Some?;
        if assembled {
          seqId, packet := pendingLarge.value.seqId, pendingLarge.value.payload + packet;
          pendingLarge := None;
        }
        var m := this.DispatchPacket(seqId, packet, assembled);
        return if m.Success? then Success(Some(m.value)) else Failure(m.error);
      }
    }

    /** The read loop around the decoder: decode until more bytes are needed. */
    method Drain(src: BytesMut) returns (messages: seq<Message>, error: Option<string>)
      modifies this, src
      ensures Run(View(), src.data, messages, error) == DecodeAll(old(View()), old(src.data))
    {
      hide Dispatch, Decode, DecodeAll;
      messages, error := [], None;
      ghost var all := DecodeAll(View(), src.data);
      while true
        invariant var more := DecodeAll(View(), src.data); more.(messages := messages + more.messages) == all
        decreases |src.data|
      {
        DecodeAllUnfold(View(), src.data);
        ghost var before := messages;
        var r := this.DecodePacket(src);
        if r.Failure? {
          error := Some(r.error);
          return;
        }
        if r.value.None? {
          return;
        }
        messages := messages + [r.value.value];
        assert forall ms: seq<Message> :: before + ([r.value.value] + ms) == messages + ms;
      }
    }

    method EncodeMessage(m: Message, dst: BytesMut)
      requires Encodable(m)
      modifies this`state, dst
      ensures dst.data == old(dst.data) + Encode(m, capabilityFlags)
      ensures View() == AfterEncode(old(View()), m)
      ensures state == if m.HandshakeMsg? && !isClientSide && old(state).WaitingHandshake? then WaitingHandshakeResponse else old(state)
    {
      match m
      case ResultRow(seqId, values) =>
        EncodeResultRow(seqId, values, dst);
      case Generic(seqId, payload) =>
        WritePacketChunked(dst, payload, seqId);
      case HandshakeMsg(h) =>
        dst.data := dst.data + Handshake.EncodeHandshakeV10(h);
        if !isClientSide && state.WaitingHandshake? {
          state := WaitingHandshakeResponse;
        }
      case _ =>
        dst.data := dst.data + Encode(m, capabilityFlags);
    }
  }

  lemma {:induction false} DecodeAllUnfold(c: Codec, src: bytes)
    ensures var (d, rest, r) := Decode(c, src);
            DecodeAll(c, src) ==
            match r
            case Failure(e) => Run(d, rest, [], Some(e))
            case Success(None) => Run(d, rest, [], None)
            case Success(Some(m)) => var more := DecodeAll(d, rest); more.(messages := [m] + more.messages)
    decreases |src|
  {
    hide Dispatch;
    var s := StepPacket(c, src);
    if s.Silent? {
      DecodeAllUnfold(s.codec, s.rest);
    }
  }
}
