/** The initial handshake (server to client) and the handshake response
    (client to server): parsers, encoders and how they undo each other. */
module Handshake {
  import opened Wrappers
  import opened Bytes
  import Bits
  import opened Framing
  import opened MySqlPackets

  function Max(a: nat, b: nat): nat {
    if a > b then a else b
  }

  function SaturatingSub(a: nat, b: nat): nat {
    if a > b then a - b else 0
  }

  function UntilNul(s: bytes): bytes {
    s[..FirstNul(s)]
  }

  function OrEmpty(r: Result<bytes>): bytes {
    if r.Success? then r.value else []
  }

  // ---- HandshakeV10 ----

  /** Everything after the fixed fields: auth data part 2 and the plugin name. */
  function ParseAuthTail(flags: u32, authDataLen: byte, s: bytes): (bytes, bytes) {
    var part2Len := if Has(flags, CLIENT_SECURE_CONNECTION) then Max(13, SaturatingSub(authDataLen, 8)) else 0;
    var present := part2Len > 0 && |s| >= part2Len;
    var part2 := if present then UntilNul(s[..part2Len]) else [];
    var rest := if present then s[part2Len..] else s;
    var name := if Has(flags, CLIENT_PLUGIN_AUTH) && rest != [] then OrEmpty(ReadNulString(rest).0) else [];
    (part2, name)
  }

  /** The fixed fields: connection id, nonce part 1, a filler, then the
      capability halves around character set and status, and 10 reserved bytes. */
  function ParseFixed(version: byte, server: bytes, s: bytes, raw: bytes): (r: Result<HandshakeV10>)
    ensures r.Success? <==> |s| >= 31
  {
    if |s| < 13 then Failure("truncated handshake: missing connection id / auth data")
    else if |s| < 31 then Failure("truncated handshake: missing capability/status fields")
    else
      var flags: u32 := U16At(s, 13) + 0x1_0000 * U16At(s, 18);
      var (part2, name) := ParseAuthTail(flags, s[20], s[31..]);
      Success(HandshakeV10(version, server, U32At(s, 0), s[4..12], flags, s[15], U16At(s, 16), part2, name, raw))
  }

  function ParseHandshakeV10(raw: bytes): (r: Result<HandshakeV10>)
    ensures r.Success? ==> r.value.raw == raw
  {
    if raw == [] then Failure("truncated handshake: missing protocol version") else
    var (server, rest) := ReadNulString(raw[1..]);
    if server.Failure? then Failure(server.error)
    else ParseFixed(raw[0], server.value, rest, raw)
  }

  /** Offset of the low capability bytes in a handshake payload. */
  function FlagsOffset(raw: bytes): nat
    requires raw != []
  {
    1 + FirstNul(raw[1..]) + 1 + 4 + 8 + 1
  }

  function PatchFlags(raw: bytes, off: nat, flags: u32): (p: bytes)
    requires off + 7 <= |raw|
    ensures |p| == |raw|
    ensures forall i | 0 <= i < |raw| && i !in {off, off + 1, off + 5, off + 6} :: p[i] == raw[i]
  {
    var w := LE(flags, 4);
    raw[off := w[0]][off + 1 := w[1]][off + 5 := w[2]][off + 6 := w[3]]
  }

  /** The handshake payload: the received one with its capability bytes
      replaced, or one rebuilt from the fields. */
  function HandshakePayload(h: HandshakeV10): bytes {
    if h.raw != [] && FirstNul(h.raw[1..]) < |h.raw| - 1 && |h.raw| >= FlagsOffset(h.raw) + 7
    then PatchFlags(h.raw, FlagsOffset(h.raw), h.capabilityFlags)
    else
      [h.protocolVersion] + h.serverVersion + [0] + FixedFields(h) + AuthTail(h)
  }

  const ZEROS_10: bytes := [0, 0, 0, 0, 0, 0, 0, 0, 0, 0]

  /** The length byte covers both nonce parts and a terminator, modulo 256. */
  function TailLength(h: HandshakeV10): byte {
    (|h.authPluginDataPart2| + 8 + 1) % 256
  }

  function FixedFields(h: HandshakeV10): (s: bytes)
  {
    LE(h.connectionId, 4) + h.authPluginDataPart1 + [0] + LE(h.capabilityFlags, 4)[..2] + [h.characterSet]
    + LE(h.statusFlags, 2) + LE(h.capabilityFlags, 4)[2..] + [TailLength(h)] + ZEROS_10
  }

  function AuthTail(h: HandshakeV10): bytes {
    h.authPluginDataPart2 + [0] + (if h.authPluginName != [] then h.authPluginName + [0] else [])
  }

  function EncodeHandshakeV10(h: HandshakeV10): bytes {
    var payload := HandshakePayload(h);
    Header(|payload|, 0) + payload
  }

  /** Where things are in a payload that parses. */
  lemma ParsedShape(raw: bytes)
    requires ParseHandshakeV10(raw).Success?
    ensures var (server, rest) := ReadNulString(raw[1..]); var off := FlagsOffset(raw);
            && server.Success? && |rest| >= 31 && 14 <= off && off + 18 <= |raw|
            && FirstNul(raw[1..]) < |raw| - 1
            && rest == raw[off - 13..] && raw[1..off - 13] == server.value + [0]
            && ParseHandshakeV10(raw) == ParseFixed(raw[0], server.value, rest, raw)
  {
    hide ParseFixed;
    var (server, rest) := ReadNulString(raw[1..]);
    FirstNulAfter(server.value, rest);
    var off := FlagsOffset(raw);
    assert raw[1..] == (server.value + [0]) + rest;
    assert raw[1..][..off - 14] == raw[1..off - 13];
    assert raw[1..][off - 14..] == raw[off - 13..];
  }

  /** Writing new capability flags into a parsed handshake changes nothing but
      the four capability bytes, and with the same flags nothing at all. */
  lemma PatchTouchesOnlyFlags(raw: bytes, flags: u32)
    requires ParseHandshakeV10(raw).Success?
    ensures var h := ParseHandshakeV10(raw).value;
            var p := HandshakePayload(h.(capabilityFlags := flags));
            var off := FlagsOffset(raw);
            && |p| == |raw| && off + 7 <= |raw|
            && (forall i | 0 <= i < |raw| && i !in {off, off + 1, off + 5, off + 6} :: p[i] == raw[i])
            && p == PatchFlags(raw, off, flags)
            && (flags == h.capabilityFlags ==> p == raw)
  {
    hide ReadNulString, ParseHandshakeV10, ParseFixed, FromLE, LE, PatchFlags;
    ParsedShape(raw);
    var off := FlagsOffset(raw);
    var h := ParseHandshakeV10(raw).value;
    assert HandshakePayload(h.(capabilityFlags := flags)) == PatchFlags(raw, off, flags);
    hide HandshakePayload, FlagsOffset, FirstNul;
    ParsedFlags(raw[0], ReadNulString(raw[1..]).0.value, raw[off - 13..], raw);
    PatchSameFlags(raw, off, raw[off - 13..]);
  }

  lemma ParsedFlags(version: byte, server: bytes, s: bytes, raw: bytes)
    requires |s| >= 31
    ensures ParseFixed(version, server, s, raw).value.capabilityFlags == U16At(s, 13) + 0x1_0000 * U16At(s, 18)
  {
    hide ParseAuthTail, FromLE;
  }

  lemma PatchSameFlags(raw: bytes, off: nat, rest: bytes)
    requires 13 <= off && off + 18 <= |raw| && rest == raw[off - 13..]
    ensures PatchFlags(raw, off, U16At(rest, 13) + 0x1_0000 * U16At(rest, 18)) == raw
  {
    var w := [rest[13], rest[14], rest[18], rest[19]];
    Word(rest, 13, 18);
    FromLEBound(w);
    hide U16At, FromLE, LE;
    assert raw[off] == w[0] && raw[off + 1] == w[1] && raw[off + 5] == w[2] && raw[off + 6] == w[3];
  }

  /** Two 16-bit halves make one 32-bit word. */
  lemma Word(s: bytes, i: nat, j: nat)
    requires i + 2 <= |s| && j + 2 <= |s|
    ensures U16At(s, i) + 0x1_0000 * U16At(s, j) == FromLE([s[i], s[i + 1], s[j], s[j + 1]])
  {
    var w := [s[i], s[i + 1], s[j], s[j + 1]];
    assert w[1..] == [s[i + 1], s[j], s[j + 1]] && w[1..][1..] == s[j..j + 2];
    assert FromLE(w) == s[i] + 256 * FromLE(w[1..]);
    assert FromLE(w[1..]) == s[i + 1] + 256 * FromLE(w[1..][1..]);
    var h := s[i..i + 2];
    assert h[1..] == [s[i + 1]] && h[1..][1..] == [];
    assert FromLE(h[1..]) == s[i + 1];
  }

  /** Re-parsing the patched payload gives the new flags; every other fixed
      field is as before, and so are the variable ones as long as the bits that
      say how to read them are kept. */
  lemma PatchThenParse(raw: bytes, flags: u32)
    requires ParseHandshakeV10(raw).Success?
    ensures var h := ParseHandshakeV10(raw).value;
            var p := HandshakePayload(h.(capabilityFlags := flags));
            && ParseHandshakeV10(p).Success?
            && PatchedFrom(ParseHandshakeV10(p).value, h, flags, p)
  {
    hide LE, FromLE, Has, ParseFixed, PatchFlags, HandshakePayload, PatchedFrom, ParseHandshakeV10, IsUtf8, FirstNul;
    ParsedShape(raw);
    PatchTouchesOnlyFlags(raw, flags);
    var p := HandshakePayload(ParseHandshakeV10(raw).value.(capabilityFlags := flags));
    var (server, rest) := ReadNulString(raw[1..]);
    PatchedReparse(raw, FlagsOffset(raw), server.value, rest, p, flags);
  }

  lemma PatchedReparse(raw: bytes, off: nat, server: bytes, rest: bytes, p: bytes, flags: u32)
    requires 14 <= off && off + 18 <= |raw| && rest == raw[off - 13..] && raw[1..off - 13] == server + [0]
    requires 0 !in server && IsUtf8(server)
    requires p == PatchFlags(raw, off, flags)
    ensures ParseHandshakeV10(p).Success?
    ensures PatchedFrom(ParseHandshakeV10(p).value, ParseFixed(raw[0], server, rest, raw).value, flags, p)
  {
    hide ParseFixed, PatchedFrom, LE, ReadNulString, IsUtf8;
    var rest' := p[off - 13..];
    assert p[1..] == p[1..off - 13] + rest' && p[1..off - 13] == raw[1..off - 13];
    ReadNulStringRoundTrip(server, rest');
    PatchFixed(raw[0], server, rest, rest', raw, p, flags);
  }

  /** What patching keeps: all fields but the flags, and the variable ones too
      when the bits that say how to read them are kept. */
  predicate PatchedFrom(g: HandshakeV10, h: HandshakeV10, flags: u32, p: bytes) {
    && g == h.(capabilityFlags := flags, raw := p, authPluginDataPart2 := g.authPluginDataPart2,
               authPluginName := g.authPluginName)
    && ((Has(flags, CLIENT_SECURE_CONNECTION) <==> Has(h.capabilityFlags, CLIENT_SECURE_CONNECTION)) &&
        (Has(flags, CLIENT_PLUGIN_AUTH) <==> Has(h.capabilityFlags, CLIENT_PLUGIN_AUTH))
        ==> g == h.(capabilityFlags := flags, raw := p))
  }

  lemma PatchFixed(version: byte, server: bytes, s: bytes, t: bytes, raw: bytes, p: bytes, flags: u32)
    requires |s| == |t| >= 31
    requires forall i | 0 <= i < |s| && i !in {13, 14, 18, 19} :: t[i] == s[i]
    requires [t[13], t[14], t[18], t[19]] == LE(flags, 4)
    ensures var h := ParseFixed(version, server, s, raw).value;
            PatchedFrom(ParseFixed(version, server, t, p).value, h, flags, p)
  {
    hide Has, ParseAuthTail, FromLE, LE, U16At, U32At;
    Word(t, 13, 18);
    Pow256Values();
    LERoundTrip(flags, 4);
    SameTail(flags, U16At(s, 13) + 0x1_0000 * U16At(s, 18), s[20], s[31..]);
    assert t[4..12] == s[4..12] && t[31..] == s[31..];
    SameWords(s, t);
  }

  lemma SameWords(s: bytes, t: bytes)
    requires |s| == |t| >= 31 && t[0..4] == s[0..4] && t[16..18] == s[16..18]
    ensures U32At(t, 0) == U32At(s, 0) && U16At(t, 16) == U16At(s, 16)
  {
    hide FromLE;
  }

  lemma SameTail(f: u32, g: u32, authDataLen: byte, s: bytes)
    ensures (Has(f, CLIENT_SECURE_CONNECTION) <==> Has(g, CLIENT_SECURE_CONNECTION)) &&
            (Has(f, CLIENT_PLUGIN_AUTH) <==> Has(g, CLIENT_PLUGIN_AUTH))
            ==> ParseAuthTail(f, authDataLen, s) == ParseAuthTail(g, authDataLen, s)
  {
    hide Has;
  }

  /** What the parser can find again behind the fixed fields: nothing at all, or
      a nonce part of 12 to 246 bytes without zeros, announced by its bit, and a
      plugin name, if there is one, announced by its. */
  predicate TailKept(h: HandshakeV10) {
    || (h.authPluginDataPart2 == [] && h.authPluginName == [])
    || (&& Has(h.capabilityFlags, CLIENT_SECURE_CONNECTION)
        && 12 <= |h.authPluginDataPart2| <= 246 && 0 !in h.authPluginDataPart2
        && (h.authPluginName == [] || Has(h.capabilityFlags, CLIENT_PLUGIN_AUTH)))
  }

  /** A handshake rebuilt from its fields reads back as those fields if and only
      if its tail can be found; the fixed fields always do. The client sees the
      proxy's own nonce and plugin this way. */
  lemma RebuiltHandshakeParses(h: HandshakeV10)
    requires h.raw == [] && |h.authPluginDataPart1| == 8
    requires 0 !in h.serverVersion && IsUtf8(h.serverVersion)
    requires 0 !in h.authPluginName && IsUtf8(h.authPluginName)
    ensures var p := HandshakePayload(h); var back := ParseHandshakeV10(p);
            && back.Success?
            && back.value == h.(raw := p, authPluginDataPart2 := back.value.authPluginDataPart2,
                                authPluginName := back.value.authPluginName)
            && (back.value == h.(raw := p) <==> TailKept(h))
  {
    hide Has, IsUtf8, ParseFixed, FixedFields, AuthTail, TailKept;
    var p := HandshakePayload(h);
    var rest := FixedFields(h) + AuthTail(h);
    RebuiltShape(h);
    hide HandshakePayload;
    ReadNulStringRoundTrip(h.serverVersion, rest);
    hide ReadNulString;
    FixedFieldsParse(h, p);
    AuthTailParses(h);
  }

  lemma RebuiltShape(h: HandshakeV10)
    requires h.raw == []
    ensures var p := HandshakePayload(h);
            p != [] && p[0] == h.protocolVersion && p[1..] == h.serverVersion + [0] + (FixedFields(h) + AuthTail(h))
  {
    hide FixedFields, AuthTail;
    var rest := FixedFields(h) + AuthTail(h);
    assert HandshakePayload(h) == [h.protocolVersion] + (h.serverVersion + [0] + rest);
  }

  lemma FixedFieldsParse(h: HandshakeV10, p: bytes)
    requires |h.authPluginDataPart1| == 8
    ensures var (part2, name) := ParseAuthTail(h.capabilityFlags, TailLength(h), AuthTail(h));
            ParseFixed(h.protocolVersion, h.serverVersion, FixedFields(h) + AuthTail(h), p)
            == Success(h.(raw := p, authPluginDataPart2 := part2, authPluginName := name))
  {
    hide Has, LE, FromLE, AuthTail, IsUtf8, ParseAuthTail;
    var s := FixedFields(h) + AuthTail(h);
    var w := LE(h.capabilityFlags, 4);
    Pow256Values();
    LERoundTrip(h.connectionId, 4);
    LERoundTrip(h.capabilityFlags, 4);
    LERoundTrip(h.statusFlags, 2);
    Word(s, 13, 18);
    assert s[0..4] == LE(h.connectionId, 4) && s[4..12] == h.authPluginDataPart1;
    assert [s[13], s[14], s[18], s[19]] == w && s[16..18] == LE(h.statusFlags, 2);
    assert s[31..] == AuthTail(h) && s[20] == TailLength(h);
  }

  lemma AuthTailParses(h: HandshakeV10)
    requires 0 !in h.authPluginName && IsUtf8(h.authPluginName)
    ensures ParseAuthTail(h.capabilityFlags, TailLength(h), AuthTail(h)) == (h.authPluginDataPart2, h.authPluginName)
            <==> TailKept(h)
  {
    hide Has, IsUtf8;
    var n := |h.authPluginDataPart2|;
    if Has(h.capabilityFlags, CLIENT_SECURE_CONNECTION) && 12 <= n <= 246 {
      LongTailParses(h);
    } else {
      OtherTailParses(h);
    }
  }

  lemma LongTailParses(h: HandshakeV10)
    requires 0 !in h.authPluginName && IsUtf8(h.authPluginName)
    requires Has(h.capabilityFlags, CLIENT_SECURE_CONNECTION) && 12 <= |h.authPluginDataPart2| <= 246
    ensures ParseAuthTail(h.capabilityFlags, TailLength(h), AuthTail(h)) == (h.authPluginDataPart2, h.authPluginName)
            <==> TailKept(h)
  {
    hide Has, IsUtf8, UntilNul, ReadNulString;
    var t := AuthTail(h);
    var n := |h.authPluginDataPart2| + 1;
    assert t[..n] == h.authPluginDataPart2 + [0];
    UntilNulOf(h.authPluginDataPart2);
    if h.authPluginName != [] {
      assert t[n..] == h.authPluginName + [0] + [];
      ReadNulStringRoundTrip(h.authPluginName, []);
    } else {
      assert t[n..] == [];
    }
    hide AuthTail;
    assert Max(13, SaturatingSub(TailLength(h), 8)) == n;
  }

  lemma UntilNulOf(s: bytes)
    ensures UntilNul(s + [0]) == s <==> 0 !in s
  {
    hide FirstNul;
    if 0 !in s {
      FirstNulAfter(s, []);
      assert s + [0] + [] == s + [0];
    }
  }

  lemma OtherTailParses(h: HandshakeV10)
    requires 0 !in h.authPluginName && IsUtf8(h.authPluginName)
    requires !Has(h.capabilityFlags, CLIENT_SECURE_CONNECTION) || !(12 <= |h.authPluginDataPart2| <= 246)
    ensures ParseAuthTail(h.capabilityFlags, TailLength(h), AuthTail(h)) == (h.authPluginDataPart2, h.authPluginName)
            <==> h.authPluginDataPart2 == [] && h.authPluginName == []
  {
    hide Has, IsUtf8;
    var (part2, name) := ParseAuthTail(h.capabilityFlags, TailLength(h), AuthTail(h));
    var n := |h.authPluginDataPart2|;
    if n == 0 {
    } else {
      assert n > 246 ==> |part2| < n;
    }
  }

  // ---- HandshakeResponse ----

  const ZEROS_23: bytes := [0, 0, 0, 0, 0, 0, 0, 0, 0, 0, 0, 0, 0, 0, 0, 0, 0, 0, 0, 0, 0, 0, 0]

  /** The 32 bytes every response starts with. */
  function ResponsePrefix(flags: u32, maxPacketSize: u32, characterSet: byte): (s: bytes)
    ensures |s| == 32
  {
    LE(flags, 4) + LE(maxPacketSize, 4) + [characterSet] + ZEROS_23
  }

  /** The 32-byte SSLRequest the proxy sends before its own TLS handshake. */
  function BuildSslRequest(flags: u32, maxPacketSize: u32, characterSet: byte): (m: Message)
    ensures m.Generic? && |m.payload| == 32 && m.seqId == 1
  {
    Generic(1, ResponsePrefix(SetSsl(flags), maxPacketSize, characterSet))
  }

  function SetSsl(flags: u32): u32 {
    Bits.Pow2Values();
    Bits.Bitwise(Bits.Or, flags, Bits.Pow2(CLIENT_SSL), 32)
  }

  function AuthField(flags: u32, auth: bytes): bytes {
    if Has(flags, CLIENT_SECURE_CONNECTION) then [|auth| % 256] + auth else auth + [0]
  }

  function StringField(flags: u32, flag: nat, value: Option<bytes>): bytes {
    if Has(flags, flag) then (if value.Some? then value.value else []) + [0] else []
  }

  function BuildResponsePayload(r: HandshakeResponse): bytes {
    ResponsePrefix(r.capabilityFlags, r.maxPacketSize, r.characterSet) + r.username + [0]
    + AuthField(r.capabilityFlags, r.authResponse)
    + StringField(r.capabilityFlags, CLIENT_CONNECT_WITH_DB, r.database)
    + StringField(r.capabilityFlags, CLIENT_PLUGIN_AUTH, r.authPluginName)
  }

  /** A response forwarded or built, as one packet with sequence id 1. */
  function EncodeResponse(r: HandshakeResponse): bytes {
    var payload := if r.raw != [] then r.raw else BuildResponsePayload(r);
    Header(|payload|, 1) + payload
  }

  function ParseAuthField(flags: u32, s: bytes): (r: Result<(bytes, bytes)>) {
    if Has(flags, CLIENT_SECURE_CONNECTION) then
      if s == [] then Failure("truncated handshake response: missing auth length")
      else if |s| - 1 < s[0] then Failure("truncated handshake response: short auth response")
      else Success((s[1..1 + s[0]], s[1 + s[0]..]))
    else
      var i := FirstNul(s);
      Success((s[..i], if i < |s| then s[i + 1..] else []))
  }

  /** An optional trailing string: read when its flag is set and bytes are left. */
  function ParseStringField(flags: u32, flag: nat, s: bytes): (Option<bytes>, bytes) {
    if Has(flags, flag) && s != [] then
      var (v, rest) := ReadNulString(s);
      (Some(OrEmpty(v)), rest)
    else (None, s)
  }

  /** The parsed response, with the bytes the parser left unread. */
  function ParseResponseRest(raw: bytes): (r: Result<(HandshakeResponse, bytes)>)
    ensures r.Success? ==> r.value.0.raw == raw && |raw| >= 32
  {
    if |raw| < 32 then Failure("truncated handshake response") else
    var flags, maxPacketSize, characterSet := U32At(raw, 0), U32At(raw, 4), raw[8];
    if |raw| == 32 && Has(flags, CLIENT_SSL)
    then Success((HandshakeResponse(flags, maxPacketSize, characterSet, [], [], None, None, raw), []))
    else ParseResponseBody(flags, maxPacketSize, characterSet, raw[32..], raw)
  }

  function ParseResponseBody(flags: u32, maxPacketSize: u32, characterSet: byte, s: bytes, raw: bytes)
    : (r: Result<(HandshakeResponse, bytes)>)
    ensures r.Success? ==> r.value.0.raw == raw && r.value.0.capabilityFlags == flags
  {
    var (username, s1) := ReadNulString(s);
    if username.Failure? then Failure(username.error) else
    var (auth, s2) :- ParseAuthField(flags, s1);
    var (database, s3) := ParseStringField(flags, CLIENT_CONNECT_WITH_DB, s2);
    var (plugin, s4) := ParseStringField(flags, CLIENT_PLUGIN_AUTH, s3);
    Success((HandshakeResponse(flags, maxPacketSize, characterSet, username.value, auth, database, plugin, raw), s4))
  }

  function ParseHandshakeResponse(raw: bytes): (r: Result<HandshakeResponse>)
    ensures r.Success? ==> r.value.raw == raw
  {
    var (response, _) :- ParseResponseRest(raw);
    Success(response)
  }

  /** A string field the proxy may put in a response. */
  predicate PlainField(v: Option<bytes>) {
    v.Some? ==> 0 !in v.value && IsUtf8(v.value)
  }

  /** What a string field reads back as: nothing without its flag, and the
      empty string when the flag is set but there was no value. */
  function FieldAsRead(flags: u32, flag: nat, v: Option<bytes>): Option<bytes> {
    if !Has(flags, flag) then None else if v.Some? then v else Some([])
  }

  /** The auth bytes survive the trip: a length byte can hold at most 255 of
      them, and without CLIENT_SECURE_CONNECTION they end at the first NUL. */
  predicate AuthFits(flags: u32, auth: bytes) {
    if Has(flags, CLIENT_SECURE_CONNECTION) then |auth| < 256 else 0 !in auth
  }

  lemma StringFieldRoundTrip(flags: u32, flag: nat, v: Option<bytes>, tail: bytes)
    requires PlainField(v)
    ensures Has(flags, flag) || tail == [] ==>
              ParseStringField(flags, flag, StringField(flags, flag, v) + tail) == (FieldAsRead(flags, flag, v), tail)
    ensures !Has(flags, flag) ==> StringField(flags, flag, v) + tail == tail
  {
    hide Has, IsUtf8;
    if Has(flags, flag) {
      var text := if v.Some? then v.value else [];
      assert IsUtf8(text) by { AsciiIsUtf8([]); }
      ReadNulStringRoundTrip(text, tail);
    } else {
      assert StringField(flags, flag, v) + tail == tail;
    }
  }

  lemma AuthFieldRoundTrip(flags: u32, auth: bytes, tail: bytes)
    requires AuthFits(flags, auth)
    ensures ParseAuthField(flags, AuthField(flags, auth) + tail) == Success((auth, tail))
  {
    hide Has;
    var s := AuthField(flags, auth) + tail;
    if Has(flags, CLIENT_SECURE_CONNECTION) {
      assert s[1..1 + |auth|] == auth && s[1 + |auth|..] == tail;
    } else {
      FirstNulAfter(auth, tail);
      assert s == auth + [0] + tail;
      assert s[..|auth|] == auth && s[|auth| + 1..] == tail;
    }
  }

  /** When the auth bytes do not fit, what is read back is something else. */
  lemma AuthFieldLost(flags: u32, auth: bytes, tail: bytes)
    requires !AuthFits(flags, auth)
    ensures var r := ParseAuthField(flags, AuthField(flags, auth) + tail);
            r.Success? ==> r.value.0 != auth
  {
    hide Has;
    var s := AuthField(flags, auth) + tail;
    if !Has(flags, CLIENT_SECURE_CONNECTION) {
      var i := FirstNul(s);
      assert 0 in auth && 0 !in s[..i];
    }
  }

  /** The proxy's own response reads back as what was put in, with every byte
      consumed, and is never taken for an SSLRequest. It loses the auth bytes
      exactly when they do not fit their field. */
  lemma BuiltResponseParses(r: HandshakeResponse)
    requires r.raw == [] && 0 !in r.username && IsUtf8(r.username)
    requires PlainField(r.database) && PlainField(r.authPluginName)
    ensures var p := BuildResponsePayload(r); var back := ParseResponseRest(p);
            && |p| > 32
            && (back.Success? && back.value.0.authResponse == r.authResponse
                <==> AuthFits(r.capabilityFlags, r.authResponse))
            && (AuthFits(r.capabilityFlags, r.authResponse) ==>
                  && back == Success((r.(database := FieldAsRead(r.capabilityFlags, CLIENT_CONNECT_WITH_DB, r.database),
                                         authPluginName := FieldAsRead(r.capabilityFlags, CLIENT_PLUGIN_AUTH, r.authPluginName),
                                         raw := p), []))
                  && !back.value.0.IsSslRequest())
  {
    hide Has, LE, FromLE, IsUtf8, ReadNulString, ParseAuthField, ParseStringField, AuthField, StringField, AuthFits;
    var flags := r.capabilityFlags;
    var p := BuildResponsePayload(r);
    var plugin := StringField(flags, CLIENT_PLUGIN_AUTH, r.authPluginName);
    var database := StringField(flags, CLIENT_CONNECT_WITH_DB, r.database);
    var body := AuthField(flags, r.authResponse) + (database + plugin);
    Pow256Values();
    LERoundTrip(flags, 4);
    LERoundTrip(r.maxPacketSize, 4);
    assert p == ResponsePrefix(flags, r.maxPacketSize, r.characterSet) + (r.username + [0] + body);
    assert p[0..4] == LE(flags, 4) && p[4..8] == LE(r.maxPacketSize, 4) && p[8] == r.characterSet;
    assert p[32..] == r.username + [0] + body;
    ReadNulStringRoundTrip(r.username, body);
    if AuthFits(flags, r.authResponse) {
      AuthFieldRoundTrip(flags, r.authResponse, database + plugin);
      OptionalFieldsRoundTrip(flags, r.database, r.authPluginName);
    } else {
      AuthFieldLost(flags, r.authResponse, database + plugin);
    }
  }

  lemma OptionalFieldsRoundTrip(flags: u32, database: Option<bytes>, plugin: Option<bytes>)
    requires PlainField(database) && PlainField(plugin)
    ensures var s := StringField(flags, CLIENT_CONNECT_WITH_DB, database) + StringField(flags, CLIENT_PLUGIN_AUTH, plugin);
            var (d, s1) := ParseStringField(flags, CLIENT_CONNECT_WITH_DB, s);
            var (n, s2) := ParseStringField(flags, CLIENT_PLUGIN_AUTH, s1);
            && d == FieldAsRead(flags, CLIENT_CONNECT_WITH_DB, database)
            && n == FieldAsRead(flags, CLIENT_PLUGIN_AUTH, plugin) && s2 == []
  {
    hide Has, IsUtf8, ReadNulString;
    var tail := StringField(flags, CLIENT_PLUGIN_AUTH, plugin);
    StringFieldRoundTrip(flags, CLIENT_CONNECT_WITH_DB, database, tail);
    StringFieldRoundTrip(flags, CLIENT_PLUGIN_AUTH, plugin, []);
    assert tail + [] == tail;
  }
}
