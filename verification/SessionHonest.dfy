/** A client that knows the password gets in, by either way the nonce can reach
    it; and nobody else does. */
module SessionHonest {
  import opened Wrappers
  import opened Bytes
  import opened Framing
  import opened MySqlPackets
  import opened MySqlCodec
  import opened MySqlStreams
  import opened Auth
  import opened Session
  import opened Negotiation
  import opened Handshake
  import ProxyPackets

  lemma ParsedServerVersion(raw: bytes)
    requires ParseHandshakeV10(raw).Success?
    ensures var v := ParseHandshakeV10(raw).value.serverVersion; 0 !in v && IsUtf8(v)
  {
    hide ParseAuthTail, U16At, U32At, IsUtf8;
  }

  /** The handshake the proxy shows reads back, on the client's side, as what the
      proxy meant: its own nonce and plugin, and flags with which the client can
      answer. */
  lemma ClientReadsHello(cfg: Config, w: World, raw: bytes)
    requires ParseHandshakeV10(raw).Success? && GoodNonce(w.nonce)
    ensures var hello := ClientHello(cfg, w, ParseHandshakeV10(raw).value);
            var p := HandshakePayload(hello);
            && ParseHandshakeV10(p) == Success(hello.(raw := p))
            && NonceFromHandshake(hello.authPluginDataPart1, hello.authPluginDataPart2) == w.nonce
            && hello.authPluginName == NameOf(cfg.clientPlugin)
  {
    hide ParseHandshakeV10, HandshakePayload, Has, HelloFlags, NameOf, NonceOf, IsUtf8;
    ParsedServerVersion(raw);
    var h := ParseHandshakeV10(raw).value;
    var hello := ClientHello(cfg, w, h);
    HelloBits(h.capabilityFlags, cfg.tlsAcceptor, CLIENT_SECURE_CONNECTION);
    HelloBits(h.capabilityFlags, cfg.tlsAcceptor, CLIENT_PLUGIN_AUTH);
    assert w.nonce[..8] + w.nonce[8..] == w.nonce;
    GoodNonceKept(w.nonce);
    assert TailKept(hello);
    hide TailKept;
    RebuiltHandshakeParses(hello);
  }

  /** ... also off the wire, exactly when it fits one unfinished packet: the
      encoder writes a single header. */
  lemma ClientDecodesHello(cfg: Config, w: World, raw: bytes, tail: bytes)
    requires ParseHandshakeV10(raw).Success? && GoodNonce(w.nonce)
    ensures var hello := ClientHello(cfg, w, ParseHandshakeV10(raw).value);
            var p := HandshakePayload(hello);
            var m := HandshakeMsg(hello.(raw := p));
            && (|p| < M ==>
                  DecodeAll(NewClient(), EncodeHandshakeV10(hello) + tail)
                  == After((NewClient().(state := WaitingHandshakeResponse), Success(m)), tail))
            && (var run := DecodeAll(NewClient(), EncodeHandshakeV10(hello));
                run.messages != [] && run.messages[0] == m <==> |p| < M)
            && (EncodeHandshakeV10(hello) == Chunked(p, 0) <==> |p| < M)
  {
    hide ParseHandshakeV10, HandshakePayload, ClientHello, NonceFromHandshake, NameOf, Header, DecodeAll, Chunked;
    ClientReadsHello(cfg, w, raw);
    var hello := ClientHello(cfg, w, ParseHandshakeV10(raw).value);
    var p := HandshakePayload(hello);
    SingleHeaderChunks(p, 0);
    if |p| < M {
      Reassembles(NewClient(), p, 0, tail);
      Reassembles(NewClient(), p, 0, []);
      assert EncodeHandshakeV10(hello) + [] == EncodeHandshakeV10(hello);
      HelloDispatched(p);
    } else {
      OversizeNotRead(NewClient(), p, 0);
      var run := DecodeAll(NewClient(), EncodeHandshakeV10(hello));
      if run.messages != [] && run.messages[0] == HandshakeMsg(hello.(raw := p)) {
        assert false;
      }
    }
  }

  lemma HelloDispatched(p: bytes)
    requires ParseHandshakeV10(p).Success?
    ensures Dispatch(NewClient(), 0, p, |p| >= M)
            == (NewClient().(state := WaitingHandshakeResponse), Success(HandshakeMsg(ParseHandshakeV10(p).value)))
  {
    hide ParseHandshakeV10;
  }

  /** Exactly the right user with exactly the right scramble is let in when the
      client names the configured plugin itself. */
  lemma DirectResponseAccepted(cfg: Config, nonce: bytes, s: LoginState, r: HandshakeResponse, firstSeq: byte)
    requires cfg.hashes.Valid() && NoSecondPreimage(cfg.hashes, cfg.clientPlugin, cfg.clientPassword)
    requires OfferedPlugin(r) == NameOf(cfg.clientPlugin)
    ensures AuthenticateClient(cfg, nonce, s, r, firstSeq).1.Accepted? <==>
            r.username == cfg.clientUsername
            && r.authResponse == Scramble(cfg.hashes, cfg.clientPlugin, cfg.clientPassword, nonce)
  {
    hide NameOf, Verify, Scramble;
    VerifiesExactly(cfg.hashes, cfg.clientPlugin, cfg.clientPassword, nonce, r.authResponse);
  }

  /** With any other plugin it is asked to switch: the request reads back as the
      plugin and the nonce, and its next packet decides, whatever its length. */
  lemma SwitchedResponseAccepted(
    cfg: Config, nonce: bytes, s: LoginState, r: HandshakeResponse, firstSeq: byte, seqId: byte, answer: bytes)
    requires cfg.hashes.Valid() && NoSecondPreimage(cfg.hashes, cfg.clientPlugin, cfg.clientPassword) && GoodNonce(nonce)
    requires OfferedPlugin(r) != NameOf(cfg.clientPlugin) && !s.client.isClientSide
    requires s.clientIn != [] && s.clientIn[0] == Arrived(seqId, answer)
    ensures var (s1, v) := AuthenticateClient(cfg, nonce, s, r, firstSeq);
            && |s1.log| > |s.log|
            && s1.log[|s.log|] == ToClient(NextSeq(firstSeq), SwitchRequest(cfg.clientPlugin, nonce))
            && ParseAuthSwitchRequest(BuildAuthSwitchRequest(cfg.clientPlugin, nonce))
               == Success((NameOf(cfg.clientPlugin), nonce))
            && (v.Accepted? <==>
                r.username == cfg.clientUsername
                && answer == Scramble(cfg.hashes, cfg.clientPlugin, cfg.clientPassword, nonce))
  {
    hide NameOf, Verify, Scramble, ParseAuthSwitchRequest, BuildAuthSwitchRequest, ParseOk, ParseErr;
    AuthSwitchRoundTrip(cfg.clientPlugin, nonce);
    VerifiesExactly(cfg.hashes, cfg.clientPlugin, cfg.clientPassword, nonce, answer);
  }

  /** What the proxy answers the server with is accepted by a server that holds
      the same password: its scrambles verify, and its handshake response reads
      back with them whenever they fit their field. */
  lemma UpstreamResponseReads(cfg: Config, h: HandshakeV10, r: HandshakeResponse)
    requires cfg.hashes.Valid() && 0 !in cfg.upstreamUsername && IsUtf8(cfg.upstreamUsername)
    requires PlainField(ChosenDatabase(cfg, r))
    ensures ChosenDatabase(cfg, r) == match r.database
                                      case Some(db) => if db != [] then Some(db) else cfg.upstreamDatabase
                                      case None => cfg.upstreamDatabase
    ensures var database := ChosenDatabase(cfg, r);
            var caps := Negotiate(r.capabilityFlags, h.capabilityFlags, database.Some?, cfg.upstreamTls);
            var response := UpstreamResponse(cfg, h, caps, r, database);
            var p := BuildResponsePayload(response);
            var nonce := NonceFromHandshake(h.authPluginDataPart1, h.authPluginDataPart2);
            && |p| > 32
            && Verify(cfg.hashes, PluginOf(h), cfg.upstreamPassword, nonce, response.authResponse)
            && (Has(h.capabilityFlags, CLIENT_SECURE_CONNECTION) || 0 !in response.authResponse ==>
                  var back := ParseResponseRest(p);
                  && back == Success((response.(database := if Has(h.capabilityFlags, CLIENT_CONNECT_WITH_DB) then database else None,
                                               authPluginName := if Has(h.capabilityFlags, CLIENT_PLUGIN_AUTH)
                                                                 then Some(NameOf(PluginOf(h))) else None,
                                               raw := p), []))
                  && !back.value.0.IsSslRequest())
  {
    hide Has, NameOf, Verify, Scramble, Negotiate, IsUtf8, BuildResponsePayload, ParseResponseRest, NonceFromHandshake, FromName;
    var database := ChosenDatabase(cfg, r);
    var caps := Negotiate(r.capabilityFlags, h.capabilityFlags, database.Some?, cfg.upstreamTls);
    var response := UpstreamResponse(cfg, h, caps, r, database);
    var nonce := NonceFromHandshake(h.authPluginDataPart1, h.authPluginDataPart2);
    ScrambleVerifies(cfg.hashes, PluginOf(h), cfg.upstreamPassword, nonce);
    ScrambleIsShort(cfg.hashes, PluginOf(h), cfg.upstreamPassword, nonce);
    NegotiatedBits(r.capabilityFlags, h.capabilityFlags, database.Some?, cfg.upstreamTls, CLIENT_SECURE_CONNECTION);
    NegotiatedBits(r.capabilityFlags, h.capabilityFlags, database.Some?, cfg.upstreamTls, CLIENT_CONNECT_WITH_DB);
    NegotiatedBits(r.capabilityFlags, h.capabilityFlags, database.Some?, cfg.upstreamTls, CLIENT_PLUGIN_AUTH);
    BuiltResponseParses(response);
  }

  lemma ScrambleIsShort(h: Hashes, p: AuthPlugin, password: bytes, nonce: bytes)
    requires h.Valid()
    ensures |Scramble(h, p, password, nonce)| <= 32
  {
  }

  // ---- The upstream exchange with a server that plays along ----

  /** A packet the loop answers or passes over when `nonce` is the latest: fast-auth
      success, a switch to a plugin it knows, or a full-auth request that can be
      met, over TLS or under the pinned key. */
  predicate Cooperative(cfg: Config, nonce: bytes, p: Incoming) {
    && p.Arrived?
    && (IsKnownSwitch(p.payload)
        || ClassifyAuthMoreData(p.payload) == Some(FastAuthSuccess)
        || (ClassifyAuthMoreData(p.payload) == Some(FullAuthRequired) && FullAuthReply(cfg, nonce).Some?))
  }

  predicate IsKnownSwitch(payload: bytes) {
    var sw := ParseAuthSwitchRequest(payload);
    sw.Success? && FromName(sw.value.0).Some?
  }

  /** The nonce in use after a packet. */
  function NonceAfter(nonce: bytes, p: Incoming): bytes {
    if p.Arrived? && ParseAuthSwitchRequest(p.payload).Success? then ParseAuthSwitchRequest(p.payload).value.1 else nonce
  }

  /** A run of such packets, each judged by the nonce of its time. */
  predicate AllCooperative(cfg: Config, nonce: bytes, ps: seq<Incoming>)
    decreases |ps|
  {
    ps == [] || (Cooperative(cfg, nonce, ps[0]) && AllCooperative(cfg, NonceAfter(nonce, ps[0]), ps[1..]))
  }

  predicate IsOk(p: Incoming, flags: u32) {
    p.Arrived? && p.payload != [] && p.payload[0] == 0 && ParseOk(p.payload, p.seqId, flags).Success?
  }

  lemma CooperativeRead(cfg: Config, s: LoginState, nonce: bytes)
    requires s.upstream.state.WaitingAuthResponse? && s.upstream.isClientSide
    requires s.upstreamIn != [] && Cooperative(cfg, nonce, s.upstreamIn[0])
    ensures var p := s.upstreamIn[0];
            var (s1, got) := ReadUpstream(s);
            && p.Arrived?
            && got == Session.Message(Generic(p.seqId, p.payload))
            && s1.upstream == s.upstream && s1.upstreamIn == s.upstreamIn[1..]
  {
    var p := s.upstreamIn[0];
    assert p.payload != [] && p.payload[0] in {1, 0xfe};
    hide ParseOk, ParseErr, Cooperative;
  }

  lemma CooperativeAnswered(cfg: Config, s: LoginState, p: Incoming, nonce: bytes, plugin: AuthPlugin)
    requires Cooperative(cfg, nonce, p)
    ensures var next := UpstreamPacket(cfg, s, p.seqId, p.payload, nonce, plugin);
            && next.Continue? && next.s.upstream == s.upstream && next.s.upstreamIn == s.upstreamIn
            && next.nonce == NonceAfter(nonce, p)
  {
    hide FromName, NonceOf, FullAuthReply;
  }

  lemma OkRead(s: LoginState)
    requires s.upstream.state.WaitingAuthResponse? && s.upstream.isClientSide
    requires s.upstreamIn != [] && IsOk(s.upstreamIn[0], s.upstream.capabilityFlags)
    ensures var got := ReadUpstream(s).1; got.Message? && got.m.OkMsg?
  {
    hide ParseOk, ParseErr;
  }

  /** Any number of cooperative packets and then OK: the login succeeds exactly
      when the OK is among the twenty packets the loop is willing to read. */
  lemma {:induction false} LoopCompletes(
    cfg: Config, s: LoginState, nonce: bytes, plugin: AuthPlugin, rounds: nat, n: nat)
    requires rounds <= MAX_ROUNDS
    requires s.upstream.state.WaitingAuthResponse? && s.upstream.isClientSide
    requires n < |s.upstreamIn| && AllCooperative(cfg, nonce, s.upstreamIn[..n])
    requires IsOk(s.upstreamIn[n], s.upstream.capabilityFlags)
    ensures UpstreamLoop(cfg, s, nonce, plugin, rounds).1 <==> rounds + n < MAX_ROUNDS
    decreases n
  {
    hide ReadUpstream, UpstreamPacket, Cooperative, IsOk, NonceAfter;
    if rounds < MAX_ROUNDS {
      if n == 0 {
        OkRead(s);
      } else {
        var p := s.upstreamIn[0];
        assert s.upstreamIn[..n][0] == p && s.upstreamIn[..n][1..] == s.upstreamIn[1..][..n - 1];
        CooperativeRead(cfg, s, nonce);
        var s1 := ReadUpstream(s).0;
        CooperativeAnswered(cfg, s1, p, nonce, plugin);
        var next := UpstreamPacket(cfg, s1, p.seqId, p.payload, nonce, plugin);
        LoopCompletes(cfg, next.s, next.nonce, next.plugin, rounds + 1, n - 1);
      }
    }
  }

  // ---- What the client makes of the proxy's answers ----

  const SERVER_STATUS_AUTOCOMMIT: u16 := 2
  const ER_ACCESS_DENIED_ERROR: u16 := 1045

  function ProxyError(seqId: byte, text: bytes): ErrPacket {
    ErrPacket(seqId, ER_ACCESS_DENIED_ERROR, Ascii("28000"), text, [])
  }

  function DeniedText(username: bytes): (t: bytes)
    ensures |t| == |username| + 37
  {
    Ascii("Access denied for user '") + username + Ascii("' (iron-veil)")
  }

  function FailureText(): (t: bytes)
    ensures |t| == 57
  {
    Ascii("iron-veil could not ") + Ascii("authenticate to the ") + Ascii("upstream database")
  }

  function Refusal(seqId: byte, sent: ClientSend): ErrPacket
    requires sent.AccessDenied? || sent.UpstreamFailure?
  {
    ProxyError(seqId, if sent.AccessDenied? then DeniedText(sent.username) else FailureText())
  }

  /** The message the proxy sends for each step of the client leg. */
  function ClientMessage(seqId: byte, sent: ClientSend): (m: MySqlPackets.Message)
    ensures Encodable(m)
  {
    match sent
    case Hello(h) => HandshakeMsg(h)
    case SwitchRequest(plugin, nonce) => Generic(seqId, BuildAuthSwitchRequest(plugin, nonce))
    case AccessDenied(_) => ErrMsg(Refusal(seqId, sent))
    case UpstreamFailure => ErrMsg(Refusal(seqId, sent))
    case FastAuthOk => Generic(seqId, [1, 3])
    case LoginOk => OkMsg(OkPacket(seqId, 0, 0, SERVER_STATUS_AUTOCOMMIT, 0, [], []))
  }

  /** A client in its authentication exchange. */
  predicate Exchanging(c: Codec) {
    c.state.WaitingAuthResponse? && c.isClientSide && c.pending.None?
  }

  function OkSent(seqId: byte): OkPacket {
    OkPacket(seqId, 0, 0, SERVER_STATUS_AUTOCOMMIT, 0, [], [])
  }

  lemma OkIsShort(seqId: byte, flags: u32)
    ensures |OkPayload(OkSent(seqId), flags)| < 9
  {
    hide Has;
  }

  /** The proxy's final OK is the client's OK: decoded from the bytes the proxy
      writes, it ends the exchange with a session in its command phase. */
  lemma LoginOkUnderstood(c: Codec, seqId: byte, tail: bytes)
    requires Exchanging(c)
    ensures var m := ClientMessage(seqId, LoginOk);
            var run := DecodeAll(c, Encode(m, c.capabilityFlags) + tail);
            var more := DecodeAll(c.(state := Command), tail);
            && |run.messages| == 1 + |more.messages|
            && run == more.(messages := run.messages[..1] + more.messages)
            && run.messages[0].OkMsg? && run.messages[0].ok.seqId == seqId && run.messages[0].ok.affectedRows == 0
            && (Has(c.capabilityFlags, CLIENT_PROTOCOL_41) ==> run.messages[0].ok.statusFlags == 2)
  {
    hide Has, OkPayload, ParseOk, DecodeAll, Chunked, Header;
    var o := OkSent(seqId);
    var p := OkPayload(o, c.capabilityFlags);
    OkIsShort(seqId, c.capabilityFlags);
    ProxyPackets.BuiltOkReads(o, c.capabilityFlags);
    ShortIsChunked(p, seqId);
    Reassembles(c, p, seqId, tail);
  }

  lemma ShortIsChunked(p: bytes, seqId: byte)
    requires |p| < M
    ensures Chunked(p, seqId) == Header(|p|, seqId) + p
  {
  }

  /** The fast-auth packet tells the client to wait, not to answer. */
  lemma FastAuthUnderstood(c: Codec, seqId: byte, tail: bytes)
    requires Exchanging(c)
    ensures var m := ClientMessage(seqId, FastAuthOk);
            && DecodeAll(c, Encode(m, c.capabilityFlags) + tail) == After((c, Success(m)), tail)
            && ClassifyAuthMoreData(m.payload) == Some(FastAuthSuccess)
            && ParseAuthSwitchRequest(m.payload).Failure?
  {
    hide DecodeAll, Chunked, ParseOk, ParseErr;
    Reassembles(c, [1, 3], seqId, tail);
  }

  /** How long a refusal is: only the client's own user name can make it too long
      for the single header it is written with. */
  lemma RefusalLength(seqId: byte, sent: ClientSend, flags: u32)
    requires sent.AccessDenied? || sent.UpstreamFailure?
    ensures var n := |ErrPayload(Refusal(seqId, sent), flags)|;
            && (sent.UpstreamFailure? ==> n < M)
            && (sent.AccessDenied? ==> n == |sent.username| + 40 + (if Has(flags, CLIENT_PROTOCOL_41) then 6 else 0))
  {
    hide Has, LE, DeniedText, FailureText;
  }

  /** A refusal, for whatever reason, reads as an ERR packet with the code for
      denied access and leaves the client unauthenticated, if and only if it fits
      one unfinished packet. */
  lemma RefusalUnderstood(c: Codec, seqId: byte, sent: ClientSend, tail: bytes)
    requires Exchanging(c) && (sent.AccessDenied? || sent.UpstreamFailure?)
    ensures ClientMessage(seqId, sent) == ErrMsg(Refusal(seqId, sent))
    ensures var e := Refusal(seqId, sent);
            var p := ErrPayload(e, c.capabilityFlags);
            var run := DecodeAll(c, Encode(ErrMsg(e), c.capabilityFlags) + tail);
            |p| < M ==>
              && run.messages != [] && run.messages[0].ErrMsg?
              && run.messages[0].err.errorCode == 1045 && run.messages[0].err.seqId == seqId
              && run.messages[0].err.errorMessage == e.errorMessage && run.messages[0].err.raw == p
              && run.messages[1..] == DecodeAll(c, tail).messages
    ensures var e := Refusal(seqId, sent);
            var p := ErrPayload(e, c.capabilityFlags);
            var run := DecodeAll(c, Encode(ErrMsg(e), c.capabilityFlags));
            run.messages != [] && run.messages[0].ErrMsg? && run.messages[0].err.raw == p <==> |p| < M
  {
    hide DeniedText, FailureText, Has, ErrPayload, ParseErr, DecodeAll, Chunked, Header, Encode, Encodable;
    var e := Refusal(seqId, sent);
    var p := ErrPayload(e, c.capabilityFlags);
    assert e.raw == [] && e.seqId == seqId && |e.sqlState| == 5 && e.errorCode == ER_ACCESS_DENIED_ERROR;
    RefusalWritten(e, c.capabilityFlags);
    hide Refusal;
    if |p| < M {
      RefusalRead(c, seqId, e, tail);
      RefusalRead(c, seqId, e, []);
      assert Header(|p|, seqId) + p + [] == Header(|p|, seqId) + p;
    } else {
      RefusalLost(c, p, seqId);
    }
  }

  /** A client that is refused is told its own name. */
  lemma RefusalNames(seqId: byte, username: bytes)
    ensures Refusal(seqId, AccessDenied(username)).errorMessage[24..24 + |username|] == username
  {
  }

  lemma RefusalWritten(e: ErrPacket, flags: u32)
    requires e.raw == []
    ensures Encode(ErrMsg(e), flags) == Header(|ErrPayload(e, flags)|, e.seqId) + ErrPayload(e, flags)
  {
    hide Has, ErrPayload, Chunked, Header;
  }

  lemma RefusalLost(c: Codec, p: bytes, seqId: byte)
    requires Exchanging(c) && |p| >= M
    ensures var run := DecodeAll(c, Header(|p|, seqId) + p);
            !(run.messages != [] && run.messages[0].ErrMsg? && run.messages[0].err.raw == p)
  {
    hide DecodeAll, Header, Encodable;
    OversizeNotRead(c, p, seqId);
  }

  lemma RefusalRead(c: Codec, seqId: byte, e: ErrPacket, tail: bytes)
    requires Exchanging(c) && |e.sqlState| == 5 && e.seqId == seqId && |ErrPayload(e, c.capabilityFlags)| < M
    ensures var p := ErrPayload(e, c.capabilityFlags);
            var run := DecodeAll(c, Header(|p|, seqId) + p + tail);
            && run.messages != [] && run.messages[0].ErrMsg?
            && run.messages[0].err.errorCode == e.errorCode && run.messages[0].err.seqId == seqId
            && run.messages[0].err.errorMessage == e.errorMessage && run.messages[0].err.raw == p
            && run.messages[1..] == DecodeAll(c, tail).messages
  {
    hide Has, ErrPayload, ParseErr, DecodeAll, Chunked, Header;
    var p := ErrPayload(e, c.capabilityFlags);
    ProxyPackets.BuiltErrReads(e, c.capabilityFlags);
    ShortIsChunked(p, seqId);
    Reassembles(c, p, seqId, tail);
  }
}
