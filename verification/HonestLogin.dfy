/** A whole login between honest peers, from the server's greeting to the
    client's OK. */
module HonestLogin {
  import opened Wrappers
  import opened Bytes
  import opened MySqlPackets
  import opened MySqlCodec
  import opened Auth
  import opened Session
  import opened Negotiation
  import opened Handshake
  import opened SessionHonest

  /** The log ends with the proxy telling the client so. */
  predicate EndsWith(log: seq<Event>, sent: ClientSend) {
    log != [] && log[|log| - 1].ToClient? && log[|log| - 1].sent == sent
  }

  /** Upstream the proxy gets through: TLS comes up where it is configured, and the
      server says OK after `n` packets that the loop can deal with. */
  ghost predicate ServerWilling(cfg: Config, w: World, h: HandshakeV10, r: HandshakeResponse, upstreamIn: seq<Incoming>, n: nat) {
    var caps := Negotiate(r.capabilityFlags, h.capabilityFlags, ChosenDatabase(cfg, r).Some?, cfg.upstreamTls);
    && (cfg.upstreamTls ==> Has(h.capabilityFlags, CLIENT_SSL) && !w.upstreamEarlyData && w.upstreamTlsOk)
    && n < |upstreamIn|
    && AllCooperative(cfg, NonceFromHandshake(h.authPluginDataPart1, h.authPluginDataPart2), upstreamIn[..n])
    && IsOk(upstreamIn[n], caps)
  }

  lemma UpstreamCompletes(cfg: Config, s: LoginState, h: HandshakeV10, r: HandshakeResponse, w: World, n: nat)
    requires s.upstream.isClientSide && ServerWilling(cfg, w, h, r, s.upstreamIn, n)
    ensures AuthenticateUpstream(cfg, s, h, r).1 <==> n < MAX_ROUNDS
  {
    hide UpstreamLoop, AllCooperative, IsOk, Negotiate, NonceFromHandshake, NameOf, FromName, Scramble;
    var nonce := NonceFromHandshake(h.authPluginDataPart1, h.authPluginDataPart2);
    var database := ChosenDatabase(cfg, r);
    var caps := Negotiate(r.capabilityFlags, h.capabilityFlags, database.Some?, cfg.upstreamTls);
    var s1 := s.(upstream := s.upstream.(capabilityFlags := caps, state := WaitingAuthResponse))
               .Record(ToUpstream(ResponseSeq(cfg), Response(UpstreamResponse(cfg, h, caps, r, database), PluginOf(h), nonce)));
    LoopCompletes(cfg, s1, nonce, PluginOf(h), 0, n);
  }

  lemma UpgradeComes(cfg: Config, w: World, s: LoginState, h: HandshakeV10, r: HandshakeResponse)
    requires cfg.upstreamTls ==> Has(h.capabilityFlags, CLIENT_SSL) && !w.upstreamEarlyData && w.upstreamTlsOk
    requires s.upstream.isClientSide
    ensures var (s1, connected) := UpgradeUpstream(cfg, w, s, h, r);
            connected && s1.upstream.isClientSide && s1.upstreamIn == s.upstreamIn
  {
    hide Has, BuildSslRequest;
  }

  lemma Concluded(cfg: Config, s: LoginState, ok: bool, clientSeq: byte)
    ensures EndsWith(Conclude(cfg, s, ok, clientSeq).log, if ok then LoginOk else UpstreamFailure)
  {
  }

  lemma UpstreamLegCompletes(cfg: Config, w: World, s: LoginState, h: HandshakeV10, r: HandshakeResponse, clientSeq: byte, n: nat)
    requires s.upstream.isClientSide && ServerWilling(cfg, w, h, r, s.upstreamIn, n)
    ensures EndsWith(LogInUpstream(cfg, w, s, h, r, clientSeq).log, if n < MAX_ROUNDS then LoginOk else UpstreamFailure)
  {
    assert cfg.upstreamTls ==> Has(h.capabilityFlags, CLIENT_SSL) && !w.upstreamEarlyData && w.upstreamTlsOk;
    hide UpgradeUpstream, AuthenticateUpstream, Conclude, ServerWilling, EndsWith, Has;
    UpgradeComes(cfg, w, s, h, r);
    var s1 := UpgradeUpstream(cfg, w, s, h, r).0;
    UpstreamCompletes(cfg, s1, h, r, w, n);
    var (s2, ok) := AuthenticateUpstream(cfg, s1, h, r);
    Concluded(cfg, s2, ok, clientSeq);
  }

  /** The client's answer to a nonce it has read. */
  function Answer(cfg: Config, nonce: bytes): bytes {
    Scramble(cfg.hashes, cfg.clientPlugin, cfg.clientPassword, nonce)
  }

  /** The right user, who answers the nonce right: at once if it named the plugin,
      otherwise with its next packet. */
  predicate ClientWilling(cfg: Config, nonce: bytes, r: HandshakeResponse, clientIn: seq<Incoming>) {
    && r.username == cfg.clientUsername
    && if OfferedPlugin(r) == NameOf(cfg.clientPlugin) then r.authResponse == Answer(cfg, nonce)
       else clientIn != [] && clientIn[0].Arrived? && clientIn[0].payload == Answer(cfg, nonce)
  }

  lemma ClientLegCompletes(cfg: Config, nonce: bytes, s: LoginState, r: HandshakeResponse, firstSeq: byte)
    requires cfg.hashes.Valid() && !s.client.isClientSide && ClientWilling(cfg, nonce, r, s.clientIn)
    ensures var (s1, v) := AuthenticateClient(cfg, nonce, s, r, firstSeq);
            v.Accepted? && s1.upstream == s.upstream && s1.upstreamIn == s.upstreamIn
  {
    hide NameOf, Verify, Scramble, ParseOk, ParseErr;
    ScrambleVerifies(cfg.hashes, cfg.clientPlugin, cfg.clientPassword, nonce);
  }

  lemma WithResponseCompletes(
    cfg: Config, w: World, s: LoginState, h: HandshakeV10, r: HandshakeResponse, firstSeq: byte, n: nat)
    requires cfg.hashes.Valid() && !s.client.isClientSide && ClientWilling(cfg, w.nonce, r, s.clientIn)
    requires s.upstream.isClientSide && ServerWilling(cfg, w, h, r, s.upstreamIn, n)
    ensures EndsWith(WithResponse(cfg, w, s, h, r, firstSeq).log, if n < MAX_ROUNDS then LoginOk else UpstreamFailure)
  {
    hide AuthenticateClient, LogInUpstream, ServerWilling, ClientWilling, EndsWith;
    ClientLegCompletes(cfg, w.nonce, s, r, firstSeq);
    var (s1, v) := AuthenticateClient(cfg, w.nonce, s, r, firstSeq);
    UpstreamLegCompletes(cfg, w, s1, h, r, v.seqId, n);
  }

  /** The proxy reads the payload as a response, not as a request for TLS. */
  predicate IsResponse(payload: bytes) {
    var r := ParseHandshakeResponse(payload);
    r.Success? && !r.value.IsSslRequest()
  }

  predicate IsTlsRequest(payload: bytes) {
    var r := ParseHandshakeResponse(payload);
    r.Success? && r.value.IsSslRequest()
  }

  lemma ResponseRead(s: LoginState)
    requires s.client.state.WaitingHandshakeResponse? && !s.client.isClientSide
    requires s.clientIn != [] && s.clientIn[0].Arrived? && ParseHandshakeResponse(s.clientIn[0].payload).Success?
    ensures var (s1, got) := ReadClient(s);
            && got == Session.Message(ResponseMsg(ParseHandshakeResponse(s.clientIn[0].payload).value))
            && s1.clientIn == s.clientIn[1..] && s1.upstream == s.upstream && s1.upstreamIn == s.upstreamIn
            && !s1.client.isClientSide
  {
    hide ParseHandshakeResponse;
  }

  /** What the client sends: a request for TLS, perhaps, its response, and what is left. */
  function ClientPackets(tls: Option<bytes>, response: Incoming, more: seq<Incoming>): seq<Incoming> {
    (if tls.Some? then [Arrived(1, tls.value)] else []) + [response] + more
  }

  lemma GreetedCompletes(
    cfg: Config, w: World, s: LoginState, h: HandshakeV10, tls: Option<bytes>, response: Incoming, more: seq<Incoming>, n: nat)
    requires s.client.state.WaitingHandshakeResponse? && !s.client.isClientSide && s.upstream.isClientSide
    requires s.clientIn == ClientPackets(tls, response, more) && response.Arrived? && IsResponse(response.payload)
    requires tls.Some? ==> IsTlsRequest(tls.value) && cfg.tlsAcceptor && w.clientTlsOk
    requires cfg.hashes.Valid()
    requires var r := ParseHandshakeResponse(response.payload).value;
             ClientWilling(cfg, w.nonce, r, more) && ServerWilling(cfg, w, h, r, s.upstreamIn, n)
    ensures EndsWith(Greeted(cfg, w, s, h).log, if n < MAX_ROUNDS then LoginOk else UpstreamFailure)
  {
    hide ServerWilling, ClientWilling, EndsWith, WithResponse, ReadClient, ParseHandshakeResponse, Has;
    var r := ParseHandshakeResponse(response.payload).value;
    ResponseRead(s);
    var s1 := ReadClient(s).0;
    if tls.None? {
      assert s.clientIn[0] == response && s.clientIn[1..] == more;
      WithResponseCompletes(cfg, w, s1, h, r, 1, n);
    } else {
      var asked := ParseHandshakeResponse(tls.value).value;
      assert s.clientIn[0] == Arrived(1, tls.value) && s1.clientIn == [response] + more;
      var secured := s1.(client := Codec(WaitingHandshakeResponse, asked.capabilityFlags, false, 0, None)).Record(ClientTlsUp);
      ResponseRead(secured);
      assert secured.clientIn[0] == response && secured.clientIn[1..] == more;
      WithResponseCompletes(cfg, w, ReadClient(secured).0, h, r, 2, n);
    }
  }

  /** A client response as its library builds it, read back by the proxy. */
  predicate Sends(resp: HandshakeResponse, payload: bytes) {
    && resp.raw == [] && 0 !in resp.username && IsUtf8(resp.username)
    && PlainField(resp.database) && PlainField(resp.authPluginName)
    && AuthFits(resp.capabilityFlags, resp.authResponse)
    && payload == BuildResponsePayload(resp)
  }

  /** The response as the proxy reads it. */
  function AsRead(resp: HandshakeResponse, payload: bytes): HandshakeResponse {
    resp.(database := FieldAsRead(resp.capabilityFlags, CLIENT_CONNECT_WITH_DB, resp.database),
          authPluginName := FieldAsRead(resp.capabilityFlags, CLIENT_PLUGIN_AUTH, resp.authPluginName),
          raw := payload)
  }

  lemma SentIsRead(resp: HandshakeResponse, payload: bytes)
    requires Sends(resp, payload)
    ensures IsResponse(payload) && ParseHandshakeResponse(payload) == Success(AsRead(resp, payload))
  {
    hide IsUtf8, AuthFits, BuildResponsePayload, PlainField, ParseResponseRest, Has;
    BuiltResponseParses(resp);
  }

  /** An honest client that is shown the proxy's greeting, with or without TLS,
      naming the configured plugin or not, and a server that knows the proxy's
      password: the login ends with the client's OK, or, if the server's OK is not
      among the twenty packets the proxy listens for, with a refusal. The scramble
      is the one for the nonce the client reads, from the greeting or from the
      switch request. */
  lemma HonestLoginCompletes(
    cfg: Config, w: World, greeting: bytes, tls: Option<bytes>, resp: HandshakeResponse, seqId: byte, payload: bytes,
    more: seq<Incoming>, upstreamMore: seq<Incoming>, n: nat)
    requires cfg.hashes.Valid() && GoodNonce(w.nonce) && ParseHandshakeV10(greeting).Success?
    requires tls.Some? ==> IsTlsRequest(tls.value) && cfg.tlsAcceptor && w.clientTlsOk
    requires Sends(resp, payload) && resp.username == cfg.clientUsername
    requires var hello := ClientHello(cfg, w, ParseHandshakeV10(greeting).value);
             var seen := ParseHandshakeV10(HandshakePayload(hello));
             var switched := ParseAuthSwitchRequest(BuildAuthSwitchRequest(cfg.clientPlugin, w.nonce));
             if OfferedPlugin(AsRead(resp, payload)) == NameOf(cfg.clientPlugin)
             then seen.Success? ==>
                    resp.authResponse == Answer(cfg, NonceFromHandshake(seen.value.authPluginDataPart1, seen.value.authPluginDataPart2))
             else more != [] && more[0].Arrived? && (switched.Success? ==> more[0].payload == Answer(cfg, switched.value.1))
    requires ServerWilling(cfg, w, ParseHandshakeV10(greeting).value, AsRead(resp, payload), upstreamMore, n)
    ensures EndsWith(
              LogIn(cfg, w, Fresh(ClientPackets(tls, Arrived(seqId, payload), more), [Arrived(0, greeting)] + upstreamMore)).log,
              if n < 20 then LoginOk else UpstreamFailure)
  {
    hide ParseHandshakeV10, ParseHandshakeResponse, HandshakePayload, BuildAuthSwitchRequest, ParseAuthSwitchRequest, NameOf, Scramble,
      NonceFromHandshake, ServerWilling, EndsWith, Greeted, Has, IsTlsRequest, ClientPackets, Sends;
    var h := ParseHandshakeV10(greeting).value;
    ClientReadsHello(cfg, w, greeting);
    AuthSwitchRoundTrip(cfg.clientPlugin, w.nonce);
    SentIsRead(resp, payload);
    var hello := ClientHello(cfg, w, h);
    assert ClientWilling(cfg, w.nonce, AsRead(resp, payload), more);
    hide ClientWilling, ClientHello;
    var s := Fresh(ClientPackets(tls, Arrived(seqId, payload), more), [Arrived(0, greeting)] + upstreamMore);
    GreetingRead(s, greeting);
    var s1 := ReadUpstream(s).0;
    assert s1.upstreamIn == upstreamMore;
    hide ReadUpstream;
    var s2 := s1.(client := AfterEncode(s1.client, HandshakeMsg(hello)).(capabilityFlags := h.capabilityFlags),
                  upstream := s1.upstream.(capabilityFlags := h.capabilityFlags)).Record(ToClient(0, Hello(hello)));
    GreetedCompletes(cfg, w, s2, h, tls, Arrived(seqId, payload), more, n);
  }

  lemma GreetingRead(s: LoginState, greeting: bytes)
    requires s.upstream == NewClient() && s.upstreamIn != [] && s.upstreamIn[0] == Arrived(0, greeting)
    requires ParseHandshakeV10(greeting).Success?
    ensures var (s1, got) := ReadUpstream(s);
            && got == Session.Message(HandshakeMsg(ParseHandshakeV10(greeting).value))
            && s1.client == s.client && s1.clientIn == s.clientIn && s1.upstreamIn == s.upstreamIn[1..]
            && s1.upstream.isClientSide
  {
    hide ParseHandshakeV10;
  }
}
