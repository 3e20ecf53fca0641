/** Numbering of a login told from its inputs: short packets are always numbered
    right, and a long one is not. */
module ShortPackets {
  import opened Wrappers
  import opened Bytes
  import opened Framing
  import opened MySqlPackets
  import opened MySqlCodec
  import opened Auth
  import opened Session
  import opened SessionNumbering
  import opened Handshake
  import Negotiation
  import Bits

  predicate IsShort(p: Incoming) {
    p.Arrived? ==> |p.payload| < M
  }

  predicate AllShort(ps: seq<Incoming>) {
    forall i :: 0 <= i < |ps| ==> IsShort(ps[i])
  }

  /** What has been received is short, and so is what is still to come. */
  ghost predicate Short(s: LoginState) {
    && AllShort(s.clientIn) && AllShort(s.upstreamIn)
    && forall i :: 0 <= i < |s.log| && IsReceived(s.log[i]) ==> |s.log[i].payload| < M
  }

  lemma ReadsShort(s: LoginState)
    requires Short(s)
    ensures Short(ReadClient(s).0) && Short(ReadUpstream(s).0)
  {
    hide Dispatch;
  }

  lemma ClientAuthShort(cfg: Config, nonce: bytes, s: LoginState, r: HandshakeResponse, firstSeq: byte)
    requires Short(s)
    ensures Short(AuthenticateClient(cfg, nonce, s, r, firstSeq).0)
  {
    hide ReadClient, NameOf, CredentialOk;
    if OfferedPlugin(r) != NameOf(cfg.clientPlugin) {
      var asked := s.(client := s.client.(state := WaitingAuthResponse))
                    .Record(ToClient(NextSeq(firstSeq), SwitchRequest(cfg.clientPlugin, nonce)));
      ReadsShort(asked);
    }
  }

  lemma PacketShort(cfg: Config, s: LoginState, seqId: byte, payload: bytes, nonce: bytes, plugin: AuthPlugin)
    requires Short(s)
    ensures Short(UpstreamPacket(cfg, s, seqId, payload, nonce, plugin).s)
  {
    hide FromName, ParseAuthSwitchRequest, ClassifyAuthMoreData, FullAuthReply;
  }

  lemma {:induction false} LoopShort(cfg: Config, s: LoginState, nonce: bytes, plugin: AuthPlugin, rounds: nat)
    requires rounds <= MAX_ROUNDS && Short(s)
    ensures Short(UpstreamLoop(cfg, s, nonce, plugin, rounds).0)
    decreases MAX_ROUNDS - rounds
  {
    hide Short, ReadUpstream, UpstreamPacket;
    if rounds < MAX_ROUNDS {
      ReadsShort(s);
      var (s1, got) := ReadUpstream(s);
      if got.Message? && got.m.Generic? {
        PacketShort(cfg, s1, got.m.seqId, got.m.payload, nonce, plugin);
        var p := UpstreamPacket(cfg, s1, got.m.seqId, got.m.payload, nonce, plugin);
        if p.Continue? {
          LoopShort(cfg, p.s, p.nonce, p.plugin, rounds + 1);
        }
      }
    }
  }

  lemma UpstreamShort(cfg: Config, w: World, s: LoginState, h: HandshakeV10, r: HandshakeResponse, clientSeq: byte)
    requires Short(s)
    ensures Short(LogInUpstream(cfg, w, s, h, r, clientSeq))
  {
    hide UpstreamLoop, Negotiation.Negotiate, NameOf, FromName, NonceFromHandshake, Scramble, Has, BuildSslRequest;
    var (s1, connected) := UpgradeUpstream(cfg, w, s, h, r);
    assert Short(s1);
    if connected {
      AuthShort(cfg, s1, h, r);
      hide AuthenticateUpstream, UpgradeUpstream;
    }
  }

  lemma AuthShort(cfg: Config, s: LoginState, h: HandshakeV10, r: HandshakeResponse)
    requires Short(s)
    ensures Short(AuthenticateUpstream(cfg, s, h, r).0)
  {
    hide UpstreamLoop, Negotiation.Negotiate, NameOf, FromName, NonceFromHandshake, Scramble;
    var nonce := NonceFromHandshake(h.authPluginDataPart1, h.authPluginDataPart2);
    var database := ChosenDatabase(cfg, r);
    var caps := Negotiation.Negotiate(r.capabilityFlags, h.capabilityFlags, database.Some?, cfg.upstreamTls);
    var s1 := s.(upstream := s.upstream.(capabilityFlags := caps, state := WaitingAuthResponse))
               .Record(ToUpstream(ResponseSeq(cfg), Response(UpstreamResponse(cfg, h, caps, r, database), PluginOf(h), nonce)));
    assert Short(s1);
    LoopShort(cfg, s1, nonce, PluginOf(h), 0);
  }

  lemma GreetedShort(cfg: Config, w: World, s: LoginState, h: HandshakeV10)
    requires Short(s)
    ensures Short(Greeted(cfg, w, s, h))
  {
    hide ReadClient, AuthenticateClient, LogInUpstream, Has;
    ReadsShort(s);
    var (s1, got) := ReadClient(s);
    if got.Message? && got.m.ResponseMsg? {
      var r := got.m.response;
      if !r.IsSslRequest() {
        ResponseShort(cfg, w, s1, h, r, 1);
      } else if cfg.tlsAcceptor && w.clientTlsOk {
        var secured := s1.(client := Codec(WaitingHandshakeResponse, r.capabilityFlags, false, 0, None)).Record(ClientTlsUp);
        ReadsShort(secured);
        var (s2, again) := ReadClient(secured);
        if again.Message? && again.m.ResponseMsg? {
          ResponseShort(cfg, w, s2, h, again.m.response, 2);
        }
      }
    }
  }

  lemma ResponseShort(cfg: Config, w: World, s: LoginState, h: HandshakeV10, r: HandshakeResponse, firstSeq: byte)
    requires Short(s)
    ensures Short(WithResponse(cfg, w, s, h, r, firstSeq))
  {
    hide AuthenticateClient, LogInUpstream, Short;
    ClientAuthShort(cfg, w.nonce, s, r, firstSeq);
    var (s1, v) := AuthenticateClient(cfg, w.nonce, s, r, firstSeq);
    if v.Accepted? {
      UpstreamShort(cfg, w, s1, h, r, v.seqId);
    }
  }

  lemma LoginShort(cfg: Config, w: World, s: LoginState)
    requires |w.nonce| >= 8 && Short(s)
    ensures Short(LogIn(cfg, w, s))
  {
    hide ReadUpstream, Greeted, ClientHello;
    ReadsShort(s);
    var (s1, got) := ReadUpstream(s);
    if got.Message? && got.m.HandshakeMsg? {
      var h := got.m.handshake;
      var hello := ClientHello(cfg, w, h);
      var s2 := s1.(client := AfterEncode(s1.client, HandshakeMsg(hello)).(capabilityFlags := h.capabilityFlags),
                    upstream := s1.upstream.(capabilityFlags := h.capabilityFlags)).Record(ToClient(0, Hello(hello)));
      assert Short(s2);
      GreetedShort(cfg, w, s2, h);
    }
  }

  lemma {:induction false} LastIsInLog(log: seq<Event>, leg: Leg)
    ensures var last := LastOn(log, leg); last.Some? ==> last.value in log
  {
    if log != [] {
      LastIsInLog(log[..|log| - 1], leg);
      assert forall e | e in log[..|log| - 1] :: e in log;
    }
  }

  /** If everything the peers send is shorter than 16 MiB and numbered
      consecutively, so is everything on both legs, in every login. */
  lemma ShortLoginCounts(cfg: Config, w: World, clientIn: seq<Incoming>, upstreamIn: seq<Incoming>)
    requires |w.nonce| >= 8 && AllShort(clientIn) && AllShort(upstreamIn)
    ensures var log := LogIn(cfg, w, Fresh(clientIn, upstreamIn)).log;
            PeersNumber(log) ==> Counts(log, ClientLeg) && Counts(log, UpstreamLeg)
  {
    hide PeersNumber, Counts, LogIn;
    LoginShort(cfg, w, Fresh(clientIn, upstreamIn));
    EveryLoginCounts(cfg, w, clientIn, upstreamIn);
    var log := LogIn(cfg, w, Fresh(clientIn, upstreamIn)).log;
    forall i | 0 <= i < |log| && IsSent(log[i]) ensures Settled(log[..i], LegOf(log[i])) {
      LastIsInLog(log[..i], LegOf(log[i]));
    }
  }

  // ---- A login with a long packet ----

  /** The client's response takes several packets and names another plugin than
      the configured one: the request to switch bears a number already used. */
  lemma LongResponseMiscounts(cfg: Config, w: World, greeting: bytes, response: bytes)
    requires |w.nonce| >= 8 && |greeting| < M && |response| / M % 256 != 0
    requires ParseHandshakeV10(greeting).Success?
    requires var r := ParseHandshakeResponse(response);
             r.Success? && !r.value.IsSslRequest() && OfferedPlugin(r.value) != NameOf(cfg.clientPlugin)
    ensures var log := LogIn(cfg, w, Fresh([Arrived(1, response)], [Arrived(0, greeting)])).log;
            PeersNumber(log) && !Counts(log, ClientLeg)
  {
    hide ParseHandshakeV10, ParseHandshakeResponse, Has, NameOf, ClientHello, LogIn, PeersNumber, Counts;
    var h := ParseHandshakeV10(greeting).value;
    var log := [FromUpstream(0, greeting), ToClient(0, Hello(ClientHello(cfg, w, h))), FromClient(1, response),
                ToClient(2, SwitchRequest(cfg.clientPlugin, w.nonce))];
    LongResponseLog(cfg, w, greeting, response);
    LongLogMiscounts(log, response);
  }

  lemma LongResponseLog(cfg: Config, w: World, greeting: bytes, response: bytes)
    requires |w.nonce| >= 8 && ParseHandshakeV10(greeting).Success?
    requires var r := ParseHandshakeResponse(response);
             r.Success? && !r.value.IsSslRequest() && OfferedPlugin(r.value) != NameOf(cfg.clientPlugin)
    ensures LogIn(cfg, w, Fresh([Arrived(1, response)], [Arrived(0, greeting)])).log
            == [FromUpstream(0, greeting), ToClient(0, Hello(ClientHello(cfg, w, ParseHandshakeV10(greeting).value))),
                FromClient(1, response), ToClient(2, SwitchRequest(cfg.clientPlugin, w.nonce))]
  {
    hide ParseHandshakeV10, ParseHandshakeResponse, Has, NameOf, ClientHello, CheckClient, LogInUpstream;
  }

  lemma LongLogMiscounts(log: seq<Event>, response: bytes)
    requires |log| == 4 && |response| / M % 256 != 0
    requires log[0].FromUpstream? && log[0].seqId == 0 && |log[0].payload| < M
    requires log[1].ToClient? && log[1].seqId == 0
    requires log[2] == FromClient(1, response)
    requires log[3].ToClient? && log[3].seqId == 2
    ensures PeersNumber(log) && !Counts(log, ClientLeg)
  {
    hide Counts, PeersNumber, LastOn;
    var l1 := [log[0]];
    var l2 := l1 + [log[1]];
    var l3 := l2 + [log[2]];
    assert [] + [log[0]] == l1 && l3 + [log[3]] == log;
    assert PeersNumber([]) && LastOn([], ClientLeg) == None && LastOn([], UpstreamLeg) == None by { NothingYet(); }
    PeersAppend([], log[0]);
    PeersAppend(l1, log[1]);
    LastAppend(l1, log[1], ClientLeg);
    PeersAppend(l2, log[2]);
    LastAppend(l2, log[2], ClientLeg);
    PeersAppend(l3, log[3]);
    NumberedCounts(l3);
    CountsAppend(l3, log[3], ClientLeg);
  }

  lemma NothingYet()
    ensures PeersNumber([]) && LastOn([], ClientLeg) == None && LastOn([], UpstreamLeg) == None
  {
  }

  /** The shortest greeting a server can send: no flags, no names, all zero. */
  function Greeting(): bytes {
    [10, 0] + seq(31, _ => 0)
  }

  /** A response with a user name of 16 MiB, no flags and no plugin. */
  function LongName(): HandshakeResponse {
    HandshakeResponse(0, 0, 33, seq(M, _ => 0x61), [], None, None, [])
  }

  lemma GreetingParses()
    ensures |Greeting()| < M && ParseHandshakeV10(Greeting()).Success?
  {
    hide ParseFixed, IsUtf8;
    assert Greeting()[1..] == [] + [0] + seq(31, _ => 0);
    assert IsUtf8([]) by { AsciiIsUtf8([]); }
    ReadNulStringRoundTrip([], seq(31, _ => 0));
  }

  lemma LongNameParses()
    ensures var p := BuildResponsePayload(LongName());
            && |p| == M + 34
            && ParseHandshakeResponse(p) == Success(LongName().(raw := p))
  {
    hide IsUtf8, LE, Bits.Bit;
    var r := LongName();
    AsciiIsUtf8(r.username);
    Bits.ZeroHasNoBits(CLIENT_SECURE_CONNECTION);
    Bits.ZeroHasNoBits(CLIENT_CONNECT_WITH_DB);
    Bits.ZeroHasNoBits(CLIENT_PLUGIN_AUTH);
    Bits.ZeroHasNoBits(CLIENT_SSL);
    assert 0 !in r.username;
    hide ParseResponseRest;
    BuiltResponseParses(r);
  }

  /** Every configuration and nonce: with this greeting and this response both
      peers count, and the proxy's answer repeats a number. */
  lemma LongNameMiscounts(cfg: Config, w: World)
    requires |w.nonce| >= 8
    ensures var response := BuildResponsePayload(LongName());
            var log := LogIn(cfg, w, Fresh([Arrived(1, response)], [Arrived(0, Greeting())])).log;
            PeersNumber(log) && !Counts(log, ClientLeg)
  {
    hide ParseHandshakeV10, ParseHandshakeResponse, NameOf, PeersNumber, Counts, LogIn, BuildResponsePayload, Greeting, Has;
    GreetingParses();
    LongNameParses();
    LongResponseMiscounts(cfg, w, Greeting(), BuildResponsePayload(LongName()));
  }
}
