/** What every event of a login says, exactly: not only that it may happen after
    what came before, but what is in it, told from the packets of the two peers. */
module Transcript {
  import opened Wrappers
  import opened Bytes
  import opened MySqlPackets
  import opened MySqlCodec
  import opened Auth
  import opened Session
  import opened Negotiation
  import opened Handshake

  /** What the peers said: the server in its greeting, the client in its response,
      and whether the client asked for TLS first. */
  datatype Facts = Facts(greeting: Option<HandshakeV10>, response: Option<HandshakeResponse>, tls: bool)

  function GreetingOf(upstreamIn: seq<Incoming>): Option<HandshakeV10> {
    if upstreamIn != [] && upstreamIn[0].Arrived? && ParseHandshakeV10(upstreamIn[0].payload).Success?
    then Some(ParseHandshakeV10(upstreamIn[0].payload).value) else None
  }

  function ResponseAt(clientIn: seq<Incoming>, i: nat): Option<HandshakeResponse> {
    if i < |clientIn| && clientIn[i].Arrived? && ParseHandshakeResponse(clientIn[i].payload).Success?
    then Some(ParseHandshakeResponse(clientIn[i].payload).value) else None
  }

  /** A 32-byte packet with the TLS bit is a request for TLS; the response is then
      the next packet. */
  function FactsOf(clientIn: seq<Incoming>, upstreamIn: seq<Incoming>): Facts {
    var first := ResponseAt(clientIn, 0);
    var tls := first.Some? && first.value.IsSslRequest();
    Facts(GreetingOf(upstreamIn), if tls then ResponseAt(clientIn, 1) else first, tls)
  }

  // ---- The response the proxy sends upstream ----

  /** The proxy's own user, password, nonce and plugin; the client's packet size,
      character set and database, or the configured one if it names none; and the
      client's flags as far as the server offers them, but for seven bits. */
  predicate Answers(cfg: Config, h: HandshakeV10, r: HandshakeResponse, sent: HandshakeResponse, plugin: AuthPlugin, nonce: bytes) {
    && nonce == NonceOf(h.authPluginDataPart1 + h.authPluginDataPart2)
    && plugin == (if h.authPluginName == NameOf(MysqlNativePassword) then MysqlNativePassword else CachingSha2Password)
    && sent.username == cfg.upstreamUsername
    && sent.authResponse == Scramble(cfg.hashes, plugin, cfg.upstreamPassword, nonce)
    && sent.authPluginName == Some(NameOf(plugin))
    && sent.maxPacketSize == r.maxPacketSize && sent.characterSet == r.characterSet && sent.raw == []
    && sent.database == (match r.database
                         case Some(db) => if db != [] then Some(db) else cfg.upstreamDatabase
                         case None => cfg.upstreamDatabase)
    && forall k | 0 <= k < 32 ::
         Has(sent.capabilityFlags, k) <==>
         && Has(h.capabilityFlags, k)
         && (if k in {9, 15, 19} then true else if k == 11 then cfg.upstreamTls else if k == 3 then sent.database.Some?
             else k !in {5, 20} && Has(r.capabilityFlags, k))
  }

  lemma ResponseAnswers(cfg: Config, h: HandshakeV10, r: HandshakeResponse)
    ensures var database := ChosenDatabase(cfg, r);
            var caps := Negotiate(r.capabilityFlags, h.capabilityFlags, database.Some?, cfg.upstreamTls);
            Answers(cfg, h, r, UpstreamResponse(cfg, h, caps, r, database), PluginOf(h),
                    NonceFromHandshake(h.authPluginDataPart1, h.authPluginDataPart2))
  {
    hide Has, Negotiate, NonceOf, Scramble;
    var database := ChosenDatabase(cfg, r);
    forall k | 0 <= k < 32
      ensures Has(Negotiate(r.capabilityFlags, h.capabilityFlags, database.Some?, cfg.upstreamTls), k) <==>
              && Has(h.capabilityFlags, k)
              && (if k in {9, 15, 19} then true else if k == 11 then cfg.upstreamTls else if k == 3 then database.Some?
                  else k !in {5, 20} && Has(r.capabilityFlags, k))
    {
      NegotiatedBits(r.capabilityFlags, h.capabilityFlags, database.Some?, cfg.upstreamTls, k);
    }
    PluginNamed(h.authPluginName);
    hide NameOf, FromName;
  }

  /** Each plugin is known by its own name and no other. */
  lemma PluginNamed(name: bytes)
    ensures FromName(name) == (if name == NameOf(MysqlNativePassword) then Some(MysqlNativePassword)
                               else if name == NameOf(CachingSha2Password) then Some(CachingSha2Password) else None)
  {
    assert "caching_sha2_password"[0] != "mysql_native_password"[0];
    assert NameOf(CachingSha2Password)[0] != NameOf(MysqlNativePassword)[0];
  }

  // ---- Every event ----

  function Last(log: seq<Event>): Option<Event> {
    if log == [] then None else Some(log[|log| - 1])
  }

  /** The scramble the client presents: in its response if that names the plugin,
      otherwise the whole of its next packet. */
  function Presented(cfg: Config, r: HandshakeResponse, before: seq<Event>): Option<bytes> {
    if r.authPluginName == Some(NameOf(cfg.clientPlugin)) then Some(r.authResponse)
    else match Last(before) case Some(FromClient(_, payload)) => Some(payload) case _ => None
  }

  predicate RightToClient(cfg: Config, w: World, f: Facts, before: seq<Event>, sent: ClientSend)
    requires |w.nonce| >= 8
  {
    match sent
    case Hello(hello) =>
      f.greeting.Some?
      && hello == f.greeting.value.(capabilityFlags := HelloFlags(f.greeting.value.capabilityFlags, cfg.tlsAcceptor),
                                    authPluginDataPart1 := w.nonce[..8], authPluginDataPart2 := w.nonce[8..],
                                    authPluginName := NameOf(cfg.clientPlugin), raw := [])
    case SwitchRequest(plugin, nonce) =>
      plugin == cfg.clientPlugin && nonce == w.nonce && f.response.Some? && f.response.value.authPluginName != Some(NameOf(plugin))
    case AccessDenied(username) =>
      && f.response.Some? && username == f.response.value.username
      && var scramble := Presented(cfg, f.response.value, before);
         scramble.Some? && !CredentialOk(cfg, w.nonce, username, scramble.value)
    case FastAuthOk => cfg.clientPlugin.CachingSha2Password?
    case LoginOk =>
      cfg.clientPlugin.CachingSha2Password? ==> Last(before).Some? && Last(before).value.ToClient? && Last(before).value.sent.FastAuthOk?
    case UpstreamFailure => true
  }

  predicate RightToUpstream(cfg: Config, f: Facts, before: seq<Event>, reply: UpstreamSend) {
    && f.greeting.Some? && f.response.Some?
    && var h, r := f.greeting.value, f.response.value;
       match reply
       case SslRequest(payload) =>
         && cfg.upstreamTls && Has(h.capabilityFlags, 11)
         && payload == BuildSslRequest(r.capabilityFlags, r.maxPacketSize, r.characterSet).payload
       case Response(sent, plugin, nonce) =>
         Answers(cfg, h, r, sent, plugin, nonce) && (cfg.upstreamTls ==> Last(before) == Some(UpstreamTlsUp))
       case ScrambleReply(plugin, nonce) =>
         (match Last(before)
          case Some(FromUpstream(_, payload)) => ParseAuthSwitchRequest(payload) == Success((NameOf(plugin), nonce))
          case _ => false)
       case Cleartext => cfg.upstreamTls && AsksForPassword(before)
       case RsaReply(nonce) => !cfg.upstreamTls && cfg.rsaKey.Some? && AsksForPassword(before)
  }

  /** The server's last word is a request for full authentication. */
  predicate AsksForPassword(before: seq<Event>) {
    match Last(before)
    case Some(FromUpstream(_, payload)) => |payload| >= 2 && payload[0] == 1 && payload[1] == 4
    case _ => false
  }

  predicate RightEvent(cfg: Config, w: World, f: Facts, before: seq<Event>, e: Event)
    requires |w.nonce| >= 8
  {
    match e
    case FromClient(_, _) => true
    case FromUpstream(_, _) => true
    case ToClient(_, sent) => RightToClient(cfg, w, f, before, sent)
    case ToUpstream(_, reply) => RightToUpstream(cfg, f, before, reply)
    case ClientTlsUp =>
      cfg.tlsAcceptor && w.clientTlsOk && f.tls
    case UpstreamTlsUp =>
      && w.upstreamTlsOk && !w.upstreamEarlyData
      && Last(before).Some? && Last(before).value.ToUpstream? && Last(before).value.reply.SslRequest?
    case ClientAccepted(username, scramble) =>
      && f.response.Some? && username == f.response.value.username == cfg.clientUsername
      && Presented(cfg, f.response.value, before) == Some(scramble)
      && (f.tls ==> ClientTlsUp in before)
  }

  ghost predicate Right(cfg: Config, w: World, f: Facts, log: seq<Event>)
    requires |w.nonce| >= 8
  {
    forall i | 0 <= i < |log| :: RightEvent(cfg, w, f, log[..i], log[i])
  }

  lemma OneMore(cfg: Config, w: World, f: Facts, log: seq<Event>, e: Event)
    requires |w.nonce| >= 8 && Right(cfg, w, f, log) && RightEvent(cfg, w, f, log, e)
    ensures Right(cfg, w, f, log + [e]) && Last(log + [e]) == Some(e)
  {
    hide RightEvent;
    var after := log + [e];
    forall i | 0 <= i < |after| ensures RightEvent(cfg, w, f, after[..i], after[i]) {
      assert after[..i] == log[..i];
      if i == |log| {
        assert log[..i] == log;
      }
    }
  }

  lemma ReadClientRight(cfg: Config, w: World, f: Facts, s: LoginState)
    requires |w.nonce| >= 8 && Right(cfg, w, f, s.log)
    ensures var (s1, got) := ReadClient(s);
            && Right(cfg, w, f, s1.log) && s.log <= s1.log && s1.upstream == s.upstream && s1.upstreamIn == s.upstreamIn
            && (got.Message? && got.m.Generic? ==> Last(s1.log) == Some(FromClient(got.m.seqId, got.m.payload)))
  {
    hide Dispatch, Right, Encodable;
    if s.clientIn != [] && s.clientIn[0].Arrived? {
      OneMore(cfg, w, f, s.log, FromClient(s.clientIn[0].seqId, s.clientIn[0].payload));
    }
  }

  lemma ReadUpstreamRight(cfg: Config, w: World, f: Facts, s: LoginState)
    requires |w.nonce| >= 8 && Right(cfg, w, f, s.log)
    ensures var (s1, got) := ReadUpstream(s);
            && Right(cfg, w, f, s1.log)
            && (got.Message? && got.m.Generic? ==> Last(s1.log) == Some(FromUpstream(got.m.seqId, got.m.payload)))
  {
    hide Dispatch, Right, Encodable;
    if s.upstreamIn != [] && s.upstreamIn[0].Arrived? {
      OneMore(cfg, w, f, s.log, FromUpstream(s.upstreamIn[0].seqId, s.upstreamIn[0].payload));
    }
  }

  lemma CheckRight(cfg: Config, w: World, f: Facts, s: LoginState, scramble: bytes, seqId: byte)
    requires |w.nonce| >= 8 && Right(cfg, w, f, s.log) && f.response.Some? && (f.tls ==> ClientTlsUp in s.log)
    requires Presented(cfg, f.response.value, s.log) == Some(scramble)
    ensures Right(cfg, w, f, CheckClient(cfg, w.nonce, s, f.response.value.username, scramble, seqId).0.log)
  {
    hide Right, Verify, Presented;
    var username := f.response.value.username;
    OneMore(cfg, w, f, s.log, if CredentialOk(cfg, w.nonce, username, scramble) then ClientAccepted(username, scramble)
                              else ToClient(NextSeq(seqId), AccessDenied(username)));
  }

  lemma ClientAuthRight(cfg: Config, w: World, f: Facts, s: LoginState, firstSeq: byte)
    requires |w.nonce| >= 8 && Right(cfg, w, f, s.log) && f.response.Some? && (f.tls ==> ClientTlsUp in s.log)
    ensures Right(cfg, w, f, AuthenticateClient(cfg, w.nonce, s, f.response.value, firstSeq).0.log)
  {
    hide Right, NameOf, CheckClient, ReadClient, CredentialOk;
    var r := f.response.value;
    assert NameOf(cfg.clientPlugin) != [];
    if OfferedPlugin(r) == NameOf(cfg.clientPlugin) {
      CheckRight(cfg, w, f, s, r.authResponse, firstSeq);
    } else {
      var e := ToClient(NextSeq(firstSeq), SwitchRequest(cfg.clientPlugin, w.nonce));
      var asked := s.(client := s.client.(state := WaitingAuthResponse)).Record(e);
      OneMore(cfg, w, f, s.log, e);
      assert ClientTlsUp in s.log ==> ClientTlsUp in asked.log;
      ReadClientRight(cfg, w, f, asked);
      assert forall x | x in asked.log :: x in ReadClient(asked).0.log;
      var (s1, got) := ReadClient(asked);
      if got.Message? && got.m.Generic? {
        CheckRight(cfg, w, f, s1, got.m.payload, got.m.seqId);
      }
    }
  }

  lemma PacketRight(cfg: Config, w: World, f: Facts, s: LoginState, seqId: byte, payload: bytes, nonce: bytes, plugin: AuthPlugin)
    requires |w.nonce| >= 8 && Right(cfg, w, f, s.log) && f.greeting.Some? && f.response.Some?
    requires Last(s.log) == Some(FromUpstream(seqId, payload))
    ensures Right(cfg, w, f, UpstreamPacket(cfg, s, seqId, payload, nonce, plugin).s.log)
  {
    hide Right, NameOf, FromName, ParseAuthSwitchRequest, RsaEncryptedPassword;
    var p := UpstreamPacket(cfg, s, seqId, payload, nonce, plugin);
    if p.s.log != s.log {
      var e := p.s.log[|s.log|];
      assert p.s.log == s.log + [e];
      OneMore(cfg, w, f, s.log, e);
    }
  }

  lemma {:induction false} LoopRight(cfg: Config, w: World, f: Facts, s: LoginState, nonce: bytes, plugin: AuthPlugin, rounds: nat)
    requires rounds <= MAX_ROUNDS && |w.nonce| >= 8 && Right(cfg, w, f, s.log) && f.greeting.Some? && f.response.Some?
    ensures Right(cfg, w, f, UpstreamLoop(cfg, s, nonce, plugin, rounds).0.log)
    decreases MAX_ROUNDS - rounds
  {
    hide Right, ReadUpstream, UpstreamPacket;
    if rounds < MAX_ROUNDS {
      ReadUpstreamRight(cfg, w, f, s);
      var (s1, got) := ReadUpstream(s);
      if got.Message? && got.m.Generic? {
        PacketRight(cfg, w, f, s1, got.m.seqId, got.m.payload, nonce, plugin);
        var p := UpstreamPacket(cfg, s1, got.m.seqId, got.m.payload, nonce, plugin);
        if p.Continue? {
          LoopRight(cfg, w, f, p.s, p.nonce, p.plugin, rounds + 1);
        }
      }
    }
  }

  lemma UpstreamAuthRight(cfg: Config, w: World, f: Facts, s: LoginState)
    requires |w.nonce| >= 8 && Right(cfg, w, f, s.log) && f.greeting.Some? && f.response.Some?
    requires cfg.upstreamTls ==> Last(s.log) == Some(UpstreamTlsUp)
    ensures Right(cfg, w, f, AuthenticateUpstream(cfg, s, f.greeting.value, f.response.value).0.log)
  {
    hide Right, Answers, UpstreamLoop, Negotiate, PluginOf, NonceFromHandshake, UpstreamResponse;
    var h, r := f.greeting.value, f.response.value;
    var database := ChosenDatabase(cfg, r);
    var caps := Negotiate(r.capabilityFlags, h.capabilityFlags, database.Some?, cfg.upstreamTls);
    var nonce := NonceFromHandshake(h.authPluginDataPart1, h.authPluginDataPart2);
    var e := ToUpstream(ResponseSeq(cfg), Response(UpstreamResponse(cfg, h, caps, r, database), PluginOf(h), nonce));
    ResponseAnswers(cfg, h, r);
    OneMore(cfg, w, f, s.log, e);
    LoopRight(cfg, w, f, s.(upstream := s.upstream.(capabilityFlags := caps, state := WaitingAuthResponse)).Record(e),
              nonce, PluginOf(h), 0);
  }

  lemma UpgradeRight(cfg: Config, w: World, f: Facts, s: LoginState)
    requires |w.nonce| >= 8 && Right(cfg, w, f, s.log) && f.greeting.Some? && f.response.Some?
    ensures var (s1, connected) := UpgradeUpstream(cfg, w, s, f.greeting.value, f.response.value);
            && Right(cfg, w, f, s1.log)
            && (connected <==> !cfg.upstreamTls
                               || (Has(f.greeting.value.capabilityFlags, 11) && w.upstreamTlsOk && !w.upstreamEarlyData))
            && (connected && cfg.upstreamTls ==> Last(s1.log) == Some(UpstreamTlsUp))
  {
    hide Right, Has, BuildSslRequest;
    var h, r := f.greeting.value, f.response.value;
    if cfg.upstreamTls && Has(h.capabilityFlags, CLIENT_SSL) {
      var request := BuildSslRequest(r.capabilityFlags, r.maxPacketSize, r.characterSet);
      var e := ToUpstream(request.seqId, SslRequest(request.payload));
      OneMore(cfg, w, f, s.log, e);
      if !w.upstreamEarlyData && w.upstreamTlsOk {
        OneMore(cfg, w, f, s.log + [e], UpstreamTlsUp);
      }
    }
  }

  lemma ConcludeRight(cfg: Config, w: World, f: Facts, s: LoginState, ok: bool, clientSeq: byte)
    requires |w.nonce| >= 8 && Right(cfg, w, f, s.log)
    ensures Right(cfg, w, f, Conclude(cfg, s, ok, clientSeq).log)
  {
    hide Right;
    var next := NextSeq(clientSeq);
    if !ok {
      OneMore(cfg, w, f, s.log, ToClient(next, UpstreamFailure));
    } else if cfg.clientPlugin.CachingSha2Password? {
      OneMore(cfg, w, f, s.log, ToClient(next, FastAuthOk));
      OneMore(cfg, w, f, s.log + [ToClient(next, FastAuthOk)], ToClient(NextSeq(next), LoginOk));
    } else {
      OneMore(cfg, w, f, s.log, ToClient(next, LoginOk));
    }
  }

  lemma WithResponseRight(cfg: Config, w: World, f: Facts, s: LoginState, firstSeq: byte)
    requires |w.nonce| >= 8 && Right(cfg, w, f, s.log) && f.greeting.Some? && f.response.Some? && (f.tls ==> ClientTlsUp in s.log)
    ensures Right(cfg, w, f, WithResponse(cfg, w, s, f.greeting.value, f.response.value, firstSeq).log)
  {
    hide Right, AuthenticateClient, UpgradeUpstream, AuthenticateUpstream, Conclude, Has;
    var h, r := f.greeting.value, f.response.value;
    ClientAuthRight(cfg, w, f, s, firstSeq);
    var (s1, v) := AuthenticateClient(cfg, w.nonce, s, r, firstSeq);
    if v.Accepted? {
      UpgradeRight(cfg, w, f, s1);
      var (s2, connected) := UpgradeUpstream(cfg, w, s1, h, r);
      if connected {
        UpstreamAuthRight(cfg, w, f, s2);
        var (s3, ok) := AuthenticateUpstream(cfg, s2, h, r);
        ConcludeRight(cfg, w, f, s3, ok, v.seqId);
      }
    }
  }

  lemma ResponseRead(s: LoginState)
    requires s.client.state.WaitingHandshakeResponse? && !s.client.isClientSide
    ensures var (s1, got) := ReadClient(s);
            && (got.Message? && got.m.ResponseMsg? ==>
                  s.clientIn != [] && s1.clientIn == s.clientIn[1..] && ResponseAt(s.clientIn, 0) == Some(got.m.response))
            && (ResponseAt(s.clientIn, 0).Some? ==> got.Message? && got.m.ResponseMsg?)
  {
    hide ParseHandshakeResponse;
  }

  lemma GreetedRight(cfg: Config, w: World, f: Facts, s: LoginState, upstreamIn: seq<Incoming>)
    requires |w.nonce| >= 8 && Right(cfg, w, f, s.log) && f == FactsOf(s.clientIn, upstreamIn) && f.greeting.Some?
    requires s.client.state.WaitingHandshakeResponse? && !s.client.isClientSide
    ensures Right(cfg, w, f, Greeted(cfg, w, s, f.greeting.value).log)
  {
    hide Right, ReadClient, WithResponse, Has, ResponseAt, GreetingOf;
    ReadClientRight(cfg, w, f, s);
    ResponseRead(s);
    var (s1, got) := ReadClient(s);
    if got.Message? && got.m.ResponseMsg? {
      var r := got.m.response;
      if !r.IsSslRequest() {
        WithResponseRight(cfg, w, f, s1, 1);
      } else if cfg.tlsAcceptor && w.clientTlsOk {
        OneMore(cfg, w, f, s1.log, ClientTlsUp);
        var secured := s1.(client := Codec(WaitingHandshakeResponse, r.capabilityFlags, false, 0, None)).Record(ClientTlsUp);
        assert secured.log[|s1.log|] == ClientTlsUp;
        ReadClientRight(cfg, w, f, secured);
        ResponseRead(secured);
        NextResponse(s.clientIn);
        var (s2, again) := ReadClient(secured);
        if again.Message? && again.m.ResponseMsg? {
          assert ClientTlsUp in s2.log;
          WithResponseRight(cfg, w, f, s2, 2);
        }
      }
    }
  }

  lemma NextResponse(clientIn: seq<Incoming>)
    requires clientIn != []
    ensures ResponseAt(clientIn[1..], 0) == ResponseAt(clientIn, 1)
  {
    hide ParseHandshakeResponse;
  }

  /** In every login, whatever the peers send, every event says exactly what it
      should, given the server's greeting, the client's response and what came
      before: among them the one response the proxy sends upstream. */
  lemma EveryEventIsRight(cfg: Config, w: World, clientIn: seq<Incoming>, upstreamIn: seq<Incoming>)
    requires |w.nonce| >= 8
    ensures Right(cfg, w, FactsOf(clientIn, upstreamIn), LogIn(cfg, w, Fresh(clientIn, upstreamIn)).log)
  {
    hide Right, Greeted, NameOf, HelloFlags, FactsOf;
    var f := FactsOf(clientIn, upstreamIn);
    var s := Fresh(clientIn, upstreamIn);
    assert Right(cfg, w, f, []) by { NothingSaid(cfg, w, f); }
    ReadUpstreamRight(cfg, w, f, s);
    GreetingRead(s);
    var (s1, got) := ReadUpstream(s);
    if got.Message? && got.m.HandshakeMsg? {
      assert f.greeting == Some(got.m.handshake) by { FactsGreeting(clientIn, upstreamIn); }
      var h := got.m.handshake;
      var hello := ClientHello(cfg, w, h);
      var e := ToClient(0, Hello(hello));
      OneMore(cfg, w, f, s1.log, e);
      hide ReadUpstream;
      var s2 := s1.(client := AfterEncode(s1.client, HandshakeMsg(hello)).(capabilityFlags := h.capabilityFlags),
                    upstream := s1.upstream.(capabilityFlags := h.capabilityFlags)).Record(e);
      GreetedRight(cfg, w, f, s2, upstreamIn);
    }
  }

  lemma NothingSaid(cfg: Config, w: World, f: Facts)
    requires |w.nonce| >= 8
    ensures Right(cfg, w, f, [])
  {
  }

  lemma FactsGreeting(clientIn: seq<Incoming>, upstreamIn: seq<Incoming>)
    ensures FactsOf(clientIn, upstreamIn).greeting == GreetingOf(upstreamIn)
  {
    hide GreetingOf, ResponseAt, Has;
  }

  lemma GreetingRead(s: LoginState)
    requires s.upstream == NewClient()
    ensures var (s1, got) := ReadUpstream(s);
            && s1.client == s.client && s1.clientIn == s.clientIn
            && (got.Message? && got.m.HandshakeMsg? ==> GreetingOf(s.upstreamIn) == Some(got.m.handshake))
  {
    hide ParseHandshakeV10;
  }

  // ---- Nothing is left out ----

  /** A client whose answer can be read is let in or told that it is refused. */
  lemma RefusedIsTold(cfg: Config, nonce: bytes, s: LoginState, r: HandshakeResponse, firstSeq: byte)
    requires !s.client.isClientSide
    requires r.authPluginName == Some(NameOf(cfg.clientPlugin)) || (s.clientIn != [] && s.clientIn[0].Arrived?)
    ensures var (s1, v) := AuthenticateClient(cfg, nonce, s, r, firstSeq);
            match Last(s1.log)
            case Some(ToClient(_, AccessDenied(username))) => v.Over? && username == r.username
            case Some(ClientAccepted(username, _)) => v.Accepted? && username == r.username
            case _ => false
  {
    hide NameOf, CredentialOk, ParseOk, ParseErr;
  }

  /** A switch to a plugin the proxy knows is met with the scramble for that plugin
      and the nonce in it, under which the login then goes on. */
  lemma SwitchAnswered(cfg: Config, s: LoginState, seqId: byte, payload: bytes, nonce: bytes, plugin: AuthPlugin,
    named: AuthPlugin, sent: bytes)
    requires ParseAuthSwitchRequest(payload) == Success((NameOf(named), sent))
    ensures UpstreamPacket(cfg, s, seqId, payload, nonce, plugin)
            == Continue(s.Record(ToUpstream((seqId + 1) % 256, ScrambleReply(named, sent))), sent, named)
  {
    PluginNamed(NameOf(named));
    assert NameOf(CachingSha2Password)[0] == 'c' as int && NameOf(MysqlNativePassword)[0] == 'm' as int;
    hide NameOf, FromName, ParseAuthSwitchRequest;
  }

  /** The fast-auth sign is met with nothing, and a request for the password with
      the password over TLS, or else under the pinned key if it can be encrypted.
      Anything else ends the login. */
  lemma OthersAnswered(cfg: Config, s: LoginState, seqId: byte, payload: bytes, nonce: bytes, plugin: AuthPlugin)
    requires var sw := ParseAuthSwitchRequest(payload); sw.Success? ==> forall p :: sw.value.0 != NameOf(p)
    ensures var next := UpstreamPacket(cfg, s, seqId, payload, nonce, plugin);
            var reply := (seqId + 1) % 256;
            if |payload| >= 2 && payload[0] == 1 && payload[1] == 3 then next == Continue(s, nonce, plugin)
            else if |payload| >= 2 && payload[0] == 1 && payload[1] == 4 then
              if cfg.upstreamTls then next == Continue(s.Record(ToUpstream(reply, Cleartext)), nonce, plugin)
              else if && cfg.rsaKey.Some? && nonce != []
                      && cfg.rsaKey.value(XorNonce(cfg.upstreamPassword + [0], nonce)).Some?
              then next == Continue(s.Record(ToUpstream(reply, RsaReply(nonce))), nonce, plugin)
              else next == Stop(s)
            else next == Stop(s)
  {
    var sw := ParseAuthSwitchRequest(payload);
    if sw.Success? {
      assert sw.value.0 != NameOf(CachingSha2Password) && sw.value.0 != NameOf(MysqlNativePassword);
      PluginNamed(sw.value.0);
    }
    assert payload != [] && payload[0] == 1 ==> sw.Failure?;
    hide NameOf, FromName, ParseAuthSwitchRequest, XorNonce;
  }

  // ---- The database ----

  /** What the server reads in the response of any login, if it offers
      CLIENT_CONNECT_WITH_DB: the database the client named, or else the configured
      one, and none if there is neither. */
  lemma DatabaseReachesServer(
    cfg: Config, w: World, clientIn: seq<Incoming>, upstreamIn: seq<Incoming>, seqId: byte, sent: HandshakeResponse,
    plugin: AuthPlugin, nonce: bytes)
    requires |w.nonce| >= 8 && ToUpstream(seqId, Response(sent, plugin, nonce)) in LogIn(cfg, w, Fresh(clientIn, upstreamIn)).log
    requires cfg.hashes.Valid() && 0 !in cfg.upstreamUsername && IsUtf8(cfg.upstreamUsername) && PlainField(cfg.upstreamDatabase)
    ensures var f := FactsOf(clientIn, upstreamIn);
            && f.greeting.Some? && f.response.Some?
            && var h, named := f.greeting.value, f.response.value.database;
               Has(h.capabilityFlags, CLIENT_CONNECT_WITH_DB) && AuthFits(sent.capabilityFlags, sent.authResponse) ==>
                 var read := ParseResponseRest(BuildResponsePayload(sent));
                 && read.Success? && read.value.0.username == cfg.upstreamUsername
                 && (match named
                     case Some(db) => read.value.0.database == if db != [] then Some(db) else cfg.upstreamDatabase
                     case None => read.value.0.database == cfg.upstreamDatabase)
  {
    hide LogIn, NameOf, Has, AuthFits, BuildResponsePayload, ParseResponseRest, IsUtf8, Scramble, NonceOf, ParseHandshakeV10,
      ParseHandshakeResponse;
    var log := LogIn(cfg, w, Fresh(clientIn, upstreamIn)).log;
    var f := FactsOf(clientIn, upstreamIn);
    EveryEventIsRight(cfg, w, clientIn, upstreamIn);
    var i :| 0 <= i < |log| && log[i] == ToUpstream(seqId, Response(sent, plugin, nonce));
    assert RightEvent(cfg, w, f, log[..i], log[i]);
    var h, r := f.greeting.value, f.response.value;
    assert Answers(cfg, h, r, sent, plugin, nonce);
    NamedIsPlain(clientIn, if f.tls then 1 else 0);
    BuiltResponseParses(sent);
  }

  lemma NamedIsPlain(clientIn: seq<Incoming>, i: nat)
    ensures var r := ResponseAt(clientIn, i); r.Some? ==> PlainField(r.value.database)
  {
    hide ParseHandshakeResponse, PlainField;
    if i < |clientIn| && clientIn[i].Arrived? {
      ParsedIsPlain(clientIn[i].payload);
    }
  }

  lemma ParsedIsPlain(raw: bytes)
    ensures var r := ParseHandshakeResponse(raw); r.Success? ==> PlainField(r.value.database)
  {
    hide ParseStringField, ReadNulString, IsUtf8, U32At, Has;
    if |raw| >= 32 {
      var s1 := ReadNulString(raw[32..]).1;
      var auth := ParseAuthField(U32At(raw, 0), s1);
      if auth.Success? {
        FieldIsPlain(U32At(raw, 0), auth.value.1);
      }
    }
  }

  lemma FieldIsPlain(flags: u32, s: bytes)
    ensures PlainField(ParseStringField(flags, CLIENT_CONNECT_WITH_DB, s).0)
  {
    hide Has;
  }
}
