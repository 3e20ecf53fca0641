/** Safety of every terminate-mode login, whatever the client and the server
    send: who is let in, what of the upstream password leaves the proxy and
    when, and that the exchange ends. */
module SessionSafety {
  import opened Wrappers
  import opened Bytes
  import opened MySqlPackets
  import opened MySqlCodec
  import opened Auth
  import opened Session
  import Handshake

  ghost predicate HasAccepted(log: seq<Event>) {
    exists i :: 0 <= i < |log| && log[i].ClientAccepted?
  }

  /** The proxy's handshake response has gone upstream. */
  ghost predicate HasResponse(log: seq<Event>) {
    exists i :: 0 <= i < |log| && log[i].ToUpstream? && log[i].reply.Response?
  }

  predicate IsServerOk(e: Event) {
    e.FromUpstream? && e.payload != [] && e.payload[0] == 0
  }

  /** The server has answered the response with a packet that has the OK header. */
  ghost predicate HasServerOk(log: seq<Event>) {
    exists i :: 0 <= i < |log| && IsServerOk(log[i]) && HasResponse(log[..i])
  }

  function NonceAfter(before: Option<bytes>, payload: bytes): Option<bytes> {
    if before.None? then
      match Handshake.ParseHandshakeV10(payload)
      case Success(h) => Some(NonceFromHandshake(h.authPluginDataPart1, h.authPluginDataPart2))
      case Failure(_) => None
    else
      match ParseAuthSwitchRequest(payload)
      case Success(sw) => Some(sw.1)
      case Failure(_) => before
  }

  /** The nonce the server sent last: in its handshake or in an auth switch. */
  function LatestNonce(log: seq<Event>): Option<bytes> {
    if log == [] then None
    else
      var before := LatestNonce(log[..|log| - 1]);
      var e := log[|log| - 1];
      if e.FromUpstream? then NonceAfter(before, e.payload) else before
  }

  /** The last packet the client sent. */
  function LastFromClient(log: seq<Event>): Option<bytes> {
    if log == [] then None
    else if log[|log| - 1].FromClient? then Some(log[|log| - 1].payload)
    else LastFromClient(log[..|log| - 1])
  }

  /** The scramble is what the client's last packet carries: the whole packet in
      answer to the proxy's auth switch, or the auth response of its handshake
      response when that names the configured plugin. */
  predicate Offered(cfg: Config, w: World, log: seq<Event>, scramble: bytes) {
    && LastFromClient(log).Some?
    && var p := LastFromClient(log).value;
       || (p == scramble && exists e :: e in log && e.ToClient? && e.sent == SwitchRequest(cfg.clientPlugin, w.nonce))
       || (var r := Handshake.ParseHandshakeResponse(p);
           r.Success? && r.value.authResponse == scramble && OfferedPlugin(r.value) == NameOf(cfg.clientPlugin))
  }

  /** What must have happened before each event. */
  ghost predicate Justified(cfg: Config, w: World, before: seq<Event>, e: Event) {
    match e
    case ToUpstream(_, reply) =>
      && HasAccepted(before)
      && (match reply
          case SslRequest(_) => true
          case Response(r, plugin, nonce) =>
            LatestNonce(before) == Some(nonce)
            && r.authResponse == Scramble(cfg.hashes, plugin, cfg.upstreamPassword, nonce)
          case ScrambleReply(_, nonce) => LatestNonce(before) == Some(nonce)
          case RsaReply(nonce) => LatestNonce(before) == Some(nonce) && !cfg.upstreamTls
          case Cleartext => UpstreamTlsUp in before)
    case ToClient(_, FastAuthOk) => HasAccepted(before) && HasServerOk(before)
    case ToClient(_, LoginOk) => HasAccepted(before) && HasServerOk(before)
    case ClientAccepted(username, scramble) =>
      CredentialOk(cfg, w.nonce, username, scramble) && Offered(cfg, w, before, scramble)
    case _ => true
  }

  ghost predicate Safe(cfg: Config, w: World, log: seq<Event>) {
    forall i :: 0 <= i < |log| ==> Justified(cfg, w, log[..i], log[i])
  }

  lemma SafeAppend(cfg: Config, w: World, log: seq<Event>, e: Event)
    requires Safe(cfg, w, log) && Justified(cfg, w, log, e)
    ensures Safe(cfg, w, log + [e])
  {
    hide Justified;
    var after := log + [e];
    forall i | 0 <= i < |after| ensures Justified(cfg, w, after[..i], after[i]) {
      assert after[..i] == log[..i];
      if i == |log| {
        assert log[..i] == log;
      }
    }
  }

  lemma FactsAppend(log: seq<Event>, e: Event)
    ensures HasAccepted(log) || e.ClientAccepted? ==> HasAccepted(log + [e])
    ensures HasResponse(log) || (e.ToUpstream? && e.reply.Response?) ==> HasResponse(log + [e])
    ensures HasServerOk(log) || (HasResponse(log) && IsServerOk(e)) ==> HasServerOk(log + [e])
    ensures LatestNonce(log + [e]) == if e.FromUpstream? then NonceAfter(LatestNonce(log), e.payload) else LatestNonce(log)
    ensures LastFromClient(log + [e]) == if e.FromClient? then Some(e.payload) else LastFromClient(log)
  {
    hide HasAccepted, HasResponse, HasServerOk, NonceAfter, IsServerOk;
    assert (log + [e])[..|log|] == log && (log + [e])[|log|] == e;
    MarksAppend(log, e);
    ServerOkAppend(log, e);
  }

  lemma MarksAppend(log: seq<Event>, e: Event)
    ensures HasAccepted(log) || e.ClientAccepted? ==> HasAccepted(log + [e])
    ensures HasResponse(log) || (e.ToUpstream? && e.reply.Response?) ==> HasResponse(log + [e])
  {
    var after := log + [e];
    assert after[|log|] == e;
    if HasAccepted(log) {
      var i :| 0 <= i < |log| && log[i].ClientAccepted?;
      assert after[i].ClientAccepted?;
    }
    if HasResponse(log) {
      var i :| 0 <= i < |log| && log[i].ToUpstream? && log[i].reply.Response?;
      assert after[i] == log[i];
    }
  }

  lemma ServerOkAppend(log: seq<Event>, e: Event)
    ensures HasServerOk(log) || (HasResponse(log) && IsServerOk(e)) ==> HasServerOk(log + [e])
  {
    hide HasResponse, IsServerOk;
    var after := log + [e];
    assert after[..|log|] == log && after[|log|] == e;
    if HasServerOk(log) {
      var i :| 0 <= i < |log| && IsServerOk(log[i]) && HasResponse(log[..i]);
      assert after[i] == log[i] && after[..i] == log[..i];
    }
  }

  function UpstreamCount(log: seq<Event>): nat {
    if log == [] then 0
    else UpstreamCount(log[..|log| - 1]) + (if log[|log| - 1].FromUpstream? then 1 else 0)
  }

  lemma CountAppend(log: seq<Event>, e: Event)
    ensures UpstreamCount(log + [e]) == UpstreamCount(log) + if e.FromUpstream? then 1 else 0
  {
    assert (log + [e])[..|log|] == log;
  }

  /** One event more: what is known of the log afterwards. */
  lemma Appended(cfg: Config, w: World, log: seq<Event>, e: Event)
    requires Safe(cfg, w, log) && Justified(cfg, w, log, e)
    ensures Safe(cfg, w, log + [e])
    ensures HasAccepted(log) || e.ClientAccepted? ==> HasAccepted(log + [e])
    ensures HasServerOk(log) ==> HasServerOk(log + [e])
    ensures HasResponse(log) || (e.ToUpstream? && e.reply.Response?) ==> HasResponse(log + [e])
    ensures !e.FromUpstream? ==> LatestNonce(log + [e]) == LatestNonce(log)
    ensures UpstreamCount(log + [e]) == UpstreamCount(log) + if e.FromUpstream? then 1 else 0
    ensures UpstreamTlsUp in log ==> UpstreamTlsUp in log + [e]
  {
    hide Justified, NonceAfter;
    SafeAppend(cfg, w, log, e);
    FactsAppend(log, e);
    CountAppend(log, e);
  }

  // ---- Reading ----

  lemma ClientRead(cfg: Config, w: World, s: LoginState)
    requires Safe(cfg, w, s.log)
    ensures var (s1, got) := ReadClient(s);
            && Safe(cfg, w, s1.log) && s1.upstream == s.upstream && s1.upstreamIn == s.upstreamIn
            && LatestNonce(s1.log) == LatestNonce(s.log) && UpstreamCount(s1.log) == UpstreamCount(s.log)
            && (got.Message? ==> exists seqId, payload ::
                  && s1.log == s.log + [FromClient(seqId, payload)]
                  && ReadFrom(got.m, seqId, payload))
  {
    hide Dispatch, ReadFrom, Safe, LatestNonce, UpstreamCount;
    if s.clientIn != [] && s.clientIn[0].Arrived? {
      Appended(cfg, w, s.log, FromClient(s.clientIn[0].seqId, s.clientIn[0].payload));
    }
  }

  /** What reading the upstream leg can yield while it is authenticating. */
  lemma UpstreamRead(cfg: Config, w: World, s: LoginState)
    requires Safe(cfg, w, s.log) && HasAccepted(s.log) && HasResponse(s.log)
    requires s.upstream.state.WaitingAuthResponse? && s.upstream.isClientSide
    ensures var (s1, got) := ReadUpstream(s);
            && Safe(cfg, w, s1.log) && HasAccepted(s1.log) && HasResponse(s1.log) && UpstreamCount(s1.log) <= UpstreamCount(s.log) + 1
            && (UpstreamTlsUp in s.log ==> UpstreamTlsUp in s1.log)
            && (got.Message? && got.m.OkMsg? ==> HasServerOk(s1.log))
            && (got.Message? && got.m.Generic? ==>
                  s1.upstream == s.upstream && LatestNonce(s1.log) == NonceAfter(LatestNonce(s.log), got.m.payload))
  {
    hide Safe, LatestNonce, UpstreamCount, NonceAfter, HasAccepted, HasResponse, HasServerOk, ParseOk, ParseErr;
    if s.upstreamIn != [] && s.upstreamIn[0].Arrived? {
      var e := FromUpstream(s.upstreamIn[0].seqId, s.upstreamIn[0].payload);
      Appended(cfg, w, s.log, e);
      FactsAppend(s.log, e);
    }
  }

  // ---- The client leg ----

  lemma CheckClientSafe(
    cfg: Config, w: World, s: LoginState, username: bytes, scramble: bytes, seqId: byte)
    requires Safe(cfg, w, s.log) && Offered(cfg, w, s.log, scramble)
    ensures var (s1, v) := CheckClient(cfg, w.nonce, s, username, scramble, seqId);
            && Safe(cfg, w, s1.log) && LatestNonce(s1.log) == LatestNonce(s.log)
            && UpstreamCount(s1.log) == UpstreamCount(s.log) && s1.upstream == s.upstream
            && (v.Accepted? ==> HasAccepted(s1.log))
            && (v.Accepted? <==> CredentialOk(cfg, w.nonce, username, scramble))
  {
    hide Safe, LatestNonce, UpstreamCount, CredentialOk, Offered, HasAccepted;
    if CredentialOk(cfg, w.nonce, username, scramble) {
      Appended(cfg, w, s.log, ClientAccepted(username, scramble));
    } else {
      Appended(cfg, w, s.log, ToClient(NextSeq(seqId), AccessDenied(username)));
    }
  }

  lemma SwitchOffered(cfg: Config, w: World, log: seq<Event>, askSeq: byte, seqId: byte, payload: bytes)
    ensures Offered(cfg, w, log + [ToClient(askSeq, SwitchRequest(cfg.clientPlugin, w.nonce))] + [FromClient(seqId, payload)], payload)
  {
    var ask := ToClient(askSeq, SwitchRequest(cfg.clientPlugin, w.nonce));
    var all := log + [ask] + [FromClient(seqId, payload)];
    assert all[|all| - 1] == FromClient(seqId, payload);
    assert all[|log|] == ask && ask in all;
    hide Handshake.ParseHandshakeResponse, OfferedPlugin, NameOf;
  }

  lemma ClientAuthSafe(cfg: Config, w: World, s: LoginState, r: HandshakeResponse, firstSeq: byte)
    requires Safe(cfg, w, s.log)
    requires LastFromClient(s.log) == Some(r.raw) && Handshake.ParseHandshakeResponse(r.raw) == Success(r)
    ensures var (s1, v) := AuthenticateClient(cfg, w.nonce, s, r, firstSeq);
            && Safe(cfg, w, s1.log) && LatestNonce(s1.log) == LatestNonce(s.log)
            && UpstreamCount(s1.log) == UpstreamCount(s.log) && s1.upstream == s.upstream
            && (v.Accepted? ==> HasAccepted(s1.log))
  {
    hide Safe, LatestNonce, UpstreamCount, CredentialOk, HasAccepted, CheckClient, ReadClient, NameOf,
      Handshake.ParseHandshakeResponse, Offered;
    if OfferedPlugin(r) == NameOf(cfg.clientPlugin) {
      assert Offered(cfg, w, s.log, r.authResponse) by { ResponseOffered(cfg, w, s.log, r); }
      CheckClientSafe(cfg, w, s, r.username, r.authResponse, firstSeq);
    } else {
      var ask := ToClient(NextSeq(firstSeq), SwitchRequest(cfg.clientPlugin, w.nonce));
      var asked := s.(client := s.client.(state := WaitingAuthResponse)).Record(ask);
      Appended(cfg, w, s.log, ask);
      ClientRead(cfg, w, asked);
      var (s1, got) := ReadClient(asked);
      if got.Message? && got.m.Generic? {
        var seqId, payload :| s1.log == asked.log + [FromClient(seqId, payload)] && ReadFrom(got.m, seqId, payload);
        SwitchOffered(cfg, w, s.log, NextSeq(firstSeq), seqId, payload);
        CheckClientSafe(cfg, w, s1, r.username, got.m.payload, got.m.seqId);
      }
    }
  }

  lemma ResponseOffered(cfg: Config, w: World, log: seq<Event>, r: HandshakeResponse)
    requires LastFromClient(log) == Some(r.raw) && Handshake.ParseHandshakeResponse(r.raw) == Success(r)
    requires OfferedPlugin(r) == NameOf(cfg.clientPlugin)
    ensures Offered(cfg, w, log, r.authResponse)
  {
    hide Handshake.ParseHandshakeResponse, OfferedPlugin, NameOf, LastFromClient;
  }

  // ---- The upstream leg ----

  lemma PacketSafe(cfg: Config, w: World, s: LoginState, seqId: byte, payload: bytes, before: bytes, plugin: AuthPlugin)
    requires Safe(cfg, w, s.log) && HasAccepted(s.log) && HasResponse(s.log) && (cfg.upstreamTls ==> UpstreamTlsUp in s.log)
    requires LatestNonce(s.log) == NonceAfter(Some(before), payload)
    ensures match UpstreamPacket(cfg, s, seqId, payload, before, plugin)
            case Stop(s1) => s1 == s
            case Continue(s1, nonce, _) =>
              && Safe(cfg, w, s1.log) && HasAccepted(s1.log) && HasResponse(s1.log) && (cfg.upstreamTls ==> UpstreamTlsUp in s1.log)
              && LatestNonce(s1.log) == Some(nonce) && s1.upstream == s.upstream
              && UpstreamCount(s1.log) == UpstreamCount(s.log)
  {
    hide Safe, LatestNonce, UpstreamCount, HasAccepted, HasResponse, ParseAuthSwitchRequest, FromName, RsaEncryptedPassword;
    var sw := ParseAuthSwitchRequest(payload);
    if sw.Success? {
      var p := FromName(sw.value.0);
      if p.Some? {
        Appended(cfg, w, s.log, ToUpstream(NextSeq(seqId), ScrambleReply(p.value, sw.value.1)));
      }
    } else if ClassifyAuthMoreData(payload) == Some(FullAuthRequired) {
      var reply := FullAuthReply(cfg, before);
      if reply.Some? {
        Appended(cfg, w, s.log, ToUpstream(NextSeq(seqId), reply.value));
      }
    }
  }

  lemma {:induction false} LoopSafe(cfg: Config, w: World, s: LoginState, nonce: bytes, plugin: AuthPlugin, rounds: nat)
    requires rounds <= MAX_ROUNDS
    requires Safe(cfg, w, s.log) && HasAccepted(s.log) && HasResponse(s.log) && (cfg.upstreamTls ==> UpstreamTlsUp in s.log)
    requires LatestNonce(s.log) == Some(nonce)
    requires s.upstream.state.WaitingAuthResponse? && s.upstream.isClientSide
    ensures var (s1, ok) := UpstreamLoop(cfg, s, nonce, plugin, rounds);
            && Safe(cfg, w, s1.log) && HasAccepted(s1.log) && (ok ==> HasServerOk(s1.log))
            && UpstreamCount(s1.log) <= UpstreamCount(s.log) + (MAX_ROUNDS - rounds)
    decreases MAX_ROUNDS - rounds
  {
    hide Safe, LatestNonce, UpstreamCount, HasAccepted, HasResponse, HasServerOk, ReadUpstream, UpstreamPacket, NonceAfter;
    if rounds < MAX_ROUNDS {
      UpstreamRead(cfg, w, s);
      var (s1, got) := ReadUpstream(s);
      if got.Message? && got.m.Generic? {
        PacketSafe(cfg, w, s1, got.m.seqId, got.m.payload, nonce, plugin);
        var p := UpstreamPacket(cfg, s1, got.m.seqId, got.m.payload, nonce, plugin);
        if p.Continue? {
          LoopSafe(cfg, w, p.s, p.nonce, p.plugin, rounds + 1);
        }
      }
    }
  }

  lemma UpstreamAuthSafe(cfg: Config, w: World, s: LoginState, h: HandshakeV10, r: HandshakeResponse)
    requires Safe(cfg, w, s.log) && HasAccepted(s.log) && (cfg.upstreamTls ==> UpstreamTlsUp in s.log)
    requires LatestNonce(s.log) == Some(NonceFromHandshake(h.authPluginDataPart1, h.authPluginDataPart2))
    requires s.upstream.isClientSide
    ensures var (s1, ok) := AuthenticateUpstream(cfg, s, h, r);
            && Safe(cfg, w, s1.log) && HasAccepted(s1.log) && (ok ==> HasServerOk(s1.log))
            && UpstreamCount(s1.log) <= UpstreamCount(s.log) + MAX_ROUNDS
  {
    hide Safe, LatestNonce, UpstreamCount, HasAccepted, HasResponse, HasServerOk, UpstreamLoop, Negotiation.Negotiate, NameOf,
      FromName, NonceFromHandshake, Scramble;
    var nonce := NonceFromHandshake(h.authPluginDataPart1, h.authPluginDataPart2);
    var database := ChosenDatabase(cfg, r);
    var caps := Negotiation.Negotiate(r.capabilityFlags, h.capabilityFlags, database.Some?, cfg.upstreamTls);
    var e := ToUpstream(ResponseSeq(cfg), Response(UpstreamResponse(cfg, h, caps, r, database), PluginOf(h), nonce));
    Appended(cfg, w, s.log, e);
    var s1 := s.(upstream := s.upstream.(capabilityFlags := caps, state := WaitingAuthResponse)).Record(e);
    LoopSafe(cfg, w, s1, nonce, PluginOf(h), 0);
  }

  lemma UpgradeSafe(cfg: Config, w: World, s: LoginState, h: HandshakeV10, r: HandshakeResponse)
    requires Safe(cfg, w, s.log) && HasAccepted(s.log) && s.upstream.isClientSide
    ensures var (s1, connected) := UpgradeUpstream(cfg, w, s, h, r);
            && Safe(cfg, w, s1.log) && HasAccepted(s1.log) && s1.upstream.isClientSide
            && LatestNonce(s1.log) == LatestNonce(s.log) && UpstreamCount(s1.log) == UpstreamCount(s.log)
            && (connected && cfg.upstreamTls ==> UpstreamTlsUp in s1.log)
  {
    hide Safe, LatestNonce, UpstreamCount, HasAccepted, Has, Handshake.BuildSslRequest;
    if cfg.upstreamTls && Has(h.capabilityFlags, CLIENT_SSL) {
      var request := Handshake.BuildSslRequest(r.capabilityFlags, r.maxPacketSize, r.characterSet);
      var e := ToUpstream(request.seqId, SslRequest(request.payload));
      Appended(cfg, w, s.log, e);
      Appended(cfg, w, s.log + [e], UpstreamTlsUp);
    }
  }

  lemma ConcludeSafe(cfg: Config, w: World, s: LoginState, ok: bool, clientSeq: byte)
    requires Safe(cfg, w, s.log) && HasAccepted(s.log) && (ok ==> HasServerOk(s.log))
    ensures var s1 := Conclude(cfg, s, ok, clientSeq); Safe(cfg, w, s1.log) && UpstreamCount(s1.log) == UpstreamCount(s.log)
  {
    hide Safe, UpstreamCount, HasAccepted, HasServerOk, LatestNonce;
    var seq1 := NextSeq(clientSeq);
    if !ok {
      Appended(cfg, w, s.log, ToClient(seq1, UpstreamFailure));
    } else if cfg.clientPlugin.CachingSha2Password? {
      Appended(cfg, w, s.log, ToClient(seq1, FastAuthOk));
      Appended(cfg, w, s.log + [ToClient(seq1, FastAuthOk)], ToClient(NextSeq(seq1), LoginOk));
    } else {
      Appended(cfg, w, s.log, ToClient(seq1, LoginOk));
    }
  }

  lemma WithResponseSafe(cfg: Config, w: World, s: LoginState, h: HandshakeV10, r: HandshakeResponse, firstSeq: byte)
    requires Safe(cfg, w, s.log) && s.upstream.isClientSide
    requires LastFromClient(s.log) == Some(r.raw) && Handshake.ParseHandshakeResponse(r.raw) == Success(r)
    requires LatestNonce(s.log) == Some(NonceFromHandshake(h.authPluginDataPart1, h.authPluginDataPart2))
    ensures var s1 := WithResponse(cfg, w, s, h, r, firstSeq);
            Safe(cfg, w, s1.log) && UpstreamCount(s1.log) <= UpstreamCount(s.log) + MAX_ROUNDS
  {
    hide Safe, LatestNonce, UpstreamCount, HasAccepted, HasServerOk, AuthenticateClient, UpgradeUpstream,
      AuthenticateUpstream, Conclude, LastFromClient, NonceFromHandshake, Handshake.ParseHandshakeResponse;
    ClientAuthSafe(cfg, w, s, r, firstSeq);
    var (s1, v) := AuthenticateClient(cfg, w.nonce, s, r, firstSeq);
    if v.Accepted? {
      UpgradeSafe(cfg, w, s1, h, r);
      var (s2, connected) := UpgradeUpstream(cfg, w, s1, h, r);
      if connected {
        UpstreamAuthSafe(cfg, w, s2, h, r);
        var (s3, ok) := AuthenticateUpstream(cfg, s2, h, r);
        ConcludeSafe(cfg, w, s3, ok, v.seqId);
      }
    }
  }

  /** A handshake response read from the client is what its last packet says. */
  lemma ResponseRead(cfg: Config, w: World, s: LoginState)
    requires Safe(cfg, w, s.log) && s.client.state.WaitingHandshakeResponse? && !s.client.isClientSide
    ensures var (s1, got) := ReadClient(s);
            got.Message? && got.m.ResponseMsg? ==>
              var r := got.m.response;
              LastFromClient(s1.log) == Some(r.raw) && Handshake.ParseHandshakeResponse(r.raw) == Success(r)
  {
    hide Handshake.ParseHandshakeResponse, LastFromClient, NonceAfter, LatestNonce;
    if s.clientIn != [] && s.clientIn[0].Arrived? {
      FactsAppend(s.log, FromClient(s.clientIn[0].seqId, s.clientIn[0].payload));
    }
  }

  lemma GreetedSafe(cfg: Config, w: World, s: LoginState, h: HandshakeV10)
    requires Safe(cfg, w, s.log) && s.upstream.isClientSide
    requires s.client.state.WaitingHandshakeResponse? && !s.client.isClientSide
    requires LatestNonce(s.log) == Some(NonceFromHandshake(h.authPluginDataPart1, h.authPluginDataPart2))
    ensures var s1 := Greeted(cfg, w, s, h);
            Safe(cfg, w, s1.log) && UpstreamCount(s1.log) <= UpstreamCount(s.log) + MAX_ROUNDS
  {
    hide Safe, LatestNonce, UpstreamCount, ReadClient, WithResponse, LastFromClient, NonceFromHandshake,
      Handshake.ParseHandshakeResponse, Has;
    ClientRead(cfg, w, s);
    ResponseRead(cfg, w, s);
    var (s1, got) := ReadClient(s);
    if got.Message? && got.m.ResponseMsg? {
      var r := got.m.response;
      if !r.IsSslRequest() {
        WithResponseSafe(cfg, w, s1, h, r, 1);
      } else if cfg.tlsAcceptor && w.clientTlsOk {
        Appended(cfg, w, s1.log, ClientTlsUp);
        var secured := s1.(client := Codec(WaitingHandshakeResponse, r.capabilityFlags, false, 0, None)).Record(ClientTlsUp);
        ClientRead(cfg, w, secured);
        ResponseRead(cfg, w, secured);
        var (s2, again) := ReadClient(secured);
        if again.Message? && again.m.ResponseMsg? {
          WithResponseSafe(cfg, w, s2, h, again.m.response, 2);
        }
      }
    }
  }

  /** The first packet read upstream is the handshake the nonce is taken from. */
  lemma HandshakeRead(cfg: Config, w: World, s: LoginState)
    requires s.log == [] && s.upstream == NewClient()
    ensures var (s1, got) := ReadUpstream(s);
            && Safe(cfg, w, s1.log) && UpstreamCount(s1.log) <= 1 && s1.client == s.client && s1.upstream.isClientSide
            && (got.Message? && got.m.HandshakeMsg? ==>
                  LatestNonce(s1.log) == Some(NonceFromHandshake(got.m.handshake.authPluginDataPart1,
                                                                 got.m.handshake.authPluginDataPart2)))
  {
    hide Handshake.ParseHandshakeV10, NonceFromHandshake, Justified;
    if s.upstreamIn != [] && s.upstreamIn[0].Arrived? {
      var e := FromUpstream(s.upstreamIn[0].seqId, s.upstreamIn[0].payload);
      assert Justified(cfg, w, [], e) by { ReceivingIsJustified(cfg, w, [], e); }
      Appended(cfg, w, [], e);
      FactsAppend([], e);
      assert [] + [e] == [e];
    }
  }

  lemma ReceivingIsJustified(cfg: Config, w: World, log: seq<Event>, e: Event)
    requires e.FromUpstream? || e.FromClient?
    ensures Justified(cfg, w, log, e)
  {
  }

  /** Every login, against any packets: each event is justified by what came
      before it, and the server is heard at most once for its handshake and
      twenty times in the exchange. */
  lemma EveryLoginIsSafe(cfg: Config, w: World, clientIn: seq<Incoming>, upstreamIn: seq<Incoming>)
    requires |w.nonce| >= 8
    ensures var s := LogIn(cfg, w, Fresh(clientIn, upstreamIn));
            Safe(cfg, w, s.log) && UpstreamCount(s.log) <= 1 + 20
  {
    hide Safe, LatestNonce, UpstreamCount, ReadUpstream, Greeted, ClientHello, NonceFromHandshake;
    var s := Fresh(clientIn, upstreamIn);
    HandshakeRead(cfg, w, s);
    var (s1, got) := ReadUpstream(s);
    if got.Message? && got.m.HandshakeMsg? {
      var h := got.m.handshake;
      var hello := ClientHello(cfg, w, h);
      Appended(cfg, w, s1.log, ToClient(0, Hello(hello)));
      var greeting := AfterEncode(s1.client, HandshakeMsg(hello));
      var s2 := s1.(client := greeting.(capabilityFlags := h.capabilityFlags),
                    upstream := s1.upstream.(capabilityFlags := h.capabilityFlags)).Record(ToClient(0, Hello(hello)));
      GreetedSafe(cfg, w, s2, h);
    }
  }
}
