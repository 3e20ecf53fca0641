/** From the login to the command phase: which capability flags the two legs have
    when the client has been told that it is in. */
module LoginFlags {
  import opened Wrappers
  import opened Bytes
  import opened MySqlPackets
  import opened MySqlCodec
  import opened ResultSets
  import opened Auth
  import opened Session
  import opened Negotiation
  import opened Handshake
  import opened HonestLogin
  import MaskedResults
  import LaterResultSets
  import Interceptor

  /** The client has not been told yet, and the upstream codec is as it was made. */
  predicate Before(s: LoginState) {
    && (forall e | e in s.log :: !(e.ToClient? && e.sent.LoginOk?))
    && s.upstream.isClientSide && s.upstream.pending.None?
  }

  lemma ReadClientKeeps(s: LoginState)
    requires Before(s)
    ensures var s1 := ReadClient(s).0;
            && Before(s1) && s.log <= s1.log && s1.upstream == s.upstream
            && (s.client.state.WaitingAuthResponse? ==> s1.client.capabilityFlags == s.client.capabilityFlags)
  {
    hide ParseOk, ParseErr, ParseHandshakeV10, ParseHandshakeResponse, DispatchCommand, DispatchColumns, DispatchRows;
  }

  lemma ReadUpstreamKeeps(s: LoginState)
    requires Before(s)
    ensures var (s1, got) := ReadUpstream(s);
            && Before(s1) && s.log <= s1.log && s1.client == s.client
            && (s.upstream.state.WaitingAuthResponse? ==> s1.upstream.capabilityFlags == s.upstream.capabilityFlags)
            && (s.upstream.state.WaitingAuthResponse? && got.Message? && got.m.Generic? ==> s1.upstream.state.WaitingAuthResponse?)
  {
    hide ParseOk, ParseErr, ParseHandshakeV10, ParseHandshakeResponse, DispatchCommand, DispatchColumns, DispatchRows;
  }

  lemma RecordKeeps(s: LoginState, e: Event)
    requires Before(s) && !(e.ToClient? && e.sent.LoginOk?)
    ensures Before(s.Record(e)) && s.log <= s.Record(e).log
  {
  }

  lemma PacketKeeps(cfg: Config, s: LoginState, seqId: byte, payload: bytes, nonce: bytes, plugin: AuthPlugin)
    requires Before(s)
    ensures var p := UpstreamPacket(cfg, s, seqId, payload, nonce, plugin);
            Before(p.s) && s.log <= p.s.log && p.s.client == s.client && p.s.upstream == s.upstream
  {
    hide FromName, ParseAuthSwitchRequest, ClassifyAuthMoreData, FullAuthReply;
  }

  lemma {:induction false} LoopKeeps(cfg: Config, s: LoginState, nonce: bytes, plugin: AuthPlugin, rounds: nat)
    requires rounds <= MAX_ROUNDS && Before(s) && s.upstream.state.WaitingAuthResponse?
    ensures var s1 := UpstreamLoop(cfg, s, nonce, plugin, rounds).0;
            && Before(s1) && s.log <= s1.log && s1.client == s.client
            && s1.upstream.capabilityFlags == s.upstream.capabilityFlags
    decreases MAX_ROUNDS - rounds
  {
    hide Before, ReadUpstream, UpstreamPacket;
    if rounds < MAX_ROUNDS {
      ReadUpstreamKeeps(s);
      var (s1, got) := ReadUpstream(s);
      if got.Message? && got.m.Generic? {
        PacketKeeps(cfg, s1, got.m.seqId, got.m.payload, nonce, plugin);
        var p := UpstreamPacket(cfg, s1, got.m.seqId, got.m.payload, nonce, plugin);
        if p.Continue? {
          LoopKeeps(cfg, p.s, p.nonce, p.plugin, rounds + 1);
        }
      }
    }
  }

  /** The flags the proxy negotiates upstream. */
  function UpstreamFlags(cfg: Config, h: HandshakeV10, r: HandshakeResponse): u32 {
    Negotiate(r.capabilityFlags, h.capabilityFlags, ChosenDatabase(cfg, r).Some?, cfg.upstreamTls)
  }

  lemma UpstreamAuthKeeps(cfg: Config, s: LoginState, h: HandshakeV10, r: HandshakeResponse)
    requires Before(s)
    ensures var s1 := AuthenticateUpstream(cfg, s, h, r).0;
            && Before(s1) && s.log <= s1.log && s1.client == s.client
            && s1.upstream.capabilityFlags == UpstreamFlags(cfg, h, r)
  {
    hide UpstreamLoop, Negotiate, NameOf, FromName, NonceFromHandshake, Scramble;
    var nonce := NonceFromHandshake(h.authPluginDataPart1, h.authPluginDataPart2);
    var database := ChosenDatabase(cfg, r);
    var caps := UpstreamFlags(cfg, h, r);
    var s0 := s.(upstream := s.upstream.(capabilityFlags := caps, state := WaitingAuthResponse));
    var e := ToUpstream(ResponseSeq(cfg), Response(UpstreamResponse(cfg, h, caps, r, database), PluginOf(h), nonce));
    RecordKeeps(s0, e);
    LoopKeeps(cfg, s0.Record(e), nonce, PluginOf(h), 0);
  }

  lemma UpgradeKeeps(cfg: Config, w: World, s: LoginState, h: HandshakeV10, r: HandshakeResponse)
    requires Before(s)
    ensures var s1 := UpgradeUpstream(cfg, w, s, h, r).0; Before(s1) && s.log <= s1.log && s1.client == s.client
  {
    hide Has, BuildSslRequest;
  }

  lemma NotTold(s: LoginState)
    requires Before(s)
    ensures !EndsWith(s.log, LoginOk)
  {
    if s.log != [] {
      assert s.log[|s.log| - 1] in s.log;
    }
  }

  lemma ConcludedKeeps(cfg: Config, s: LoginState, ok: bool, clientSeq: byte)
    ensures var s1 := Conclude(cfg, s, ok, clientSeq); s1 == s.(log := s1.log) && s.log <= s1.log
  {
  }

  /** Both legs when the client has been told: its own flags, those negotiated. */
  predicate In(s: LoginState, client: u32, upstream: u32) {
    s.client.capabilityFlags == client && s.upstream.capabilityFlags == upstream
    && s.upstream.isClientSide && s.upstream.pending.None?
  }

  lemma UpstreamLegFlags(cfg: Config, w: World, s: LoginState, h: HandshakeV10, r: HandshakeResponse, clientSeq: byte)
    requires Before(s)
    ensures var s1 := LogInUpstream(cfg, w, s, h, r, clientSeq);
            s.log <= s1.log && (EndsWith(s1.log, LoginOk) ==> In(s1, s.client.capabilityFlags, UpstreamFlags(cfg, h, r)))
  {
    UpgradeKeeps(cfg, w, s, h, r);
    var (s1, connected) := UpgradeUpstream(cfg, w, s, h, r);
    NotTold(s1);
    if connected {
      UpstreamAuthKeeps(cfg, s1, h, r);
      var (s2, ok) := AuthenticateUpstream(cfg, s1, h, r);
      ConcludedKeeps(cfg, s2, ok, clientSeq);
      hide UpgradeUpstream, AuthenticateUpstream, Conclude, UpstreamFlags, EndsWith;
    }
  }

  lemma ClientAuthKeeps(cfg: Config, nonce: bytes, s: LoginState, r: HandshakeResponse, firstSeq: byte)
    requires Before(s)
    ensures var s1 := AuthenticateClient(cfg, nonce, s, r, firstSeq).0;
            Before(s1) && s.log <= s1.log && s1.client.capabilityFlags == s.client.capabilityFlags
  {
    hide NameOf, ReadClient, CredentialOk;
    if OfferedPlugin(r) != NameOf(cfg.clientPlugin) {
      var e := ToClient(NextSeq(firstSeq), SwitchRequest(cfg.clientPlugin, nonce));
      var s0 := s.(client := s.client.(state := WaitingAuthResponse));
      RecordKeeps(s0, e);
      ReadClientKeeps(s0.Record(e));
    }
  }

  lemma WithResponseFlags(cfg: Config, w: World, s: LoginState, h: HandshakeV10, r: HandshakeResponse, firstSeq: byte)
    requires Before(s) && s.client.capabilityFlags == r.capabilityFlags
    ensures var s1 := WithResponse(cfg, w, s, h, r, firstSeq);
            s.log <= s1.log && (EndsWith(s1.log, LoginOk) ==> In(s1, r.capabilityFlags, UpstreamFlags(cfg, h, r)))
  {
    hide AuthenticateClient, LogInUpstream, UpstreamFlags, In, EndsWith;
    ClientAuthKeeps(cfg, w.nonce, s, r, firstSeq);
    var (s1, v) := AuthenticateClient(cfg, w.nonce, s, r, firstSeq);
    NotTold(s1);
    if v.Accepted? {
      UpstreamLegFlags(cfg, w, s1, h, r, v.seqId);
    }
  }

  /** The client's response is in the log. */
  predicate Heard(log: seq<Event>, r: HandshakeResponse) {
    exists e :: e in log && e.FromClient? && ParseHandshakeResponse(e.payload) == Success(r)
  }

  lemma ResponseHeard(s: LoginState)
    requires s.client.state.WaitingHandshakeResponse? && !s.client.isClientSide
    ensures var (s1, got) := ReadClient(s);
            got.Message? && got.m.ResponseMsg? ==>
              Heard(s1.log, got.m.response) && s1.client.capabilityFlags == got.m.response.capabilityFlags
  {
    hide ParseHandshakeResponse;
    if s.clientIn != [] && s.clientIn[0].Arrived? {
      var e := FromClient(s.clientIn[0].seqId, s.clientIn[0].payload);
      assert e in s.log + [e];
    }
  }

  lemma StillHeard(log: seq<Event>, later: seq<Event>, r: HandshakeResponse)
    requires Heard(log, r) && log <= later
    ensures Heard(later, r)
  {
    hide ParseHandshakeResponse;
    var e :| e in log && e.FromClient? && ParseHandshakeResponse(e.payload) == Success(r);
    assert e in later;
  }

  /** The client sent a response with its flags; the other leg has what the proxy
      negotiates for them. */
  ghost predicate Negotiated(cfg: Config, s: LoginState, h: HandshakeV10) {
    exists r :: Heard(s.log, r) && In(s, r.capabilityFlags, UpstreamFlags(cfg, h, r))
  }

  lemma AnsweredFlags(cfg: Config, w: World, s: LoginState, h: HandshakeV10, r: HandshakeResponse, firstSeq: byte)
    requires Before(s) && s.client.capabilityFlags == r.capabilityFlags && Heard(s.log, r)
    ensures var s1 := WithResponse(cfg, w, s, h, r, firstSeq); EndsWith(s1.log, LoginOk) ==> Negotiated(cfg, s1, h)
  {
    hide WithResponse, UpstreamFlags, In, EndsWith, Heard;
    WithResponseFlags(cfg, w, s, h, r, firstSeq);
    StillHeard(s.log, WithResponse(cfg, w, s, h, r, firstSeq).log, r);
  }

  lemma GreetedFlags(cfg: Config, w: World, s: LoginState, h: HandshakeV10)
    requires Before(s) && s.client.state.WaitingHandshakeResponse? && !s.client.isClientSide
    ensures var s1 := Greeted(cfg, w, s, h); EndsWith(s1.log, LoginOk) ==> Negotiated(cfg, s1, h)
  {
    hide ReadClient, WithResponse, Has, EndsWith, Negotiated, Heard;
    ReadClientKeeps(s);
    ResponseHeard(s);
    var (s1, got) := ReadClient(s);
    NotTold(s1);
    if got.Message? && got.m.ResponseMsg? {
      var r := got.m.response;
      if !r.IsSslRequest() {
        AnsweredFlags(cfg, w, s1, h, r, 1);
      } else if cfg.tlsAcceptor && w.clientTlsOk {
        var s2 := s1.(client := Codec(WaitingHandshakeResponse, r.capabilityFlags, false, 0, None));
        RecordKeeps(s2, ClientTlsUp);
        var secured := s2.Record(ClientTlsUp);
        ReadClientKeeps(secured);
        ResponseHeard(secured);
        var (s3, again) := ReadClient(secured);
        NotTold(s3);
        if again.Message? && again.m.ResponseMsg? {
          AnsweredFlags(cfg, w, s3, h, again.m.response, 2);
        }
      }
    }
  }

  /** After every login that ends with the client's OK the proxy's client side has
      the flags of a response the client sent, and its upstream side those
      negotiated for it with the server's greeting. */
  lemma LoginNegotiates(cfg: Config, w: World, clientIn: seq<Incoming>, upstreamIn: seq<Incoming>)
    requires |w.nonce| >= 8
    ensures var s := LogIn(cfg, w, Fresh(clientIn, upstreamIn));
            EndsWith(s.log, LoginOk) ==>
              && upstreamIn != [] && upstreamIn[0].Arrived? && ParseHandshakeV10(upstreamIn[0].payload).Success?
              && Negotiated(cfg, s, ParseHandshakeV10(upstreamIn[0].payload).value)
  {
    hide Greeted, ClientHello, EndsWith, Negotiated, ParseHandshakeV10;
    var s := Fresh(clientIn, upstreamIn);
    ReadUpstreamKeeps(s);
    var (s1, got) := ReadUpstream(s);
    NotTold(s1);
    if got.Message? && got.m.HandshakeMsg? {
      var h := got.m.handshake;
      var hello := ClientHello(cfg, w, h);
      var s2 := s1.(client := AfterEncode(s1.client, HandshakeMsg(hello)).(capabilityFlags := h.capabilityFlags),
                    upstream := s1.upstream.(capabilityFlags := h.capabilityFlags));
      RecordKeeps(s2, ToClient(0, Hello(hello)));
      GreetedFlags(cfg, w, s2.Record(ToClient(0, Hello(hello))), h);
    }
  }

  /** After such a login the two legs agree on a flag the proxy does not own if and
      only if the client has set it only where the server offers it. */
  lemma LegsAgreeAfterLogin(cfg: Config, w: World, clientIn: seq<Incoming>, upstreamIn: seq<Incoming>, k: nat)
    requires |w.nonce| >= 8 && k < 32 && !Owned(k)
    requires EndsWith(LogIn(cfg, w, Fresh(clientIn, upstreamIn)).log, LoginOk)
    ensures upstreamIn != [] && upstreamIn[0].Arrived? && ParseHandshakeV10(upstreamIn[0].payload).Success?
    ensures var s := LogIn(cfg, w, Fresh(clientIn, upstreamIn));
            var client, offered := s.client.capabilityFlags, ParseHandshakeV10(upstreamIn[0].payload).value.capabilityFlags;
            (Has(s.upstream.capabilityFlags, k) <==> Has(client, k)) <==> (Has(client, k) ==> Has(offered, k))
  {
    hide LogIn, EndsWith, Heard, Has, Negotiate, ParseHandshakeV10;
    LoginNegotiates(cfg, w, clientIn, upstreamIn);
    var s := LogIn(cfg, w, Fresh(clientIn, upstreamIn));
    var h := ParseHandshakeV10(upstreamIn[0].payload).value;
    var r :| Heard(s.log, r) && In(s, r.capabilityFlags, UpstreamFlags(cfg, h, r));
    NegotiatedBits(r.capabilityFlags, h.capabilityFlags, ChosenDatabase(cfg, r).Some?, cfg.upstreamTls, k);
  }

  /** A client in its command phase with the flags of its response. */
  predicate InCommandPhase(c: Codec, flags: u32) {
    c.state.Command? && c.isClientSide && c.pending.None? && c.capabilityFlags == flags
  }

  /** Login and command phase together: after a login in which the client set
      CLIENT_DEPRECATE_EOF only if the server offers it, the client decodes exactly
      the masked replies to its query. */
  lemma LoggedInClientSeesMaskedReplies(
    cfg: Config, w: World, clientIn: seq<Incoming>, upstreamIn: seq<Incoming>, mask: MaskedResults.Config, client: Codec,
    replies: seq<Reply>, d: bool)
    requires |w.nonce| >= 8 && MaskedResults.Ready(mask)
    requires EndsWith(LogIn(cfg, w, Fresh(clientIn, upstreamIn)).log, LoginOk)
    requires upstreamIn != [] && upstreamIn[0].Arrived? && ParseHandshakeV10(upstreamIn[0].payload).Success?
    requires InCommandPhase(client, LogIn(cfg, w, Fresh(clientIn, upstreamIn)).client.capabilityFlags)
    requires d == Has(client.capabilityFlags, CLIENT_DEPRECATE_EOF)
    requires d ==> Has(ParseHandshakeV10(upstreamIn[0].payload).value.capabilityFlags, CLIENT_DEPRECATE_EOF)
    requires LaterResultSets.AllWellFormed(replies, d)
    requires forall r | r in LaterResultSets.MaskedReplies(mask, [], replies, d) :: LaterResultSets.FitsWhenMasked(r)
    ensures var upstream := LogIn(cfg, w, Fresh(clientIn, upstreamIn)).upstream.(state := Command);
            var masked := LaterResultSets.MaskedReplies(mask, [], replies, d);
            var relayed := MaskedResults.Relay(mask, Interceptor.NOTHING, DecodeAll(upstream, Wire(AllPackets(replies, d))).messages).1;
            && LaterResultSets.AllWellFormed(masked, d)
            && (forall m | m in relayed :: Encodable(m))
            && DecodeAll(client, EncodeAll(relayed, client.capabilityFlags)).messages == AllMessages(masked, client.capabilityFlags)
  {
    hide LogIn, EndsWith, Has, ParseHandshakeV10, MaskedResults.Ready, LaterResultSets.AllWellFormed, Negotiated,
      LaterResultSets.MaskedReplies, LaterResultSets.FitsWhenMasked, MaskedResults.Relay, DecodeAll, EncodeAll, Wire, AllPackets,
      AllMessages;
    LegsAgreeAfterLogin(cfg, w, clientIn, upstreamIn, CLIENT_DEPRECATE_EOF);
    LoginLeavesUpstream(cfg, w, clientIn, upstreamIn);
    var upstream := LogIn(cfg, w, Fresh(clientIn, upstreamIn)).upstream.(state := Command);
    LaterResultSets.ClientDecodesMaskedReplies(mask, upstream, client, replies, d);
  }

  lemma LoginLeavesUpstream(cfg: Config, w: World, clientIn: seq<Incoming>, upstreamIn: seq<Incoming>)
    requires |w.nonce| >= 8 && EndsWith(LogIn(cfg, w, Fresh(clientIn, upstreamIn)).log, LoginOk)
    ensures var c := LogIn(cfg, w, Fresh(clientIn, upstreamIn)).upstream; c.isClientSide && c.pending.None?
  {
    hide LogIn, EndsWith, Heard, ParseHandshakeV10, UpstreamFlags;
    LoginNegotiates(cfg, w, clientIn, upstreamIn);
  }
}
