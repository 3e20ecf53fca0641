/** A terminate-mode login: the proxy authenticates its client itself, then logs
    in upstream with its own credential. Everything it receives, sends and
    decides is recorded, in order, in a log. */
module Session {
  import opened Wrappers
  import opened Bytes
  import opened Framing
  import opened MySqlPackets
  import opened MySqlCodec
  import opened Auth
  import opened Negotiation
  import Handshake

  type Encryptor = bytes -> Option<bytes>

  /** The configured credentials. The RSA key is the encryption under it. */
  datatype Config = Config(
    hashes: Hashes, clientUsername: bytes, clientPassword: bytes, clientPlugin: AuthPlugin,
    upstreamUsername: bytes, upstreamPassword: bytes, upstreamDatabase: Option<bytes>, rsaKey: Option<Encryptor>,
    upstreamTls: bool, tlsAcceptor: bool)

  /** Chance and the outside world: the nonce drawn for the client, and how the
      two TLS handshakes go. */
  datatype World = World(nonce: bytes, clientTlsOk: bool, upstreamEarlyData: bool, upstreamTlsOk: bool)

  /** What a connection yields next: a packet, its end, or an error (a read
      failure, the handshake deadline, a shutdown). */
  datatype Incoming = Arrived(seqId: byte, payload: bytes) | Closed | Failed

  datatype ClientSend =
    | Hello(handshake: HandshakeV10)
    | SwitchRequest(plugin: AuthPlugin, nonce: bytes)
    | AccessDenied(username: bytes)
    | UpstreamFailure
    | FastAuthOk
    | LoginOk

  /** Packets sent upstream; all but the SSLRequest derive from the password. */
  datatype UpstreamSend =
    | SslRequest(payload: bytes)
    | Response(response: HandshakeResponse, plugin: AuthPlugin, nonce: bytes)
    | ScrambleReply(plugin: AuthPlugin, nonce: bytes)
    | Cleartext
    | RsaReply(nonce: bytes)

  datatype Event =
    | FromClient(seqId: byte, payload: bytes)
    | FromUpstream(seqId: byte, payload: bytes)
    | ToClient(seqId: byte, sent: ClientSend)
    | ToUpstream(seqId: byte, reply: UpstreamSend)
    | ClientTlsUp
    | UpstreamTlsUp
    | ClientAccepted(username: bytes, scramble: bytes)

  datatype LoginState = LoginState(
    client: Codec, upstream: Codec, clientIn: seq<Incoming>, upstreamIn: seq<Incoming>, log: seq<Event>)
  {
    function Record(e: Event): LoginState {
      this.(log := log + [e])
    }
  }

  /** One message read from a leg, the end of the stream, or an error. */
  datatype Got = Message(m: MySqlPackets.Message) | End | Broken

  function Received(c: Codec, p: Incoming): (Codec, Got)
    requires p.Arrived?
  {
    var (d, r) := Dispatch(c, p.seqId, p.payload, |p.payload| >= M);
    (d, if r.Success? then Message(r.value) else Broken)
  }

  function ReadClient(s: LoginState): (LoginState, Got) {
    if s.clientIn == [] || s.clientIn[0].Closed? then (s.(clientIn := if s.clientIn == [] then [] else s.clientIn[1..]), End)
    else if s.clientIn[0].Failed? then (s.(clientIn := s.clientIn[1..]), Broken)
    else
      var p := s.clientIn[0];
      var (d, g) := Received(s.client, p);
      (s.(client := d, clientIn := s.clientIn[1..]).Record(FromClient(p.seqId, p.payload)), g)
  }

  function ReadUpstream(s: LoginState): (LoginState, Got) {
    if s.upstreamIn == [] || s.upstreamIn[0].Closed?
    then (s.(upstreamIn := if s.upstreamIn == [] then [] else s.upstreamIn[1..]), End)
    else if s.upstreamIn[0].Failed? then (s.(upstreamIn := s.upstreamIn[1..]), Broken)
    else
      var p := s.upstreamIn[0];
      var (d, g) := Received(s.upstream, p);
      (s.(upstream := d, upstreamIn := s.upstreamIn[1..]).Record(FromUpstream(p.seqId, p.payload)), g)
  }

  // ---- The client leg ----

  /** Accepted with the sequence id of the client's last packet, or the login is over. */
  datatype Verdict = Accepted(seqId: byte) | Over

  predicate CredentialOk(cfg: Config, nonce: bytes, username: bytes, scramble: bytes) {
    username == cfg.clientUsername && Verify(cfg.hashes, cfg.clientPlugin, cfg.clientPassword, nonce, scramble)
  }

  function CheckClient(cfg: Config, nonce: bytes, s: LoginState, username: bytes, scramble: bytes, seqId: byte): (LoginState, Verdict) {
    if CredentialOk(cfg, nonce, username, scramble)
    then (s.Record(ClientAccepted(username, scramble)), Accepted(seqId))
    else (s.Record(ToClient(NextSeq(seqId), AccessDenied(username))), Over)
  }

  function OfferedPlugin(r: HandshakeResponse): bytes {
    if r.authPluginName.Some? then r.authPluginName.value else []
  }

  function AuthenticateClient(cfg: Config, nonce: bytes, s: LoginState, r: HandshakeResponse, firstSeq: byte): (LoginState, Verdict) {
    if OfferedPlugin(r) == NameOf(cfg.clientPlugin)
    then CheckClient(cfg, nonce, s, r.username, r.authResponse, firstSeq)
    else
      var asked := s.(client := s.client.(state := WaitingAuthResponse))
                    .Record(ToClient(NextSeq(firstSeq), SwitchRequest(cfg.clientPlugin, nonce)));
      var (s1, got) := ReadClient(asked);
      if got.Message? && got.m.Generic? then CheckClient(cfg, nonce, s1, r.username, got.m.payload, got.m.seqId)
      else (s1, Over)
  }

  // ---- The upstream leg ----

  /** How the loop goes on after a packet that is neither OK nor ERR. */
  datatype Progress = Continue(s: LoginState, nonce: bytes, plugin: AuthPlugin) | Stop(s: LoginState)

  function FullAuthReply(cfg: Config, nonce: bytes): Option<UpstreamSend> {
    if cfg.upstreamTls then Some(Cleartext)
    else if cfg.rsaKey.Some? && RsaEncryptedPassword(cfg.rsaKey.value, cfg.upstreamPassword, nonce).Some?
    then Some(RsaReply(nonce))
    else None
  }

  function UpstreamPacket(cfg: Config, s: LoginState, seqId: byte, payload: bytes, nonce: bytes, plugin: AuthPlugin): Progress {
    var sw := ParseAuthSwitchRequest(payload);
    if sw.Success? then
      match FromName(sw.value.0)
      case None => Stop(s)
      case Some(p) =>
        Continue(s.Record(ToUpstream(NextSeq(seqId), ScrambleReply(p, sw.value.1))), sw.value.1, p)
    else
      match ClassifyAuthMoreData(payload)
      case Some(FastAuthSuccess) => Continue(s, nonce, plugin)
      case Some(FullAuthRequired) => (
        match FullAuthReply(cfg, nonce)
        case None => Stop(s)
        case Some(reply) => Continue(s.Record(ToUpstream(NextSeq(seqId), reply)), nonce, plugin))
      case _ => Stop(s)
  }

  const MAX_ROUNDS: nat := 20

  /** The exchange after the response: `true` when the server said OK. */
  function UpstreamLoop(cfg: Config, s: LoginState, nonce: bytes, plugin: AuthPlugin, rounds: nat): (LoginState, bool)
    requires rounds <= MAX_ROUNDS
    decreases MAX_ROUNDS - rounds
  {
    if rounds == MAX_ROUNDS then (s, false)
    else
      var (s1, got) := ReadUpstream(s);
      if !got.Message? then (s1, false)
      else if got.m.OkMsg? then (s1, true)
      else if got.m.Generic? then
        match UpstreamPacket(cfg, s1, got.m.seqId, got.m.payload, nonce, plugin)
        case Stop(s2) => (s2, false)
        case Continue(s2, nonce2, plugin2) => UpstreamLoop(cfg, s2, nonce2, plugin2, rounds + 1)
      else (s1, false)
  }

  /** An unknown plugin is met with the default one; the server will switch. */
  function PluginOf(h: HandshakeV10): AuthPlugin {
    var p := FromName(h.authPluginName);
    if p.Some? then p.value else CachingSha2Password
  }

  function UpstreamResponse(cfg: Config, h: HandshakeV10, caps: u32, r: HandshakeResponse, database: Option<bytes>)
    : HandshakeResponse
  {
    var nonce := NonceFromHandshake(h.authPluginDataPart1, h.authPluginDataPart2);
    var plugin := PluginOf(h);
    HandshakeResponse(caps, r.maxPacketSize, r.characterSet, cfg.upstreamUsername,
                      Scramble(cfg.hashes, plugin, cfg.upstreamPassword, nonce), database, Some(NameOf(plugin)), [])
  }

  function ChosenDatabase(cfg: Config, r: HandshakeResponse): Option<bytes> {
    if r.database.Some? && r.database.value != [] then r.database else cfg.upstreamDatabase
  }

  function ResponseSeq(cfg: Config): byte {
    if cfg.upstreamTls then 2 else 1
  }

  function AuthenticateUpstream(cfg: Config, s: LoginState, h: HandshakeV10, r: HandshakeResponse): (LoginState, bool) {
    var nonce := NonceFromHandshake(h.authPluginDataPart1, h.authPluginDataPart2);
    var database := ChosenDatabase(cfg, r);
    var caps := Negotiate(r.capabilityFlags, h.capabilityFlags, database.Some?, cfg.upstreamTls);
    var response := UpstreamResponse(cfg, h, caps, r, database);
    var s1 := s.(upstream := s.upstream.(capabilityFlags := caps, state := WaitingAuthResponse))
               .Record(ToUpstream(ResponseSeq(cfg), Response(response, PluginOf(h), nonce)));
    UpstreamLoop(cfg, s1, nonce, PluginOf(h), 0)
  }

  /** TLS upstream, where configured: `None` when it cannot be had. */
  function UpgradeUpstream(cfg: Config, w: World, s: LoginState, h: HandshakeV10, r: HandshakeResponse): (LoginState, bool) {
    if !cfg.upstreamTls then (s, true)
    else if !Has(h.capabilityFlags, CLIENT_SSL) then (s, false)
    else
      var request := Handshake.BuildSslRequest(r.capabilityFlags, r.maxPacketSize, r.characterSet);
      var s1 := s.Record(ToUpstream(request.seqId, SslRequest(request.payload)));
      if w.upstreamEarlyData || !w.upstreamTlsOk then (s1, false)
      else
        (s1.(upstream := Codec(WaitingHandshakeResponse, r.capabilityFlags, true, 0, None)).Record(UpstreamTlsUp), true)
  }

  // ---- The whole login ----

  /** The handshake the client sees: the proxy's own nonce and plugin. */
  function ClientHello(cfg: Config, w: World, h: HandshakeV10): HandshakeV10
    requires |w.nonce| >= 8
  {
    h.(capabilityFlags := HelloFlags(h.capabilityFlags, cfg.tlsAcceptor),
       authPluginDataPart1 := w.nonce[..8], authPluginDataPart2 := w.nonce[8..],
       authPluginName := NameOf(cfg.clientPlugin), raw := [])
  }

  function Conclude(cfg: Config, s: LoginState, ok: bool, clientSeq: byte): LoginState {
    if !ok then s.Record(ToClient(NextSeq(clientSeq), UpstreamFailure))
    else if cfg.clientPlugin.CachingSha2Password? then
      s.Record(ToClient(NextSeq(clientSeq), FastAuthOk)).Record(ToClient(NextSeq(NextSeq(clientSeq)), LoginOk))
    else s.Record(ToClient(NextSeq(clientSeq), LoginOk))
  }

  function LogInUpstream(cfg: Config, w: World, s: LoginState, h: HandshakeV10, r: HandshakeResponse, clientSeq: byte): LoginState {
    var (s1, connected) := UpgradeUpstream(cfg, w, s, h, r);
    if !connected then s1
    else
      var (s2, ok) := AuthenticateUpstream(cfg, s1, h, r);
      Conclude(cfg, s2, ok, clientSeq)
  }

  function WithResponse(cfg: Config, w: World, s: LoginState, h: HandshakeV10, r: HandshakeResponse, firstSeq: byte): LoginState {
    var (s1, verdict) := AuthenticateClient(cfg, w.nonce, s, r, firstSeq);
    if verdict.Over? then s1 else LogInUpstream(cfg, w, s1, h, r, verdict.seqId)
  }

  function Greeted(cfg: Config, w: World, s: LoginState, h: HandshakeV10): LoginState {
    var (s1, got) := ReadClient(s);
    if !got.Message? || !got.m.ResponseMsg? then s1
    else
      var r := got.m.response;
      if !r.IsSslRequest() then WithResponse(cfg, w, s1, h, r, 1)
      else if !cfg.tlsAcceptor || !w.clientTlsOk then s1
      else
        var secured := s1.(client := Codec(WaitingHandshakeResponse, r.capabilityFlags, false, 0, None)).Record(ClientTlsUp);
        var (s2, again) := ReadClient(secured);
        if !again.Message? || !again.m.ResponseMsg? then s2
        else WithResponse(cfg, w, s2, h, again.m.response, 2)
  }

  function LogIn(cfg: Config, w: World, s: LoginState): LoginState
    requires |w.nonce| >= 8
  {
    var (s1, got) := ReadUpstream(s);
    if !got.Message? || !got.m.HandshakeMsg? then s1
    else
      var h := got.m.handshake;
      var hello := ClientHello(cfg, w, h);
      var greeting := AfterEncode(s1.client, HandshakeMsg(hello));
      var s2 := s1.(client := greeting.(capabilityFlags := h.capabilityFlags),
                    upstream := s1.upstream.(capabilityFlags := h.capabilityFlags)).Record(ToClient(0, Hello(hello)));
      Greeted(cfg, w, s2, h)
  }

  function Fresh(clientIn: seq<Incoming>, upstreamIn: seq<Incoming>): LoginState {
    LoginState(NewServer(), NewClient(), clientIn, upstreamIn, [])
  }

  // ---- The same, as the connection handler runs it ----

  class Login {
    var client: Codec
    var upstream: Codec
    var clientIn: seq<Incoming>
    var upstreamIn: seq<Incoming>
    var log: seq<Event>

    ghost function View(): LoginState
      reads this
    {
      LoginState(client, upstream, clientIn, upstreamIn, log)
    }

    constructor (clientPackets: seq<Incoming>, upstreamPackets: seq<Incoming>)
      ensures View() == Fresh(clientPackets, upstreamPackets)
    {
      client, upstream := NewServer(), NewClient();
      clientIn, upstreamIn, log := clientPackets, upstreamPackets, [];
    }

    method NextFromClient() returns (got: Got)
      modifies this
      ensures (View(), got) == ReadClient(old(View()))
    {
      if clientIn == [] {
        return End;
      }
      var p := clientIn[0];
      clientIn := clientIn[1..];
      if p.Closed? {
        return End;
      }
      if p.Failed? {
        return Broken;
      }
      var (d, g) := Received(client, p);
      client := d;
      log := log + [FromClient(p.seqId, p.payload)];
      got := g;
    }

    method NextFromUpstream() returns (got: Got)
      modifies this
      ensures (View(), got) == ReadUpstream(old(View()))
    {
      if upstreamIn == [] {
        return End;
      }
      var p := upstreamIn[0];
      upstreamIn := upstreamIn[1..];
      if p.Closed? {
        return End;
      }
      if p.Failed? {
        return Broken;
      }
      var (d, g) := Received(upstream, p);
      upstream := d;
      log := log + [FromUpstream(p.seqId, p.payload)];
      got := g;
    }

    method RunClientAuth(cfg: Config, nonce: bytes, r: HandshakeResponse, firstSeq: byte) returns (v: Verdict)
      modifies this
      ensures (View(), v) == AuthenticateClient(cfg, nonce, old(View()), r, firstSeq)
    {
      hide ReadClient, NameOf, Verify;
      var seqId := firstSeq;
      var scramble := r.authResponse;
      if OfferedPlugin(r) != NameOf(cfg.clientPlugin) {
        seqId := NextSeq(seqId);
        client := client.(state := WaitingAuthResponse);
        log := log + [ToClient(seqId, SwitchRequest(cfg.clientPlugin, nonce))];
        var got := NextFromClient();
        if !got.Message? || !got.m.Generic? {
          return Over;
        }
        seqId, scramble := got.m.seqId, got.m.payload;
      }
      var usernameOk := r.username == cfg.clientUsername;
      var passwordOk := VerifyScramble(cfg.hashes, cfg.clientPlugin, cfg.clientPassword, nonce, scramble);
      if !usernameOk || !passwordOk {
        log := log + [ToClient(NextSeq(seqId), AccessDenied(r.username))];
        return Over;
      }
      log := log + [ClientAccepted(r.username, scramble)];
      v := Accepted(seqId);
    }

    method RunUpstreamAuth(cfg: Config, h: HandshakeV10, r: HandshakeResponse) returns (ok: bool)
      modifies this
      ensures (View(), ok) == AuthenticateUpstream(cfg, old(View()), h, r)
    {
      hide ReadUpstream, NameOf, Negotiate, NonceOf, ParseAuthSwitchRequest, FromName, ClassifyAuthMoreData,
        RsaEncryptedPassword, Scramble;
      var nonce := TrimNonce(h.authPluginDataPart1 + h.authPluginDataPart2);
      var plugin := PluginOf(h);
      var database := ChosenDatabase(cfg, r);
      var caps := NegotiateUpstreamCapabilities(r.capabilityFlags, h.capabilityFlags, database.Some?, cfg.upstreamTls);
      var response := UpstreamResponse(cfg, h, caps, r, database);
      upstream := upstream.(capabilityFlags := caps, state := WaitingAuthResponse);
      log := log + [ToUpstream(ResponseSeq(cfg), Response(response, plugin, nonce))];
      ghost var all := UpstreamLoop(cfg, View(), nonce, plugin, 0);
      var rounds := 0;
      while rounds < MAX_ROUNDS
        invariant 0 <= rounds <= MAX_ROUNDS
        invariant UpstreamLoop(cfg, View(), nonce, plugin, rounds) == all
      {
        var got := NextFromUpstream();
        if !got.Message? {
          return false;
        }
        if got.m.OkMsg? {
          return true;
        }
        if !got.m.Generic? {
          return false;
        }
        var replySeq := NextSeq(got.m.seqId);
        var sw := ParseAuthSwitchRequest(got.m.payload);
        if sw.Success? {
          var p := FromName(sw.value.0);
          if p.None? {
            return false;
          }
          plugin, nonce := p.value, sw.value.1;
          log := log + [ToUpstream(replySeq, ScrambleReply(plugin, nonce))];
        } else {
          var more := ClassifyAuthMoreData(got.m.payload);
          if more == Some(FullAuthRequired) {
            var reply := FullAuthReply(cfg, nonce);
            if reply.None? {
              return false;
            }
            log := log + [ToUpstream(replySeq, reply.value)];
          } else if more != Some(FastAuthSuccess) {
            return false;
          }
        }
        rounds := rounds + 1;
      }
      ok := false;
    }

    method RunUpgrade(cfg: Config, w: World, h: HandshakeV10, r: HandshakeResponse) returns (connected: bool)
      modifies this
      ensures (View(), connected) == UpgradeUpstream(cfg, w, old(View()), h, r)
    {
      hide Has, Handshake.BuildSslRequest;
      if !cfg.upstreamTls {
        return true;
      }
      if !Has(h.capabilityFlags, CLIENT_SSL) {
        return false;
      }
      var request := Handshake.BuildSslRequest(r.capabilityFlags, r.maxPacketSize, r.characterSet);
      log := log + [ToUpstream(request.seqId, SslRequest(request.payload))];
      if w.upstreamEarlyData || !w.upstreamTlsOk {
        return false;
      }
      upstream := Codec(WaitingHandshakeResponse, r.capabilityFlags, true, 0, None);
      log := log + [UpstreamTlsUp];
      connected := true;
    }

    method RunWithResponse(cfg: Config, w: World, h: HandshakeV10, r: HandshakeResponse, firstSeq: byte)
      modifies this
      ensures View() == WithResponse(cfg, w, old(View()), h, r, firstSeq)
    {
      hide AuthenticateClient, AuthenticateUpstream, UpgradeUpstream;
      var v := RunClientAuth(cfg, w.nonce, r, firstSeq);
      if v.Over? {
        return;
      }
      var connected := RunUpgrade(cfg, w, h, r);
      if !connected {
        return;
      }
      var ok := RunUpstreamAuth(cfg, h, r);
      var seqId := NextSeq(v.seqId);
      if !ok {
        log := log + [ToClient(seqId, UpstreamFailure)];
        return;
      }
      if cfg.clientPlugin.CachingSha2Password? {
        log := log + [ToClient(seqId, FastAuthOk)];
        seqId := NextSeq(seqId);
      }
      log := log + [ToClient(seqId, LoginOk)];
    }

    method Run(cfg: Config, w: World)
      requires |w.nonce| >= 8
      modifies this
      ensures View() == LogIn(cfg, w, old(View()))
    {
      hide ReadClient, ReadUpstream, WithResponse, ClientHello;
      var got := NextFromUpstream();
      if !got.Message? || !got.m.HandshakeMsg? {
        return;
      }
      var h := got.m.handshake;
      var hello := ClientHello(cfg, w, h);
      client := AfterEncode(client, HandshakeMsg(hello)).(capabilityFlags := h.capabilityFlags);
      upstream := upstream.(capabilityFlags := h.capabilityFlags);
      log := log + [ToClient(0, Hello(hello))];
      var answer := NextFromClient();
      if !answer.Message? || !answer.m.ResponseMsg? {
        return;
      }
      var r := answer.m.response;
      var firstSeq: byte := 1;
      if r.IsSslRequest() {
        if !cfg.tlsAcceptor || !w.clientTlsOk {
          return;
        }
        client := Codec(WaitingHandshakeResponse, r.capabilityFlags, false, 0, None);
        log := log + [ClientTlsUp];
        answer := NextFromClient();
        if !answer.Message? || !answer.m.ResponseMsg? {
          return;
        }
        r, firstSeq := answer.m.response, 2;
      }
      RunWithResponse(cfg, w, h, r, firstSeq);
    }
  }
}
