/** Sequence numbers over a whole terminate-mode login: when the proxy numbers
    its packets consecutively on both legs, provided that the peers do. */
module SessionNumbering {
  import opened Wrappers
  import opened Bytes
  import opened Framing
  import opened MySqlPackets
  import opened MySqlCodec
  import opened Auth
  import opened Session
  import Handshake

  datatype Leg = ClientLeg | UpstreamLeg

  predicate OnLeg(e: Event, leg: Leg) {
    match leg
    case ClientLeg => e.FromClient? || e.ToClient?
    case UpstreamLeg => e.FromUpstream? || e.ToUpstream?
  }

  predicate IsPacket(e: Event) {
    OnLeg(e, ClientLeg) || OnLeg(e, UpstreamLeg)
  }

  function LegOf(e: Event): Leg
    requires IsPacket(e)
  {
    if OnLeg(e, ClientLeg) then ClientLeg else UpstreamLeg
  }

  predicate IsReceived(e: Event) {
    e.FromClient? || e.FromUpstream?
  }

  /** The last packet on the leg, if there was one. */
  function LastOn(log: seq<Event>, leg: Leg): Option<Event> {
    if log == [] then None
    else if OnLeg(log[|log| - 1], leg) then Some(log[|log| - 1])
    else LastOn(log[..|log| - 1], leg)
  }

  /** A payload of 16 MiB or more goes in several packets, numbered on. Of what
      the proxy sends only its handshake response, with the client's database
      in it, is chunked and can be that long. */
  function FurtherPackets(e: Event): nat {
    if IsReceived(e) then |e.payload| / M
    else if e.ToUpstream? && e.reply.Response? then |Handshake.BuildResponsePayload(e.reply.response)| / M
    else 0
  }

  /** The number due on the leg: the one after the last packet on the wire. */
  function Due(log: seq<Event>, leg: Leg): byte {
    match LastOn(log, leg)
    case None => 0
    case Some(e) => (if OnLeg(e, leg) then e.seqId + FurtherPackets(e) + 1 else 0) % 256
  }

  /** The number after the first packet of the last payload on the leg. */
  function Following(log: seq<Event>, leg: Leg): byte {
    match LastOn(log, leg)
    case None => 0
    case Some(e) => if OnLeg(e, leg) then NextSeq(e.seqId) else 0
  }

  /** The peers number their packets consecutively. */
  ghost predicate PeersNumber(log: seq<Event>) {
    forall i :: 0 <= i < |log| && IsReceived(log[i]) ==> log[i].seqId == Due(log[..i], LegOf(log[i]))
  }

  ghost predicate AllNumbered(log: seq<Event>) {
    forall i :: 0 <= i < |log| && IsPacket(log[i]) ==> log[i].seqId == Due(log[..i], LegOf(log[i]))
  }

  predicate IsSent(e: Event) {
    IsPacket(e) && !IsReceived(e)
  }

  /** What was sent last on the leg, if anything, was a single packet. */
  predicate SingleSent(log: seq<Event>, leg: Leg) {
    var last := LastOn(log, leg);
    last.Some? && IsSent(last.value) ==> FurtherPackets(last.value) == 0
  }

  ghost predicate ProxyFollows(log: seq<Event>) {
    forall i :: 0 <= i < |log| && IsSent(log[i]) ==>
                  log[i].seqId == Following(log[..i], LegOf(log[i])) && SingleSent(log[..i], LegOf(log[i]))
  }

  /** If the peers number consecutively, every packet the proxy sends has the
      number after the first packet of what it answers. */
  ghost predicate InStep(log: seq<Event>) {
    PeersNumber(log) ==> ProxyFollows(log)
  }

  /** As far as the peers keep to it, the proxy's next number on the leg is `x`. */
  ghost predicate Next(log: seq<Event>, leg: Leg, x: byte) {
    PeersNumber(log) ==> Following(log, leg) == x && SingleSent(log, leg)
  }

  /** What came last on the leg, if the proxy received it, ended with its first
      packet, or with one that has the same number. */
  predicate Settled(log: seq<Event>, leg: Leg) {
    var last := LastOn(log, leg);
    last.Some? && IsReceived(last.value) ==> FurtherPackets(last.value) % 256 == 0
  }

  /** Whatever the proxy answered had come in one packet (or in 256 k + 1). */
  ghost predicate AnsweredSettled(log: seq<Event>) {
    forall i :: 0 <= i < |log| && IsSent(log[i]) ==> Settled(log[..i], LegOf(log[i]))
  }

  lemma LastAppend(log: seq<Event>, e: Event, leg: Leg)
    ensures LastOn(log + [e], leg) == if OnLeg(e, leg) then Some(e) else LastOn(log, leg)
  {
    assert (log + [e])[..|log|] == log && (log + [e])[|log|] == e;
  }

  lemma {:induction false} LastIsOnLeg(log: seq<Event>, leg: Leg)
    ensures LastOn(log, leg).Some? ==> OnLeg(LastOn(log, leg).value, leg)
  {
    if log != [] {
      LastIsOnLeg(log[..|log| - 1], leg);
    }
  }

  /** The two numbers agree exactly when the leg is settled. */
  lemma SettledIsDue(log: seq<Event>, leg: Leg)
    requires SingleSent(log, leg)
    ensures Settled(log, leg) <==> Due(log, leg) == Following(log, leg)
  {
    hide LastOn, FurtherPackets;
    LastIsOnLeg(log, leg);
  }

  lemma PeersAppend(log: seq<Event>, e: Event)
    ensures PeersNumber(log + [e]) <==> PeersNumber(log) && (IsReceived(e) ==> e.seqId == Due(log, LegOf(e)))
  {
    hide Due;
    var after := log + [e];
    assert after[..|log|] == log && after[|log|] == e;
    if PeersNumber(after) {
      forall i | 0 <= i < |log| && IsReceived(log[i]) ensures log[i].seqId == Due(log[..i], LegOf(log[i])) {
        assert after[i] == log[i] && after[..i] == log[..i];
      }
    }
    if PeersNumber(log) && (IsReceived(e) ==> e.seqId == Due(log, LegOf(e))) {
      forall i | 0 <= i < |after| && IsReceived(after[i]) ensures after[i].seqId == Due(after[..i], LegOf(after[i])) {
        assert after[..i] == log[..i];
      }
    }
  }

  lemma FollowsAppend(log: seq<Event>, e: Event)
    requires ProxyFollows(log) && (IsSent(e) ==> e.seqId == Following(log, LegOf(e)) && SingleSent(log, LegOf(e)))
    ensures ProxyFollows(log + [e])
  {
    hide Following, SingleSent;
    var after := log + [e];
    forall i | 0 <= i < |after| && IsSent(after[i])
      ensures after[i].seqId == Following(after[..i], LegOf(after[i])) && SingleSent(after[..i], LegOf(after[i]))
    {
      assert after[..i] == log[..i];
      assert log[..|log|] == log;
    }
  }

  /** One event more: sent packets must be numbered as the leg's next. The other
      leg, which expects `x`, does not notice. */
  lemma Stepped(log: seq<Event>, e: Event, other: Leg, x: byte)
    requires InStep(log) && !OnLeg(e, other)
    requires IsSent(e) ==> Next(log, LegOf(e), e.seqId)
    ensures InStep(log + [e])
    ensures Next(log, other, x) ==> Next(log + [e], other, x)
    ensures Settled(log + [e], other) == Settled(log, other)
    ensures IsPacket(e) && (IsSent(e) ==> FurtherPackets(e) == 0) ==> Next(log + [e], LegOf(e), NextSeq(e.seqId))
    ensures IsSent(e) ==> Settled(log + [e], LegOf(e))
  {
    hide PeersNumber, ProxyFollows, LastOn, FurtherPackets;
    PeersAppend(log, e);
    LastAppend(log, e, ClientLeg);
    LastAppend(log, e, UpstreamLeg);
    if PeersNumber(log + [e]) {
      FollowsAppend(log, e);
    }
  }

  /** A received packet, as the leg it came on sees it. */
  lemma SteppedOwn(log: seq<Event>, e: Event, leg: Leg, x: byte)
    requires InStep(log) && IsReceived(e) && OnLeg(e, leg) && Next(log, leg, x) && Settled(log, leg)
    ensures Next(log + [e], leg, NextSeq(x))
    ensures |e.payload| < M ==> Settled(log + [e], leg)
  {
    hide PeersNumber, ProxyFollows, LastOn;
    PeersAppend(log, e);
    LastAppend(log, e, leg);
    if PeersNumber(log) {
      SettledIsDue(log, leg);
    }
  }

  // ---- Reading ----

  /** Reading keeps step; on the leg read from, the message's own number is the
      expected one. `c` and `u` are what the two legs expect. */
  lemma ClientReadSteps(s: LoginState, c: byte, u: byte)
    requires InStep(s.log) && Next(s.log, ClientLeg, c) && Settled(s.log, ClientLeg) && Next(s.log, UpstreamLeg, u)
    ensures var (s1, got) := ReadClient(s);
            && InStep(s1.log) && Next(s1.log, UpstreamLeg, u)
            && (got.Message? ==> Next(s1.log, ClientLeg, NextSeq(c)))
            && (got.Message? && got.m.Generic? ==> Next(s1.log, ClientLeg, NextSeq(got.m.seqId)))
            && (got.Message? && got.m.ResponseMsg? && |got.m.response.raw| < M ==> Settled(s1.log, ClientLeg))
  {
    hide Dispatch, InStep, Next, PeersNumber, Settled;
    if s.clientIn != [] && s.clientIn[0].Arrived? {
      var e := FromClient(s.clientIn[0].seqId, s.clientIn[0].payload);
      Stepped(s.log, e, UpstreamLeg, u);
      SteppedOwn(s.log, e, ClientLeg, c);
    }
  }

  /** The loop answers the number it read, whatever was due; the opening packet
      has the number due. */
  lemma UpstreamReadSteps(s: LoginState, c: byte)
    requires InStep(s.log) && Next(s.log, ClientLeg, c)
    ensures var (s1, got) := ReadUpstream(s);
            && InStep(s1.log) && Next(s1.log, ClientLeg, c)
            && (got.Message? && got.m.Generic? ==> Next(s1.log, UpstreamLeg, NextSeq(got.m.seqId)))
            && (got.Message? && s.log == [] ==> Next(s1.log, UpstreamLeg, 1) && Settled(s1.log, ClientLeg))
  {
    hide Dispatch, InStep, PeersNumber;
    if s.upstreamIn != [] && s.upstreamIn[0].Arrived? {
      var e := FromUpstream(s.upstreamIn[0].seqId, s.upstreamIn[0].payload);
      if s.log == [] {
        SteppedOwn(s.log, e, UpstreamLeg, 0);
      }
      hide Next, Settled;
      Stepped(s.log, e, ClientLeg, c);
    }
  }

  // ---- The legs ----

  lemma CheckClientSteps(cfg: Config, nonce: bytes, s: LoginState, username: bytes, scramble: bytes, seqId: byte, u: byte)
    requires InStep(s.log) && Next(s.log, ClientLeg, NextSeq(seqId)) && Next(s.log, UpstreamLeg, u)
    ensures var (s1, v) := CheckClient(cfg, nonce, s, username, scramble, seqId);
            && InStep(s1.log) && Next(s1.log, UpstreamLeg, u)
            && (v.Accepted? ==> Next(s1.log, ClientLeg, NextSeq(v.seqId)))
  {
    hide InStep, Next, CredentialOk;
    if CredentialOk(cfg, nonce, username, scramble) {
      var e := ClientAccepted(username, scramble);
      Stepped(s.log, e, UpstreamLeg, u);
      Stepped(s.log, e, ClientLeg, NextSeq(seqId));
    } else {
      Stepped(s.log, ToClient(NextSeq(seqId), AccessDenied(username)), UpstreamLeg, u);
    }
  }

  lemma ClientAuthSteps(cfg: Config, nonce: bytes, s: LoginState, r: HandshakeResponse, firstSeq: byte, u: byte)
    requires InStep(s.log) && Next(s.log, ClientLeg, NextSeq(firstSeq)) && Next(s.log, UpstreamLeg, u)
    ensures var (s1, v) := AuthenticateClient(cfg, nonce, s, r, firstSeq);
            && InStep(s1.log) && Next(s1.log, UpstreamLeg, u)
            && (v.Accepted? ==> Next(s1.log, ClientLeg, NextSeq(v.seqId)))
  {
    hide InStep, Next, Settled, CheckClient, ReadClient, NameOf;
    if OfferedPlugin(r) == NameOf(cfg.clientPlugin) {
      CheckClientSteps(cfg, nonce, s, r.username, r.authResponse, firstSeq, u);
    } else {
      var ask := ToClient(NextSeq(firstSeq), SwitchRequest(cfg.clientPlugin, nonce));
      Stepped(s.log, ask, UpstreamLeg, u);
      var asked := s.(client := s.client.(state := WaitingAuthResponse)).Record(ask);
      ClientReadSteps(asked, NextSeq(NextSeq(firstSeq)), u);
      var (s1, got) := ReadClient(asked);
      if got.Message? && got.m.Generic? {
        CheckClientSteps(cfg, nonce, s1, r.username, got.m.payload, got.m.seqId, u);
      }
    }
  }

  lemma PacketSteps(cfg: Config, s: LoginState, seqId: byte, payload: bytes, nonce: bytes, plugin: AuthPlugin, c: byte)
    requires InStep(s.log) && Next(s.log, ClientLeg, c) && Next(s.log, UpstreamLeg, NextSeq(seqId))
    ensures var p := UpstreamPacket(cfg, s, seqId, payload, nonce, plugin); InStep(p.s.log) && Next(p.s.log, ClientLeg, c)
  {
    hide InStep, Next, Settled, FromName, ParseAuthSwitchRequest, ClassifyAuthMoreData, FullAuthReply;
    var p := UpstreamPacket(cfg, s, seqId, payload, nonce, plugin);
    if p.s != s {
      var e := p.s.log[|s.log|];
      assert p.s.log == s.log + [e] && e.ToUpstream? && e.seqId == NextSeq(seqId);
      Stepped(s.log, e, ClientLeg, c);
    }
  }

  lemma {:induction false} LoopSteps(
    cfg: Config, s: LoginState, nonce: bytes, plugin: AuthPlugin, rounds: nat, c: byte)
    requires rounds <= MAX_ROUNDS && InStep(s.log) && Next(s.log, ClientLeg, c)
    ensures var (s1, _) := UpstreamLoop(cfg, s, nonce, plugin, rounds); InStep(s1.log) && Next(s1.log, ClientLeg, c)
    decreases MAX_ROUNDS - rounds
  {
    hide InStep, Next, ReadUpstream, UpstreamPacket;
    if rounds < MAX_ROUNDS {
      UpstreamReadSteps(s, c);
      var (s1, got) := ReadUpstream(s);
      if got.Message? && got.m.Generic? {
        PacketSteps(cfg, s1, got.m.seqId, got.m.payload, nonce, plugin, c);
        var p := UpstreamPacket(cfg, s1, got.m.seqId, got.m.payload, nonce, plugin);
        if p.Continue? {
          LoopSteps(cfg, p.s, p.nonce, p.plugin, rounds + 1, c);
        }
      }
    }
  }

  lemma UpstreamAuthSteps(cfg: Config, s: LoginState, h: HandshakeV10, r: HandshakeResponse, c: byte)
    requires InStep(s.log) && Next(s.log, ClientLeg, c) && Next(s.log, UpstreamLeg, ResponseSeq(cfg))
    ensures var (s1, _) := AuthenticateUpstream(cfg, s, h, r); InStep(s1.log) && Next(s1.log, ClientLeg, c)
  {
    hide InStep, Next, UpstreamLoop, Negotiation.Negotiate, NameOf, FromName, NonceFromHandshake, Scramble;
    var nonce := NonceFromHandshake(h.authPluginDataPart1, h.authPluginDataPart2);
    var database := ChosenDatabase(cfg, r);
    var caps := Negotiation.Negotiate(r.capabilityFlags, h.capabilityFlags, database.Some?, cfg.upstreamTls);
    var e := ToUpstream(ResponseSeq(cfg), Response(UpstreamResponse(cfg, h, caps, r, database), PluginOf(h), nonce));
    Stepped(s.log, e, ClientLeg, c);
    var s1 := s.(upstream := s.upstream.(capabilityFlags := caps, state := WaitingAuthResponse)).Record(e);
    LoopSteps(cfg, s1, nonce, PluginOf(h), 0, c);
  }

  lemma UpgradeSteps(cfg: Config, w: World, s: LoginState, h: HandshakeV10, r: HandshakeResponse, c: byte)
    requires InStep(s.log) && Next(s.log, ClientLeg, c) && Next(s.log, UpstreamLeg, 1)
    ensures var (s1, connected) := UpgradeUpstream(cfg, w, s, h, r);
            && InStep(s1.log) && Next(s1.log, ClientLeg, c)
            && (connected ==> Next(s1.log, UpstreamLeg, ResponseSeq(cfg)))
  {
    hide InStep, Next, Has, Handshake.BuildSslRequest;
    if cfg.upstreamTls && Has(h.capabilityFlags, CLIENT_SSL) {
      var request := Handshake.BuildSslRequest(r.capabilityFlags, r.maxPacketSize, r.characterSet);
      var e := ToUpstream(request.seqId, SslRequest(request.payload));
      Stepped(s.log, e, ClientLeg, c);
      Stepped(s.log + [e], UpstreamTlsUp, ClientLeg, c);
      Stepped(s.log + [e], UpstreamTlsUp, UpstreamLeg, 2);
    }
  }

  lemma ConcludeSteps(cfg: Config, s: LoginState, ok: bool, clientSeq: byte)
    requires InStep(s.log) && Next(s.log, ClientLeg, NextSeq(clientSeq))
    ensures InStep(Conclude(cfg, s, ok, clientSeq).log)
  {
    hide InStep, Next;
    var first := NextSeq(clientSeq);
    if !ok {
      Stepped(s.log, ToClient(first, UpstreamFailure), UpstreamLeg, 0);
    } else if cfg.clientPlugin.CachingSha2Password? {
      var e := ToClient(first, FastAuthOk);
      Stepped(s.log, e, UpstreamLeg, 0);
      Stepped(s.log + [e], ToClient(NextSeq(first), LoginOk), UpstreamLeg, 0);
    } else {
      Stepped(s.log, ToClient(first, LoginOk), UpstreamLeg, 0);
    }
  }

  lemma WithResponseSteps(cfg: Config, w: World, s: LoginState, h: HandshakeV10, r: HandshakeResponse, firstSeq: byte)
    requires InStep(s.log) && Next(s.log, ClientLeg, NextSeq(firstSeq)) && Next(s.log, UpstreamLeg, 1)
    ensures InStep(WithResponse(cfg, w, s, h, r, firstSeq).log)
  {
    hide InStep, AuthenticateClient, UpgradeUpstream, AuthenticateUpstream, Conclude, PeersNumber, LastOn;
    ClientAuthSteps(cfg, w.nonce, s, r, firstSeq, 1);
    var (s1, v) := AuthenticateClient(cfg, w.nonce, s, r, firstSeq);
    if v.Accepted? {
      var c := NextSeq(v.seqId);
      UpgradeSteps(cfg, w, s1, h, r, c);
      var (s2, connected) := UpgradeUpstream(cfg, w, s1, h, r);
      if connected {
        UpstreamAuthSteps(cfg, s2, h, r, c);
        var s3 := AuthenticateUpstream(cfg, s2, h, r).0;
        ConcludeSteps(cfg, s3, AuthenticateUpstream(cfg, s2, h, r).1, v.seqId);
      }
    }
  }

  lemma GreetedSteps(cfg: Config, w: World, s: LoginState, h: HandshakeV10)
    requires InStep(s.log) && Next(s.log, ClientLeg, 1) && Settled(s.log, ClientLeg) && Next(s.log, UpstreamLeg, 1)
    ensures InStep(Greeted(cfg, w, s, h).log)
  {
    hide InStep, Next, Settled, ReadClient, WithResponse, Has;
    ClientReadSteps(s, 1, 1);
    var (s1, got) := ReadClient(s);
    if got.Message? && got.m.ResponseMsg? {
      var r := got.m.response;
      if !r.IsSslRequest() {
        WithResponseSteps(cfg, w, s1, h, r, 1);
      } else if cfg.tlsAcceptor && w.clientTlsOk {
        Stepped(s1.log, ClientTlsUp, ClientLeg, 2);
        Stepped(s1.log, ClientTlsUp, UpstreamLeg, 1);
        var secured := s1.(client := Codec(WaitingHandshakeResponse, r.capabilityFlags, false, 0, None)).Record(ClientTlsUp);
        ClientReadSteps(secured, 2, 1);
        var (s2, again) := ReadClient(secured);
        if again.Message? && again.m.ResponseMsg? {
          WithResponseSteps(cfg, w, s2, h, again.m.response, 2);
        }
      }
    }
  }

  lemma EveryLoginInStep(cfg: Config, w: World, clientIn: seq<Incoming>, upstreamIn: seq<Incoming>)
    requires |w.nonce| >= 8
    ensures InStep(LogIn(cfg, w, Fresh(clientIn, upstreamIn)).log)
  {
    hide ReadUpstream, Greeted, ClientHello;
    var s := Fresh(clientIn, upstreamIn);
    assert InStep(s.log) && Next(s.log, ClientLeg, 0) && Next(s.log, UpstreamLeg, 0);
    UpstreamReadSteps(s, 0);
    var (s1, got) := ReadUpstream(s);
    hide InStep, Next;
    if got.Message? && got.m.HandshakeMsg? {
      var h := got.m.handshake;
      var hello := ClientHello(cfg, w, h);
      Stepped(s1.log, ToClient(0, Hello(hello)), UpstreamLeg, 1);
      var greeting := AfterEncode(s1.client, HandshakeMsg(hello));
      var s2 := s1.(client := greeting.(capabilityFlags := h.capabilityFlags),
                    upstream := s1.upstream.(capabilityFlags := h.capabilityFlags)).Record(ToClient(0, Hello(hello)));
      GreetedSteps(cfg, w, s2, h);
    }
  }

  // ---- 0, 1, 2, ... ----

  /** The numbers `count` packets bear from `first` on. */
  function Run(first: byte, count: nat): (ns: seq<byte>)
    ensures |ns| == count
    decreases count
  {
    if count == 0 then [] else [first] + Run(NextSeq(first), count - 1)
  }

  /** The sequence numbers of all packets on one leg's wire, in order. */
  function Numbers(log: seq<Event>, leg: Leg): seq<byte> {
    if log == [] then []
    else
      var e := log[|log| - 1];
      Numbers(log[..|log| - 1], leg) + (if OnLeg(e, leg) then Run(e.seqId, FurtherPackets(e) + 1) else [])
  }

  ghost predicate CountsUp(ns: seq<byte>) {
    forall k :: 0 <= k < |ns| ==> ns[k] == k % 256
  }

  ghost predicate Counts(log: seq<Event>, leg: Leg) {
    CountsUp(Numbers(log, leg))
  }

  lemma CountsOneMore(before: seq<byte>, x: byte)
    ensures CountsUp(before + [x]) <==> CountsUp(before) && x == |before| % 256
  {
    var all := before + [x];
    assert all[|before|] == x;
    assert forall k :: 0 <= k < |before| ==> all[k] == before[k];
  }

  /** A run of numbers goes on counting exactly when it starts where it should. */
  lemma {:induction false} RunCounts(before: seq<byte>, first: byte, count: nat)
    requires count > 0
    ensures CountsUp(before + Run(first, count)) <==> CountsUp(before) && first == |before| % 256
    decreases count
  {
    hide CountsUp;
    CountsOneMore(before, first);
    if count == 1 {
      assert Run(first, 1) == [first];
    } else {
      RunCounts(before + [first], NextSeq(first), count - 1);
      assert before + Run(first, count) == before + [first] + Run(NextSeq(first), count - 1);
    }
  }

  lemma NumbersAppend(log: seq<Event>, e: Event, leg: Leg)
    ensures Numbers(log + [e], leg) ==
            Numbers(log, leg) + (if OnLeg(e, leg) then Run(e.seqId, FurtherPackets(e) + 1) else [])
  {
    assert (log + [e])[..|log|] == log && (log + [e])[|log|] == e;
  }

  lemma CountsAppend(log: seq<Event>, e: Event, leg: Leg)
    requires Counts(log, leg) ==> Due(log, leg) == |Numbers(log, leg)| % 256
    ensures Counts(log + [e], leg) <==> Counts(log, leg) && (OnLeg(e, leg) ==> e.seqId == Due(log, leg))
    ensures Counts(log + [e], leg) ==> Due(log + [e], leg) == |Numbers(log + [e], leg)| % 256
  {
    hide Numbers, LastOn, FurtherPackets, CountsUp, Run;
    NumbersAppend(log, e, leg);
    LastAppend(log, e, leg);
    var n := |Numbers(log, leg)|;
    if OnLeg(e, leg) {
      RunCounts(Numbers(log, leg), e.seqId, FurtherPackets(e) + 1);
      CountOn(n, FurtherPackets(e) + 1);
    } else {
      assert Numbers(log, leg) + [] == Numbers(log, leg);
    }
  }

  lemma CountOn(n: nat, k: nat)
    ensures (n % 256 + k) % 256 == (n + k) % 256
  {
  }

  lemma NumberedAppend(log: seq<Event>, e: Event)
    ensures AllNumbered(log + [e]) <==> AllNumbered(log) && (IsPacket(e) ==> e.seqId == Due(log, LegOf(e)))
  {
    hide Due;
    var after := log + [e];
    assert after[..|log|] == log && after[|log|] == e;
    if AllNumbered(after) {
      forall i | 0 <= i < |log| && IsPacket(log[i]) ensures log[i].seqId == Due(log[..i], LegOf(log[i])) {
        assert after[i] == log[i] && after[..i] == log[..i];
      }
    }
    if AllNumbered(log) && (IsPacket(e) ==> e.seqId == Due(log, LegOf(e))) {
      forall i | 0 <= i < |after| && IsPacket(after[i]) ensures after[i].seqId == Due(after[..i], LegOf(after[i])) {
        assert after[..i] == log[..i];
      }
    }
  }

  /** Every packet has the number due exactly when both legs count 0, 1, 2, ... */
  lemma {:induction false} NumberedCounts(log: seq<Event>)
    ensures AllNumbered(log) <==> Counts(log, ClientLeg) && Counts(log, UpstreamLeg)
    ensures forall leg :: Counts(log, leg) ==> Due(log, leg) == |Numbers(log, leg)| % 256
    decreases |log|
  {
    if log != [] {
      hide AllNumbered, Counts, Due;
      var init := log[..|log| - 1];
      var e := log[|log| - 1];
      assert log == init + [e];
      NumberedCounts(init);
      CountsAppend(init, e, ClientLeg);
      CountsAppend(init, e, UpstreamLeg);
      NumberedAppend(init, e);
      forall leg | Counts(log, leg) ensures Due(log, leg) == |Numbers(log, leg)| % 256 {
        assert leg == ClientLeg || leg == UpstreamLeg;
      }
    }
  }

  /** Where the proxy follows the first packet of what it answers, it has the
      number due exactly when that was also the last. */
  lemma FollowingIsDue(log: seq<Event>)
    requires PeersNumber(log) && ProxyFollows(log)
    ensures AllNumbered(log) <==> AnsweredSettled(log)
  {
    hide Due, Following, Settled, SingleSent;
    forall i | 0 <= i < |log| && IsSent(log[i])
      ensures Settled(log[..i], LegOf(log[i])) <==> Due(log[..i], LegOf(log[i])) == Following(log[..i], LegOf(log[i]))
    {
      SettledIsDue(log[..i], LegOf(log[i]));
    }
  }

  /** In every login with peers that count, the packets of both legs are numbered
      0, 1, 2, ... modulo 256, with no gap and no repeat, if and only if the proxy
      never answers a payload that came in several packets (256 k + 1 apart). */
  lemma EveryLoginCounts(cfg: Config, w: World, clientIn: seq<Incoming>, upstreamIn: seq<Incoming>)
    requires |w.nonce| >= 8
    ensures var log := LogIn(cfg, w, Fresh(clientIn, upstreamIn)).log;
            PeersNumber(log) ==> (AnsweredSettled(log) <==> Counts(log, ClientLeg) && Counts(log, UpstreamLeg))
  {
    hide PeersNumber, AllNumbered, AnsweredSettled, Counts, ProxyFollows, LogIn;
    EveryLoginInStep(cfg, w, clientIn, upstreamIn);
    var log := LogIn(cfg, w, Fresh(clientIn, upstreamIn)).log;
    if PeersNumber(log) {
      FollowingIsDue(log);
      NumberedCounts(log);
    }
  }

  /** Where the sequence id of packet `k` of a payload stands on the wire. */
  function SeqIdAt(k: nat): nat {
    if k == 0 then 3 else M + 4 + SeqIdAt(k - 1)
  }

  /** The packets of one payload bear consecutive numbers. */
  lemma {:induction false} ChunksNumbered(payload: bytes, seqId: byte, k: nat)
    requires k < PacketCount(|payload|)
    ensures SeqIdAt(k) < |Chunked(payload, seqId)| && Chunked(payload, seqId)[SeqIdAt(k)] == Run(seqId, PacketCount(|payload|))[k]
    decreases k
  {
    hide LE;
    if k > 0 {
      var head := Header(M, seqId) + payload[..M];
      var tail := Chunked(payload[M..], NextSeq(seqId));
      assert Chunked(payload, seqId) == head + tail && |head| == M + 4;
      ChunksNumbered(payload[M..], NextSeq(seqId), k - 1);
      hide Chunked, Header;
      assert (head + tail)[SeqIdAt(k)] == tail[SeqIdAt(k - 1)];
      assert PacketCount(|payload|) == 1 + PacketCount(|payload[M..]|);
    }
  }

  /** The failing family: a server payload long enough to take several packets is
      answered under its first number plus one, which its own second packet
      already has. */
  lemma LargePacketRepeatsNumber(cfg: Config, s: LoginState, seqId: byte, payload: bytes, nonce: bytes, plugin: AuthPlugin)
    requires |payload| >= M && ParseAuthSwitchRequest(payload).Success?
    requires FromName(ParseAuthSwitchRequest(payload).value.0).Some?
    ensures var p := UpstreamPacket(cfg, s, seqId, payload, nonce, plugin);
            && p.Continue? && |p.s.log| == |s.log| + 1
            && p.s.log[|s.log|].seqId == NextSeq(seqId)
            && |Chunked(payload, seqId)| > M + 8 - 1
            && Chunked(payload, seqId)[4 + M + 3] == NextSeq(seqId)
  {
    hide ParseAuthSwitchRequest, FromName, LE;
    var rest := Chunked(payload[M..], NextSeq(seqId));
    ChunkedLength(payload[M..], NextSeq(seqId));
    assert Chunked(payload, seqId) == (Header(M, seqId) + payload[..M]) + rest;
    assert rest[3] == NextSeq(seqId);
  }
}
