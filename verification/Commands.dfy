/** The MySQL command phase with the client's commands in it. A command puts the
    upstream-facing codec back into its command state, and a query also resets
    the column map, whatever the server is sending at the time; a command of the
    binary protocol is refused. */
module Commands {
  import opened Wrappers
  import opened Bytes
  import opened Framing
  import opened MySqlPackets
  import opened MySqlCodec
  import opened MySqlStreams
  import opened MessageKinds
  import opened ResultSets
  import opened Interceptor
  import opened Rules
  import opened Masking
  import opened MaskedResults
  import opened LaterResultSets
  import Auth
  import Handshake
  import Lenenc
  import ProxyPackets

  /** A whole packet from either side. */
  datatype Event = FromClient(p: Packet) | FromServer(p: Packet)

  /** Both codecs and the column map. */
  datatype RelayState = RelayState(client: Codec, upstream: Codec, tracker: Tracker)

  datatype Sent = Sent(toClient: seq<Message>, toServer: seq<Message>)

  const COM_STMT_PREPARE: byte := 0x16
  const COM_STMT_EXECUTE: byte := 0x17
  const COM_STMT_FETCH: byte := 0x1c
  const ER_UNSUPPORTED_PS: u16 := 1295

  /** Commands whose result rows would be in the binary form. */
  predicate IsBinary(packet: bytes) {
    packet != [] && packet[0] in {COM_STMT_PREPARE, COM_STMT_EXECUTE, COM_STMT_FETCH}
  }

  /** The answer to them, under sequence id 1. */
  function Unsupported(): ErrPacket {
    ErrPacket(1, ER_UNSUPPORTED_PS, Auth.Ascii("HY000"), Auth.Ascii("use the text protocol"), [])
  }

  /** What the client reads in it. */
  lemma UnsupportedReads(flags: u32)
    ensures var e := Unsupported();
            e.seqId == 1 && e.errorCode == 1295 && e.sqlState == [72, 89, 48, 48, 48]
            && ParseErr(ErrPayload(e, flags), 1, flags).Success?
            && ParseErr(ErrPayload(e, flags), 1, flags).value.errorCode == 1295
  {
    hide Has;
    assert Auth.Ascii("HY000") == [72, 89, 48, 48, 48];
    ProxyPackets.BuiltErrReads(Unsupported(), flags);
    hide ErrPayload, ParseErr, Unsupported;
  }

  function OnCommand(s: RelayState, p: Packet): (RelayState, Result<Sent>) {
    var (d, r) := Dispatch(s.client, p.seqId, p.payload, |p.payload| >= M);
    match r
    case Failure(e) => (s.(client := d), Failure(e))
    case Success(m) =>
      match m
      case Query(_, _) => (RelayState(d, s.upstream.(state := State.Command), NOTHING), Success(Sent([], [m])))
      case Generic(_, payload) =>
        if IsBinary(payload) then (s.(client := d), Success(Sent([ErrMsg(Unsupported())], [])))
        else (s.(client := d, upstream := s.upstream.(state := State.Command)), Success(Sent([], [m])))
      case _ => (s.(client := d), Success(Sent([], [m])))
  }

  function OnReply(cfg: Config, s: RelayState, p: Packet): (RelayState, Result<Sent>)
    requires Ready(cfg)
  {
    var (d, r) := Dispatch(s.upstream, p.seqId, p.payload, |p.payload| >= M);
    match r
    case Failure(e) => (s.(upstream := d), Failure(e))
    case Success(m) =>
      var (t, sent) := RelayOne(cfg, s.tracker, m);
      (s.(upstream := d, tracker := t), Success(Sent([sent], [])))
  }

  /** What is sent on, unless the packet cannot be read: then the connection ends. */
  function Step(cfg: Config, s: RelayState, e: Event): (RelayState, Result<Sent>)
    requires Ready(cfg)
  {
    match e
    case FromClient(p) => OnCommand(s, p)
    case FromServer(p) => OnReply(cfg, s, p)
  }

  datatype Outcome = Outcome(s: RelayState, sent: Sent, broken: bool)

  function Then(a: Sent, b: Sent): Sent {
    Sent(a.toClient + b.toClient, a.toServer + b.toServer)
  }

  lemma NothingThen(b: Sent)
    ensures Then(Sent([], []), b) == b
  {
    assert [] + b.toClient == b.toClient && [] + b.toServer == b.toServer;
  }

  lemma ThenAssociative(a: Sent, b: Sent, c: Sent)
    ensures Then(Then(a, b), c) == Then(a, Then(b, c))
  {
    assert a.toClient + b.toClient + c.toClient == a.toClient + (b.toClient + c.toClient);
    assert a.toServer + b.toServer + c.toServer == a.toServer + (b.toServer + c.toServer);
  }

  function RunAll(cfg: Config, s: RelayState, events: seq<Event>): Outcome
    requires Ready(cfg)
    decreases |events|
  {
    if events == [] then Outcome(s, Sent([], []), false)
    else
      var (next, r) := Step(cfg, s, events[0]);
      if r.Failure? then Outcome(next, Sent([], []), true)
      else
        var more := RunAll(cfg, next, events[1..]);
        more.(sent := Then(r.value, more.sent))
  }

  lemma RunFirst(cfg: Config, s: RelayState, e: Event, more: seq<Event>)
    requires Ready(cfg)
    ensures var (next, r) := Step(cfg, s, e);
            RunAll(cfg, s, [e] + more) ==
            if r.Failure? then Outcome(next, Sent([], []), true)
            else var rest := RunAll(cfg, next, more); rest.(sent := Then(r.value, rest.sent))
  {
    hide Ready, Step, Then;
    assert ([e] + more)[0] == e && ([e] + more)[1..] == more;
  }

  // ---- The loop that does it ----

  method HandleCommand(client: MySqlCodec, upstream: MySqlCodec, anonymizer: MySqlAnonymizer, p: Packet) returns (r: Result<Sent>)
    requires client != upstream
    modifies client, upstream, anonymizer
    ensures (RelayState(client.View(), upstream.View(), anonymizer.View()), r)
            == OnCommand(old(RelayState(client.View(), upstream.View(), anonymizer.View())), p)
  {
    hide Dispatch, Unsupported;
    var m := client.DispatchPacket(p.seqId, p.payload, |p.payload| >= M);
    if m.Failure? {
      return Failure(m.error);
    }
    r := Success(Sent([], [m.value]));
    match m.value
    case Query(_, _) =>
      anonymizer.ResetColumns();
      upstream.state := State.Command;
    case Generic(_, payload) =>
      if payload != [] && (payload[0] == 0x16 || payload[0] == 0x17 || payload[0] == 0x1c) {
        return Success(Sent([ErrMsg(Unsupported())], []));
      }
      upstream.state := State.Command;
    case _ =>
  }

  method HandleEvent(cfg: Config, client: MySqlCodec, upstream: MySqlCodec, anonymizer: MySqlAnonymizer, e: Event) returns (r: Result<Sent>)
    requires Ready(cfg) && client != upstream
    modifies client, upstream, anonymizer
    ensures (RelayState(client.View(), upstream.View(), anonymizer.View()), r)
            == Step(cfg, old(RelayState(client.View(), upstream.View(), anonymizer.View())), e)
  {
    hide Dispatch, OnCommand, RelayOne, SpansInOrder;
    match e
    case FromClient(p) =>
      r := HandleCommand(client, upstream, anonymizer, p);
    case FromServer(p) =>
      var m := upstream.DispatchPacket(p.seqId, p.payload, |p.payload| >= M);
      if m.Failure? {
        return Failure(m.error);
      }
      var relayed := HandleReply(cfg, anonymizer, m.value);
      r := Success(Sent([relayed], []));
  }

  method RelayPackets(cfg: Config, client: MySqlCodec, upstream: MySqlCodec, anonymizer: MySqlAnonymizer, events: seq<Event>)
    returns (sent: Sent, broken: bool)
    requires Ready(cfg) && client != upstream
    modifies client, upstream, anonymizer
    ensures Outcome(RelayState(client.View(), upstream.View(), anonymizer.View()), sent, broken)
            == RunAll(cfg, old(RelayState(client.View(), upstream.View(), anonymizer.View())), events)
  {
    hide Dispatch, OnCommand, RelayOne, Ready, Then, RunAll, Step;
    sent, broken := Sent([], []), false;
    ghost var all := RunAll(cfg, RelayState(client.View(), upstream.View(), anonymizer.View()), events);
    NothingThen(all.sent);
    assert events[0..] == events;
    NoneLeft(cfg);
    for i := 0 to |events|
      invariant var more := RunAll(cfg, RelayState(client.View(), upstream.View(), anonymizer.View()), events[i..]);
                more.(sent := Then(sent, more.sent)) == all
    {
      ghost var before := sent;
      ghost var s := RelayState(client.View(), upstream.View(), anonymizer.View());
      RunFirst(cfg, s, events[i], events[i + 1..]);
      assert events[i..] == [events[i]] + events[i + 1..];
      var r := HandleEvent(cfg, client, upstream, anonymizer, events[i]);
      if r.Failure? {
        ThenNothing(sent);
        return sent, true;
      }
      sent := Then(sent, r.value);
      ThenAssociative(before, r.value, RunAll(cfg, RelayState(client.View(), upstream.View(), anonymizer.View()), events[i + 1..]).sent);
    }
    ThenNothing(sent);
    assert events[|events|..] == [];
  }

  lemma NoneLeft(cfg: Config)
    requires Ready(cfg)
    ensures forall s :: RunAll(cfg, s, []) == Outcome(s, Sent([], []), false)
  {
  }

  lemma ThenNothing(a: Sent)
    ensures Then(a, Sent([], [])) == a
  {
    assert a.toClient + [] == a.toClient && a.toServer + [] == a.toServer;
  }

  function Arriving(packets: seq<Packet>): (es: seq<Event>)
    ensures |es| == |packets| && forall i :: 0 <= i < |packets| ==> es[i] == FromServer(packets[i])
  {
    seq(|packets|, i requires 0 <= i < |packets| => FromServer(packets[i]))
  }

  // ---- What a command does ----

  /** The client-facing codec in its command phase. */
  predicate Serving(c: Codec) {
    c.state.Command? && !c.isClientSide && c.pending.None?
  }

  /** A command as it is passed on. */
  function Taken(c: Codec, p: Packet): (m: Message)
    requires Serving(c)
    ensures Dispatch(c, p.seqId, p.payload, |p.payload| >= M) == (c, Success(m))
    ensures Encodable(m) && (m.Query? <==> StartsWith(p.payload, 3)) && (m.Query? || (Forwarded(m) && !m.ColumnMsg?))
  {
    CommandRead(c, p);
    Dispatch(c, p.seqId, p.payload, |p.payload| >= M).1.value
  }

  lemma CommandRead(c: Codec, p: Packet)
    requires Serving(c)
    ensures var (d, r) := Dispatch(c, p.seqId, p.payload, |p.payload| >= M);
            && d == c && r.Success? && Encodable(r.value) && (r.value.Query? <==> StartsWith(p.payload, 3))
            && (r.value.Query? || (Forwarded(r.value) && !r.value.ColumnMsg?))
  {
    hide Dispatch, Encodable;
    QueryReadExactly(c, p.seqId, p.payload, |p.payload| >= M);
    if !StartsWith(p.payload, 3) {
      CommandTaken(c, p.seqId, p.payload, |p.payload| >= M);
    }
  }

  /** Statements, their execution and their rows by number are refused with an
      error and change nothing. A COM_QUERY resets the column map and both codecs'
      states; any other command leaves the map. All but the refused are passed on. */
  lemma CommandHandled(cfg: Config, s: RelayState, p: Packet)
    requires Ready(cfg) && Serving(s.client)
    ensures var (next, r) := Step(cfg, s, FromClient(p));
            if StartsWith(p.payload, 0x16) || StartsWith(p.payload, 0x17) || StartsWith(p.payload, 0x1c)
            then next == s && r == Success(Sent([ErrMsg(Unsupported())], []))
            else
              && r == Success(Sent([], [Taken(s.client, p)]))
              && next.client == s.client
              && next.tracker == (if StartsWith(p.payload, 3) then NOTHING else s.tracker)
              && (var m := Taken(s.client, p);
                  next.upstream == if m.Query? || m.Generic? then s.upstream.(state := State.Command) else s.upstream)
              && (!StartsWith(p.payload, 0) && !StartsWith(p.payload, 0xfe) && !StartsWith(p.payload, 0xff) ==>
                    next.upstream == s.upstream.(state := State.Command))
  {
    hide Dispatch, Unsupported, Ready;
    var _ := Taken(s.client, p);
    if !StartsWith(p.payload, 3) {
      CommandTaken(s.client, p.seqId, p.payload, |p.payload| >= M);
    }
    GenericIsWhole(s.client, p.seqId, p.payload, |p.payload| >= M);
  }

  lemma GenericIsWhole(c: Codec, seqId: byte, packet: bytes, assembled: bool)
    ensures var r := Dispatch(c, seqId, packet, assembled).1;
            r.Success? && r.value.Generic? ==> r.value == Generic(seqId, packet)
  {
    hide Dispatch;
    assert forall m :: ReadFrom(m, seqId, packet) && m.Generic? ==> m == Generic(seqId, packet);
  }

  /** The command leaves the upstream-facing codec ready for its replies. */
  predicate Readies(s: RelayState, p: Packet)
    requires Serving(s.client)
  {
    s.upstream.state.Command? || (!IsBinary(p.payload) && var m := Taken(s.client, p); m.Query? || m.Generic?)
  }

  // ---- Commands between replies ----

  /** A command and the replies to it; a refused one never gets to the server. */
  datatype Exchange = Exchange(command: Packet, replies: seq<Reply>)

  predicate AllExchanges(xs: seq<Exchange>, deprecateEof: bool) {
    forall x | x in xs :: AllWellFormed(x.replies, deprecateEof) && (IsBinary(x.command.payload) ==> x.replies == [])
  }

  function Events(xs: seq<Exchange>, deprecateEof: bool): seq<Event>
    requires AllExchanges(xs, deprecateEof)
    decreases |xs|
  {
    if xs == [] then []
    else
      assert xs[0] in xs && forall x | x in xs[1..] :: x in xs;
      [FromClient(xs[0].command)] + (Arriving(AllPackets(xs[0].replies, deprecateEof)) + Events(xs[1..], deprecateEof))
  }

  predicate AllFit(rs: seq<Reply>, deprecateEof: bool) {
    AllWellFormed(rs, deprecateEof) && forall r | r in rs :: FitsWhenMasked(r)
  }

  /** Columns described before the replies to a command, since the last query. */
  function StartOf(x: Exchange, before: seq<Column>): seq<Column> {
    if StartsWith(x.command.payload, 3) then [] else before
  }

  predicate ExchangesFit(cfg: Config, before: seq<Column>, xs: seq<Exchange>, deprecateEof: bool)
    requires SpansInOrder(cfg.env) && AllExchanges(xs, deprecateEof)
    decreases |xs|
  {
    xs == [] ||
    (assert xs[0] in xs && forall x | x in xs[1..] :: x in xs;
     var start := StartOf(xs[0], before);
     && AllFit(MaskedReplies(cfg, start, xs[0].replies, deprecateEof), deprecateEof)
     && ExchangesFit(cfg, start + AllDescribed(cfg, xs[0].replies, deprecateEof), xs[1..], deprecateEof))
  }

  /** What the client should be sent: the refusal of each refused command, and the
      replies to the others masked by position in everything described since the
      last query. */
  function MaskedMessages(cfg: Config, before: seq<Column>, xs: seq<Exchange>, flags: u32): seq<Message>
    requires Ready(cfg) && AllExchanges(xs, Has(flags, CLIENT_DEPRECATE_EOF))
    requires ExchangesFit(cfg, before, xs, Has(flags, CLIENT_DEPRECATE_EOF))
    decreases |xs|
  {
    hide Has, WellFormedReply, FitsWhenMasked;
    if xs == [] then []
    else
      assert xs[0] in xs && forall x | x in xs[1..] :: x in xs;
      var d := Has(flags, CLIENT_DEPRECATE_EOF);
      var start := StartOf(xs[0], before);
      Refusal(xs[0].command) + (AllMessages(MaskedReplies(cfg, start, xs[0].replies, d), flags)
      + MaskedMessages(cfg, start + AllDescribed(cfg, xs[0].replies, d), xs[1..], flags))
  }

  function Refusal(command: Packet): seq<Message> {
    if IsBinary(command.payload) then [ErrMsg(Unsupported())] else []
  }

  /** What the server should be sent: every command but the refused ones. */
  function PassedMessages(c: Codec, xs: seq<Exchange>): (ms: seq<Message>)
    requires Serving(c)
    ensures forall m | m in ms :: Encodable(m)
  {
    if xs == [] then []
    else if IsBinary(xs[0].command.payload) then PassedMessages(c, xs[1..])
    else [Taken(c, xs[0].command)] + PassedMessages(c, xs[1..])
  }

  /** Packets that are read as messages are relayed as those messages are. */
  lemma {:induction false} PacketsRelayed(
    cfg: Config, s: RelayState, packets: seq<Packet>, d: Codec, messages: seq<Message>, more: seq<Event>)
    requires Ready(cfg) && Reads(s.upstream, packets, d, messages)
    ensures var (t, sent) := Relay(cfg, s.tracker, messages);
            var rest := RunAll(cfg, RelayState(s.client, d, t), more);
            RunAll(cfg, s, Arriving(packets) + more) == rest.(sent := Then(Sent(sent, []), rest.sent))
    decreases |packets|
  {
    hide Ready, Dispatch, RelayOne, Faithful, OnCommand;
    var events := Arriving(packets) + more;
    if packets == [] {
      assert events == more;
      NothingThen(RunAll(cfg, s, more).sent);
    } else {
      var p := packets[0];
      var c := Dispatch(s.upstream, p.seqId, p.payload, |p.payload| >= M).0;
      var (t, m) := RelayOne(cfg, s.tracker, messages[0]);
      assert events[0] == FromServer(p) && events[1..] == Arriving(packets[1..]) + more;
      assert Step(cfg, s, events[0]) == (RelayState(s.client, c, t), Success(Sent([m], [])));
      PacketsRelayed(cfg, RelayState(s.client, c, t), packets[1..], d, messages[1..], more);
      var (u, sent) := Relay(cfg, t, messages[1..]);
      var rest := RunAll(cfg, RelayState(s.client, d, u), more);
      assert Then(Sent([m], []), Sent(sent, [])) == Sent([m] + sent, []);
      hide Then;
      ThenAssociative(Sent([m], []), Sent(sent, []), rest.sent);
    }
  }

  /** The state in which the replies to a command arrive. */
  function Commanded(s: RelayState, p: Packet): RelayState {
    RelayState(s.client, s.upstream.(state := State.Command), if StartsWith(p.payload, 3) then NOTHING else s.tracker)
  }

  lemma CommandFirst(cfg: Config, s: RelayState, p: Packet, more: seq<Event>)
    requires Ready(cfg) && Serving(s.client) && Readies(s, p)
    ensures var sent := Sent(Refusal(p), if IsBinary(p.payload) then [] else [Taken(s.client, p)]);
            var rest := RunAll(cfg, Commanded(s, p), more);
            RunAll(cfg, s, [FromClient(p)] + more) == rest.(sent := Then(sent, rest.sent))
  {
    hide *;
    RunFirst(cfg, s, FromClient(p), more);
    CommandDone(cfg, s, p);
  }

  lemma CommandDone(cfg: Config, s: RelayState, p: Packet)
    requires Ready(cfg) && Serving(s.client) && Readies(s, p)
    ensures Step(cfg, s, FromClient(p))
            == (Commanded(s, p), Success(Sent(Refusal(p), if IsBinary(p.payload) then [] else [Taken(s.client, p)])))
  {
    hide Ready, Unsupported, Step, Dispatch, Taken;
    CommandHandled(cfg, s, p);
  }

  lemma ExchangeRelayed(cfg: Config, s: RelayState, before: seq<Column>, x: Exchange, more: seq<Event>, d: bool)
    requires Ready(cfg) && Serving(s.client) && Readies(s, x.command)
    requires s.upstream.isClientSide && s.upstream.pending.None? && d == Has(s.upstream.capabilityFlags, CLIENT_DEPRECATE_EOF)
    requires Tracks(s.tracker, cfg.rules, before) && AllWellFormed(x.replies, d)
    requires AllFit(MaskedReplies(cfg, StartOf(x, before), x.replies, d), d)
    ensures var flags := s.upstream.capabilityFlags;
            var start := StartOf(x, before);
            var ready := Commanded(s, x.command);
            var t := Relay(cfg, ready.tracker, AllMessages(x.replies, flags)).0;
            var rest := RunAll(cfg, RelayState(s.client, AfterReplies(ready.upstream, x.replies), t), more);
            var first := Sent(Refusal(x.command), if IsBinary(x.command.payload) then [] else [Taken(s.client, x.command)]);
            && Tracks(t, cfg.rules, start + AllDescribed(cfg, x.replies, d))
            && RunAll(cfg, s, [FromClient(x.command)] + (Arriving(AllPackets(x.replies, d)) + more))
               == rest.(sent := Then(first, Then(Sent(AllMessages(MaskedReplies(cfg, start, x.replies, d), flags), []), rest.sent)))
  {
    hide Ready, Tracks, WellFormedReply, Has, MaskedReplies, FitsWhenMasked, AllMessages, AllPackets, AfterReplies, Reads, Relay,
      AllDescribed, Readies, Then, Refusal, IsBinary;
    var flags := s.upstream.capabilityFlags;
    var ready := Commanded(s, x.command);
    NothingTracked(cfg.rules);
    RepliesRelayed(cfg, ready.tracker, StartOf(x, before), x.replies, flags);
    RepliesRead(ready.upstream, x.replies);
    PacketsRelayed(cfg, ready, AllPackets(x.replies, d), AfterReplies(ready.upstream, x.replies), AllMessages(x.replies, flags), more);
    CommandFirst(cfg, s, x.command, Arriving(AllPackets(x.replies, d)) + more);
  }

  /** Any number of commands, each sent when the replies to the one before are
      complete: the client is sent exactly the refusals and the masked replies,
      and the server exactly the commands that are not refused. The codec may be
      in any state if the first command puts it back. */
  lemma {:induction false} ExchangesRelayed(cfg: Config, s: RelayState, before: seq<Column>, xs: seq<Exchange>, flags: u32)
    requires Ready(cfg) && Serving(s.client) && (xs != [] ==> Readies(s, xs[0].command))
    requires s.upstream.isClientSide && s.upstream.pending.None? && flags == s.upstream.capabilityFlags
    requires Tracks(s.tracker, cfg.rules, before) && AllExchanges(xs, Has(flags, CLIENT_DEPRECATE_EOF))
    requires ExchangesFit(cfg, before, xs, Has(flags, CLIENT_DEPRECATE_EOF))
    ensures var run := RunAll(cfg, s, Events(xs, Has(flags, CLIENT_DEPRECATE_EOF)));
            !run.broken && run.sent == Sent(MaskedMessages(cfg, before, xs, flags), PassedMessages(s.client, xs))
    decreases |xs|
  {
    hide SpansInOrder, Tracks, WellFormedReply, Has, MaskedReplies, FitsWhenMasked, AllMessages, AllPackets, Relay, AllDescribed, Step,
      Refusal, IsBinary, Serving, Taken, Then;
    if xs != [] {
      var d := Has(flags, CLIENT_DEPRECATE_EOF);
      var x, rest := xs[0], xs[1..];
      assert x in xs && forall y | y in rest :: y in xs;
      var start := StartOf(x, before);
      ExchangeRelayed(cfg, s, before, x, Events(rest, d), d);
      var ready := Commanded(s, x.command);
      var t := Relay(cfg, ready.tracker, AllMessages(x.replies, flags)).0;
      var next := RelayState(s.client, AfterReplies(ready.upstream, x.replies), t);
      hide StartOf, RunAll;
      ExchangesRelayed(cfg, next, start + AllDescribed(cfg, x.replies, d), rest, flags);
      var masked := AllMessages(MaskedReplies(cfg, start, x.replies, d), flags);
      var more := MaskedMessages(cfg, start + AllDescribed(cfg, x.replies, d), rest, flags);
      var own := if IsBinary(x.command.payload) then [] else [Taken(s.client, x.command)];
      Joined(Refusal(x.command), own, masked, more, PassedMessages(s.client, rest));
      assert PassedMessages(s.client, xs) == own + PassedMessages(s.client, rest);
      hide Then;
    }
  }

  lemma Joined(refusal: seq<Message>, own: seq<Message>, masked: seq<Message>, more: seq<Message>, commands: seq<Message>)
    ensures Then(Sent(refusal, own), Then(Sent(masked, []), Sent(more, commands))) == Sent(refusal + (masked + more), own + commands)
  {
    assert [] + commands == commands;
  }

  // ---- From the client's bytes to the server's ----

  function AllTaken(c: Codec, ps: seq<Packet>): (ms: seq<Message>)
    requires Serving(c)
    ensures |ms| == |ps|
  {
    seq(|ps|, i requires 0 <= i < |ps| => Taken(c, ps[i]))
  }

  /** The client's bytes are read as its commands, one by one, of any size, and the
      codec is where it was. */
  lemma {:induction false} CommandsDecoded(c: Codec, ps: seq<Packet>, tail: bytes)
    requires Serving(c)
    ensures DecodeAll(c, Wire(ps) + tail) == var more := DecodeAll(c, tail); more.(messages := AllTaken(c, ps) + more.messages)
    decreases |ps|
  {
    hide Dispatch, DecodeAll, Chunked, Serving;
    var more := DecodeAll(c, tail);
    if ps == [] {
      assert Wire(ps) + tail == tail && AllTaken(c, ps) + more.messages == more.messages;
    } else {
      var p := ps[0];
      var rest := Wire(ps[1..]) + tail;
      assert c.pending.None? by { ServingIsFree(c); }
      Reassembles(c, p.payload, p.seqId, rest);
      assert Wire(ps) + tail == Chunked(p.payload, p.seqId) + rest;
      CommandsDecoded(c, ps[1..], tail);
      assert AllTaken(c, ps) + more.messages == [Taken(c, p)] + (AllTaken(c, ps[1..]) + more.messages);
    }
  }

  lemma ServingIsFree(c: Codec)
    requires Serving(c)
    ensures c.pending.None?
  {
  }

  /** The command takes one unfinished packet. */
  predicate Short(p: Packet) {
    |p.payload| < M
  }

  function PassedOn(xs: seq<Exchange>): (ps: seq<Packet>)
    ensures forall p | p in ps :: exists x :: x in xs && x.command == p && !IsBinary(p.payload)
  {
    if xs == [] then []
    else
      assert xs[0] in xs && forall x | x in xs[1..] :: x in xs;
      if IsBinary(xs[0].command.payload) then PassedOn(xs[1..]) else [xs[0].command] + PassedOn(xs[1..])
  }

  lemma CommandWritten(c: Codec, p: Packet, flags: u32)
    requires Serving(c)
    ensures var e := Encode(Taken(c, p), flags);
            if StartsWith(p.payload, 3) ==> Short(p) then e == Chunked(p.payload, p.seqId) else |e| < |Chunked(p.payload, p.seqId)|
  {
    var m := Taken(c, p);
    ForwardedVerbatim(c, p.seqId, p.payload, |p.payload| >= M, flags);
    if m.Query? {
      QueryReadExactly(c, p.seqId, p.payload, |p.payload| >= M);
      QueryForwarded(c, p.seqId, p.payload, |p.payload| >= M, flags);
      ChunkedLength(p.payload, p.seqId);
      hide Header, Dispatch, Chunked;
      assert |Encode(m, flags)| == 4 + |p.payload|;
    }
  }

  /** The server gets the very bytes of the commands that are not refused if and
      only if every query among them fits one unfinished packet. */
  lemma {:induction false} ServerGetsCommands(c: Codec, xs: seq<Exchange>, flags: u32)
    requires Serving(c)
    ensures var e, w := EncodeAll(PassedMessages(c, xs), flags), Wire(PassedOn(xs));
            && |e| <= |w|
            && (e == w <==> forall p | p in PassedOn(xs) :: StartsWith(p.payload, 3) ==> Short(p))
            && (|e| == |w| ==> e == w)
    decreases |xs|
  {
    hide Dispatch, Chunked, Encode, Encodable, IsBinary, Serving;
    if xs != [] {
      var rest := xs[1..];
      ServerGetsCommands(c, rest, flags);
      if !IsBinary(xs[0].command.payload) {
        var p, m := xs[0].command, Taken(c, xs[0].command);
        CommandWritten(c, p, flags);
        var ms, ps := PassedMessages(c, xs), PassedOn(xs);
        assert ms[0] == m && ms[1..] == PassedMessages(c, rest);
        assert ps[0] == p && ps[1..] == PassedOn(rest) && forall q :: q in ps <==> q == p || q in ps[1..];
        var e, w := Encode(m, flags), Chunked(p.payload, p.seqId);
        var f, v := EncodeAll(PassedMessages(c, rest), flags), Wire(PassedOn(rest));
        assert EncodeAll(ms, flags) == e + f && Wire(ps) == w + v;
        hide EncodeAll, Wire, Taken, PassedMessages, PassedOn, StartsWith;
        if e == w && e + f == w + v {
          assert f == (e + f)[|e|..] && v == (w + v)[|w|..];
        }
      }
    }
  }

  // ---- Commands while a result set is under way ----

  lemma OnlyRowsGiveRows(c: Codec, seqId: byte, packet: bytes, assembled: bool)
    ensures var r := Dispatch(c, seqId, packet, assembled).1;
            r.Success? && r.value.ResultRow? ==> c.state.ReadingRows? && |r.value.values| == c.columnCount
  {
    hide ParseOk, ParseErr, ParseEof, ParseColumn, ParseValues, Lenenc.Read, Handshake.ParseHandshakeV10,
      Handshake.ParseHandshakeResponse, Encodable;
  }

  /** A row the server sends is taken for that row if and only if the codec expects
      rows with as many columns. */
  lemma RowReadExactly(c: Codec, seqId: byte, values: Values)
    requires values != [] && Storable(values)
    ensures var p := RowPayload(values);
            Dispatch(c, seqId, p, |p| >= M).1 == Success(ResultRow(seqId, values))
            <==> c.state.ReadingRows? && c.columnCount == |values|
  {
    hide Dispatch, RowPayload;
    OnlyRowsGiveRows(c, seqId, RowPayload(values), |RowPayload(values)| >= M);
    if c.state.ReadingRows? && c.columnCount == |values| {
      RowDispatches(c, seqId, values);
    }
  }

  /** A packet is sent on as a row if and only if it was read as one. */
  lemma PacketSent(cfg: Config, s: RelayState, p: Packet)
    requires Ready(cfg)
    ensures var r := Dispatch(s.upstream, p.seqId, p.payload, |p.payload| >= M).1;
            var sent := Step(cfg, s, FromServer(p)).1;
            && (sent.Success? <==> r.Success?)
            && (r.Success? ==>
                  && |sent.value.toClient| == 1 && sent.value.toServer == []
                  && (sent.value.toClient[0].ResultRow? <==> r.value.ResultRow?)
                  && (r.value.ResultRow? ==>
                        sent.value.toClient[0] == ResultRow(r.value.seqId, MaskRow(cfg.env, s.tracker.targetCols, r.value.values))))
  {
    hide Dispatch, SpansInOrder, MaskRow, AddColumn, MySqlNames;
  }

  /** Exactly then what is sent for it is that row with each value masked by the
      strategy in force for its position. */
  lemma RowMaskedExactly(cfg: Config, s: RelayState, seqId: byte, values: Values)
    requires Ready(cfg) && values != [] && Storable(values)
    ensures Step(cfg, s, FromServer(Packet(seqId, RowPayload(values)))).1
            == Success(Sent([ResultRow(seqId, MaskRow(cfg.env, s.tracker.targetCols, values))], []))
            <==> s.upstream.state.ReadingRows? && s.upstream.columnCount == |values|
  {
    hide *;
    var p := Packet(seqId, RowPayload(values));
    RowReadExactly(s.upstream, seqId, values);
    OnlyRowsGiveRows(s.upstream, seqId, p.payload, |p.payload| >= M);
    PacketSent(cfg, s, p);
    var sent := Step(cfg, s, FromServer(p)).1;
    if s.upstream.state.ReadingRows? && s.upstream.columnCount == |values| {
      assert sent.value.toClient == [sent.value.toClient[0]];
    }
  }

  /** After a command that is passed on to be answered, whatever was under way, the
      next row goes out as it came, unless it cannot be read at all. */
  lemma RowAfterCommandShown(cfg: Config, s: RelayState, command: Packet, seqId: byte, values: Values, flags: u32)
    requires Ready(cfg) && Serving(s.client) && Readies(s, command) && s.upstream.isClientSide && values != [] && Storable(values)
    ensures var s1 := Step(cfg, s, FromClient(command)).0;
            var r := Step(cfg, s1, FromServer(Packet(seqId, RowPayload(values)))).1;
            r.Success? ==> |r.value.toClient| == 1 && Encodable(r.value.toClient[0])
                           && Encode(r.value.toClient[0], flags) == Chunked(RowPayload(values), seqId)
  {
    var c := s.upstream.(state := State.Command);
    var p := RowPayload(values);
    CommandForwards(c, seqId, p, |p| >= M);
    if Dispatch(c, seqId, p, |p| >= M).1.Success? {
      ForwardedVerbatim(c, seqId, p, |p| >= M, flags);
      var m := Dispatch(c, seqId, p, |p| >= M).1.value;
      assert !m.ColumnMsg? && !m.ResultRow?;
    }
    CommandLeaves(cfg, s, command);
    hide Dispatch, RowPayload, Encode, Encodable, SpansInOrder, OnCommand;
  }

  lemma CommandLeaves(cfg: Config, s: RelayState, command: Packet)
    requires Ready(cfg) && Serving(s.client) && Readies(s, command)
    ensures Step(cfg, s, FromClient(command)).0 == Commanded(s, command)
  {
    hide *;
    CommandDone(cfg, s, command);
  }

  lemma CommandForwards(c: Codec, seqId: byte, packet: bytes, assembled: bool)
    requires c.state.Command? && c.isClientSide
    ensures var r := Dispatch(c, seqId, packet, assembled).1;
            r.Success? ==> Forwarded(r.value) && !r.value.ColumnMsg? && !r.value.ResultRow?
  {
    hide ParseOk, ParseErr, ParseEof, Lenenc.Read, Encodable;
  }

  /** An input: a row with one short value is then read as the header of a result
      set with as many columns as the value has bytes, and the value is sent on. */
  lemma ShortRowShown(cfg: Config, s: RelayState, command: Packet, seqId: byte, v: bytes)
    requires Ready(cfg) && Serving(s.client) && Readies(s, command) && s.upstream.isClientSide && 1 <= |v| <= 250
    ensures var s1 := Step(cfg, s, FromClient(command)).0;
            var p := RowPayload([Some(v)]);
            var (s2, r) := Step(cfg, s1, FromServer(Packet(seqId, p)));
            r == Success(Sent([Generic(seqId, p)], [])) && s2.upstream.state == ReadingColumns(|v|) && p[1..] == v
  {
    assert Storable([Some(v)]);
    ShortRowPayload(v);
    var c := s.upstream.(state := State.Command);
    var p := RowPayload([Some(v)]);
    assert HeaderFor(p, |v|) by { hide RowPayload; }
    HeaderTakenUp(c, Packet(seqId, p), |v|, |p| >= M);
    CommandLeaves(cfg, s, command);
    hide Dispatch, RowPayload, SpansInOrder, OnCommand;
  }

  lemma ShortRowPayload(v: bytes)
    requires 1 <= |v| <= 250
    ensures Storable([Some(v)])
    ensures var p := RowPayload([Some(v)]);
            p == [|v|] + v && p[1..] == v && Lenenc.Read(p).Success? && Lenenc.Read(p).value.0 == |v|
  {
    assert [Some(v)][1..] == [];
    assert [|v|] + v + [] == [|v|] + v;
  }
}
