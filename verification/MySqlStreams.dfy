/** Whole MySQL streams: what a run of packets decodes to, that the way the
    bytes arrive does not matter, and that forwarding reproduces them. */
module MySqlStreams {
  import opened Wrappers
  import opened Bytes
  import opened Framing
  import opened MySqlPackets
  import opened MySqlCodec

  // ---- Fragmentation ----

  /** A run followed by more bytes: the rest is decoded with the bytes that were
      left over, unless decoding has already failed. */
  function Continue(r: Run, more: bytes): Run {
    if r.error.Some? then r.(rest := r.rest + more)
    else
      var next := DecodeAll(r.codec, r.rest + more);
      next.(messages := r.messages + next.messages)
  }

  lemma StepPacketExtends(c: Codec, a: bytes, b: bytes)
    requires !StepPacket(c, a).NeedMore?
    ensures var s := StepPacket(c, a);
            StepPacket(c, a + b) == match s case Silent(d, rest) => Silent(d, rest + b)
                                            case Done(d, rest, m) => Done(d, rest + b, m)
  {
    hide Dispatch, FromLE;
    assert (a + b)[..3] == a[..3];
    var len := FromLE(a[..3]);
    assert (a + b)[4..4 + len] == a[4..4 + len];
    assert (a + b)[4 + len..] == a[4 + len..] + b;
  }

  lemma {:induction false} DecodeAllAppend(c: Codec, a: bytes, b: bytes)
    ensures DecodeAll(c, a + b) == Continue(DecodeAll(c, a), b)
    decreases |a|
  {
    hide Dispatch, StepPacket;
    var s := StepPacket(c, a);
    if !s.NeedMore? {
      StepPacketExtends(c, a, b);
      if s.Silent? || s.result.Success? {
        DecodeAllAppend(s.codec, s.rest, b);
      }
      if s.Done? && s.result.Success? {
        AppendMessage(s.result.value, DecodeAll(s.codec, s.rest), b);
      }
    }
  }

  lemma AppendMessage(m: Message, r: Run, b: bytes)
    ensures var next := Continue(r, b);
            Continue(r.(messages := [m] + r.messages), b) == next.(messages := [m] + next.messages)
  {
    if r.error.None? {
      var next := DecodeAll(r.codec, r.rest + b);
      assert [m] + (r.messages + next.messages) == [m] + r.messages + next.messages;
    }
  }

  function Concat(pieces: seq<bytes>): bytes {
    if pieces == [] then [] else pieces[0] + Concat(pieces[1..])
  }

  /** Decoding a stream that arrives in pieces: after each piece everything that
      is complete is decoded; the leftover bytes and the codec are kept. */
  function Feed(r: Run, pieces: seq<bytes>): Run
    decreases |pieces|
  {
    if pieces == [] then r else Feed(Continue(r, pieces[0]), pieces[1..])
  }

  lemma {:induction false} ContinueAppend(r: Run, a: bytes, b: bytes)
    ensures Continue(Continue(r, a), b) == Continue(r, a + b)
  {
    hide DecodeAll;
    if r.error.Some? {
      assert r.rest + a + b == r.rest + (a + b);
    } else {
      DecodeAllAppend(r.codec, r.rest + a, b);
      assert r.rest + a + b == r.rest + (a + b);
      var mid := DecodeAll(r.codec, r.rest + a);
      var all := DecodeAll(r.codec, r.rest + (a + b));
      if mid.error.None? {
        var next := DecodeAll(mid.codec, mid.rest + b);
        assert r.messages + mid.messages + next.messages == r.messages + (mid.messages + next.messages);
      }
    }
  }

  /** However the stream is cut up, the messages, the codec, the leftover bytes
      and any error are those of decoding it whole. */
  lemma {:induction false} FragmentationIndependent(r: Run, pieces: seq<bytes>)
    requires pieces != []
    ensures Feed(r, pieces) == Continue(r, Concat(pieces))
    decreases |pieces|
  {
    hide Continue;
    if |pieces| == 1 {
      assert pieces[0] + Concat(pieces[1..]) == pieces[0];
      assert pieces[1..] == [];
    } else {
      FragmentationIndependent(Continue(r, pieces[0]), pieces[1..]);
      ContinueAppend(r, pieces[0], Concat(pieces[1..]));
    }
  }

  lemma DecodedInPieces(c: Codec, pieces: seq<bytes>)
    requires pieces != []
    ensures Feed(Run(c, [], [], None), pieces) == DecodeAll(c, Concat(pieces))
  {
    FragmentationIndependent(Run(c, [], [], None), pieces);
    assert [] + Concat(pieces) == Concat(pieces);
    assert DecodeAll(c, Concat(pieces)).messages == [] + DecodeAll(c, Concat(pieces)).messages;
  }

  // ---- Reassembly ----

  /** Decoding continued after one dispatched payload. */
  function After(d: Dispatched, tail: bytes): Run {
    match d.1
    case Failure(e) => Run(d.0, tail, [], Some(e))
    case Success(m) => var more := DecodeAll(d.0, tail); more.(messages := [m] + more.messages)
  }

  /** One packet at the front of the buffer is read as the header says. */
  lemma StepHeader(c: Codec, len: nat, seqId: byte, packet: bytes, tail: bytes)
    requires len == |packet| <= M
    ensures StepPacket(c, Header(len, seqId) + packet + tail) ==
            if len == M then
              var so := if c.pending.Some? then c.pending.value else Pending(seqId, []);
              Silent(c.(pending := Some(so.(payload := so.payload + packet))), tail)
            else if c.pending.Some? then
              var (d, m) := Dispatch(c.(pending := None), c.pending.value.seqId, c.pending.value.payload + packet, true);
              Done(d, tail, m)
            else
              var (d, m) := Dispatch(c, seqId, packet, false);
              Done(d, tail, m)
  {
    hide Dispatch, Header, FromLE;
    HeaderRoundTrip(len, seqId, packet + tail);
    var src := Header(len, seqId) + packet + tail;
    assert src == Header(len, seqId) + (packet + tail);
    assert src[4..4 + len] == packet && src[4 + len..] == tail;
  }

  lemma {:induction false} ReassembleInto(c: Codec, so: Pending, payload: bytes, seqId: byte, tail: bytes)
    requires c.pending.None?
    ensures DecodeAll(c.(pending := Some(so)), Chunked(payload, seqId) + tail)
            == After(Dispatch(c, so.seqId, so.payload + payload, true), tail)
    decreases |payload|
  {
    hide Dispatch, Header, StepPacket, FromLE;
    var p := c.(pending := Some(so));
    assert p.(pending := None) == c;
    if |payload| < M {
      StepHeader(p, |payload|, seqId, payload, tail);
    } else {
      var more := Chunked(payload[M..], NextSeq(seqId)) + tail;
      assert Chunked(payload, seqId) + tail == Header(M, seqId) + payload[..M] + more;
      StepHeader(p, M, seqId, payload[..M], more);
      var so' := so.(payload := so.payload + payload[..M]);
      ReassembleInto(c, so', payload[M..], NextSeq(seqId), tail);
      assert so.payload + payload[..M] + payload[M..] == so.payload + payload;
      assert DecodeAll(p, Chunked(payload, seqId) + tail) == DecodeAll(c.(pending := Some(so')), more);
      hide DecodeAll, Chunked, After;
    }
  }

  /** A canonically chunked payload of any size is dispatched whole, under the
      first packet's sequence id, marked as assembled when it took several packets. */
  lemma Reassembles(c: Codec, payload: bytes, seqId: byte, tail: bytes)
    requires c.pending.None?
    ensures DecodeAll(c, Chunked(payload, seqId) + tail) == After(Dispatch(c, seqId, payload, |payload| >= M), tail)
  {
    hide Dispatch, Header, StepPacket;
    if |payload| < M {
      StepHeader(c, |payload|, seqId, payload, tail);
    } else {
      var more := Chunked(payload[M..], NextSeq(seqId)) + tail;
      assert Chunked(payload, seqId) + tail == Header(M, seqId) + payload[..M] + more;
      StepHeader(c, M, seqId, payload[..M], more);
      assert [] + payload[..M] == payload[..M];
      ReassembleInto(c, Pending(seqId, payload[..M]), payload[M..], NextSeq(seqId), tail);
      assert payload[..M] + payload[M..] == payload;
    }
  }

  // ---- One header for too much ----

  function PendingLength(c: Codec): nat {
    if c.pending.Some? then |c.pending.value.payload| else 0
  }

  /** The message was read from a payload of at most `n` bytes. */
  ghost predicate ReadWithin(m: Message, n: int) {
    exists q, seqId :: ReadFrom(m, seqId, q) && |q| <= n
  }

  lemma {:induction false} FirstReadWithin(c: Codec, src: bytes)
    ensures var run := DecodeAll(c, src);
            run.messages != [] ==> ReadWithin(run.messages[0], PendingLength(c) + |src| - 4)
    decreases |src|
  {
    hide Dispatch, FromLE, ReadFrom;
    var s := StepPacket(c, src);
    match s
    case NeedMore =>
    case Silent(d, rest) => FirstReadWithin(d, rest);
    case Done(d, rest, m) =>
      if m.Success? {
        var len := FromLE(src[..3]);
        var packet := src[4..4 + len];
        var so := if c.pending.Some? then c.pending.value else Pending(src[3], []);
        assert [] + packet == packet;
        assert ReadFrom(m.value, so.seqId, so.payload + packet);
      }
  }

  /** A payload of 0xFFFFFF bytes or more behind a single header is never read:
      whatever the decoder makes of it comes from fewer bytes. */
  lemma OversizeNotRead(c: Codec, payload: bytes, seqId: byte)
    requires c.pending.None? && |payload| >= M
    ensures var run := DecodeAll(c, Header(|payload|, seqId) + payload);
            run.messages != [] ==> ReadWithin(run.messages[0], |payload| - 1)
  {
    hide Dispatch, ReadFrom, Header, FromLE, DecodeAll;
    var src := Header(|payload|, seqId) + payload;
    FromLEBound(src[..3]);
    Pow256Values();
    var len := FromLE(src[..3]);
    assert src[4..4 + len] == payload[..len];
    OversizeStep(c, src);
    if len == M {
      FirstReadWithin(c.(pending := Some(Pending(src[3], [] + payload[..len]))), src[4 + len..]);
    }
  }

  lemma OversizeStep(c: Codec, src: bytes)
    requires c.pending.None? && |src| >= 4 && FromLE(src[..3]) <= |src| - 4
    ensures var len := FromLE(src[..3]);
            var run := DecodeAll(c, src);
            if len == M
            then run == DecodeAll(c.(pending := Some(Pending(src[3], [] + src[4..4 + len]))), src[4 + len..])
            else run.messages != [] ==> ReadWithin(run.messages[0], len)
  {
    hide Dispatch, ReadFrom, FromLE;
    var len := FromLE(src[..3]);
    if len != M {
      var (d, m) := Dispatch(c, src[3], src[4..4 + len], false);
      if m.Success? {
        assert ReadFrom(m.value, src[3], src[4..4 + len]);
      }
    }
  }

  // ---- Rows ----

  /** Every row of at least one value, whatever the sizes, comes back as it was
      written: never as a terminator, never as an ERR packet. */
  lemma EncodedRowDecodes(c: Codec, seqId: byte, values: Values, flags: u32, tail: bytes)
    requires c.state.ReadingRows? && c.pending.None? && c.columnCount == |values| > 0 && Storable(values)
    ensures DecodeAll(c, Encode(ResultRow(seqId, values), flags) + tail)
            == After((c, Success(ResultRow(seqId, values))), tail)
  {
    Reassembles(c, RowPayload(values), seqId, tail);
    RowDispatches(c, seqId, values);
  }

  lemma RowDispatches(c: Codec, seqId: byte, values: Values)
    requires c.state.ReadingRows? && c.columnCount == |values| > 0 && Storable(values)
    ensures var p := RowPayload(values);
            Dispatch(c, seqId, p, |p| >= M) == (c, Success(ResultRow(seqId, values)))
  {
    hide RowPayload, ParseValues;
    RowFirstByte(values);
    RowRoundTrip(values, []);
    assert RowPayload(values) + [] == RowPayload(values);
  }

  // ---- Verbatim forwarding ----

  /** Messages the proxy forwards without looking inside. */
  predicate Forwarded(m: Message) {
    m.Generic? || m.OkMsg? || m.ErrMsg? || m.EofMsg? || m.ColumnMsg?
  }

  /** In every state and under any flags: a payload that is read as a forwarded
      message is written back as the packets it came in. */
  lemma ForwardedVerbatim(c: Codec, seqId: byte, packet: bytes, assembled: bool, flags: u32)
    requires Dispatch(c, seqId, packet, assembled).1.Success?
    ensures var m := Dispatch(c, seqId, packet, assembled).1.value;
            Encodable(m) && (Forwarded(m) ==> Encode(m, flags) == Chunked(packet, seqId))
  {
    hide Dispatch, Chunked;
  }

  /** The same off the wire, for frames of any number of packets. */
  lemma FrameForwarded(c: Codec, seqId: byte, payload: bytes, flags: u32, tail: bytes)
    requires c.pending.None? && Dispatch(c, seqId, payload, |payload| >= M).1.Success?
    ensures var run := DecodeAll(c, Chunked(payload, seqId) + tail);
            && run.messages != []
            && run.messages[0] == Dispatch(c, seqId, payload, |payload| >= M).1.value
            && Encodable(run.messages[0])
            && (Forwarded(run.messages[0]) ==> Encode(run.messages[0], flags) == Chunked(payload, seqId))
  {
    hide Dispatch, Chunked, DecodeAll, Encode;
    Reassembles(c, payload, seqId, tail);
    ForwardedVerbatim(c, seqId, payload, |payload| >= M, flags);
  }

  /** COM_QUERY is rewritten with a single header, so it survives exactly when
      the command byte and the text fit one unfinished packet. */
  lemma QueryForwarded(c: Codec, seqId: byte, packet: bytes, assembled: bool, flags: u32)
    requires Dispatch(c, seqId, packet, assembled).1.Success?
    requires Dispatch(c, seqId, packet, assembled).1.value.Query?
    ensures var m := Dispatch(c, seqId, packet, assembled).1.value;
            Encode(m, flags) == Chunked(packet, seqId) <==> 1 + |m.query| < M
  {
    hide Dispatch, Header;
    var m := Dispatch(c, seqId, packet, assembled).1.value;
    assert packet == [3] + m.query;
    ChunkedLength(packet, seqId);
    if |packet| < M {
      assert Encode(m, flags) == Header(|packet|, seqId) + packet;
    }
  }

  /** A row survives exactly when the server used shortest-form lengths and
      nothing followed the last value. */
  lemma RowForwarded(c: Codec, seqId: byte, packet: bytes, assembled: bool, flags: u32)
    requires Dispatch(c, seqId, packet, assembled).1.Success?
    requires Dispatch(c, seqId, packet, assembled).1.value.ResultRow?
    ensures Encode(Dispatch(c, seqId, packet, assembled).1.value, flags) == Chunked(packet, seqId)
            <==> CanonicalRow(packet, c.columnCount)
  {
    hide Dispatch, CanonicalRow, RowPayload, ParseValues;
    var m := Dispatch(c, seqId, packet, assembled).1.value;
    RowReencode(packet, c.columnCount);
    if Encode(m, flags) == Chunked(packet, seqId) {
      ChunkedInjective(RowPayload(m.values), packet, seqId);
    }
  }

  lemma {:induction false} ChunkedInjective(p: bytes, q: bytes, seqId: byte)
    requires Chunked(p, seqId) == Chunked(q, seqId)
    ensures p == q
    decreases |p|
  {
    hide Header;
    ChunkedLength(p, seqId);
    ChunkedLength(q, seqId);
    assert |p| == |q|;
    if |p| < M {
      assert Chunked(p, seqId)[4..] == p;
      assert Chunked(q, seqId)[4..] == q;
    } else {
      var k := 4 + M;
      assert Chunked(p, seqId)[4..k] == p[..M] && Chunked(p, seqId)[k..] == Chunked(p[M..], NextSeq(seqId));
      assert Chunked(q, seqId)[4..k] == q[..M] && Chunked(q, seqId)[k..] == Chunked(q[M..], NextSeq(seqId));
      ChunkedInjective(p[M..], q[M..], NextSeq(seqId));
      assert p == p[..M] + p[M..];
    }
  }
}
