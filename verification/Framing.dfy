/** Packet framing: a 3-byte little-endian length and a sequence id before each
    payload, and payloads of `M` bytes or more cut into several packets (section
    "Sending More Than 16Mb" of the MySQL Client/Server Protocol). */
module Framing {
  import opened Bytes

  /** The largest payload length of one packet; such a packet is continued. */
  const M: nat := 0xff_ffff

  /** One packet header. Only the three low bytes of the length are written. */
  function Header(len: nat, seqId: byte): (h: bytes)
    ensures |h| == 4
  {
    LE(len, 3) + [seqId]
  }

  lemma HeaderRoundTrip(len: nat, seqId: byte, tail: bytes)
    requires len <= M
    ensures var s := Header(len, seqId) + tail; FromLE(s[..3]) == len && s[3] == seqId && s[4..] == tail
  {
    Pow256Values();
    LERoundTrip(len, 3);
    var s := Header(len, seqId) + tail;
    assert s[..3] == LE(len, 3);
  }

  /** A payload as the canonical run of packets. */
  function Chunked(payload: bytes, seqId: byte): bytes
    decreases |payload|
  {
    if |payload| < M then Header(|payload|, seqId) + payload
    else Header(M, seqId) + payload[..M] + Chunked(payload[M..], NextSeq(seqId))
  }

  /** Number of packets that carry a payload of this length. */
  function PacketCount(len: nat): (n: nat)
    ensures n == len / M + 1
  {
    if len < M then 1 else 1 + PacketCount(len - M)
  }

  lemma {:induction false} ChunkedLength(payload: bytes, seqId: byte)
    ensures |Chunked(payload, seqId)| == |payload| + 4 * PacketCount(|payload|)
    decreases |payload|
  {
    if |payload| >= M {
      ChunkedLength(payload[M..], NextSeq(seqId));
    }
  }

  /** A writer that puts one header in front of the whole payload does what the
      chunking one does exactly for payloads that fit one unfinished packet. */
  lemma SingleHeaderChunks(payload: bytes, seqId: byte)
    ensures Header(|payload|, seqId) + payload == Chunked(payload, seqId) <==> |payload| < M
  {
    hide Header;
    ChunkedLength(payload, seqId);
  }

  method WritePacketChunked(dst: BytesMut, payload: bytes, firstSeq: byte)
    modifies dst
    ensures dst.data == old(dst.data) + Chunked(payload, firstSeq)
  {
    var seqId := firstSeq;
    var rest := payload;
    ghost var before := dst.data;
    while true
      invariant before + Chunked(payload, firstSeq) == dst.data + Chunked(rest, seqId)
      decreases |rest|
    {
      var chunkLen := if |rest| < M then |rest| else M;
      var chunk := rest[..chunkLen];
      ghost var was := dst.data;
      ghost var all := Chunked(rest, seqId);
      dst.data := dst.data + Header(chunkLen, seqId) + chunk;
      if chunkLen < M {
        assert chunk == rest;
        assert was + all == dst.data;
        break;
      }
      assert was + all == dst.data + Chunked(rest[M..], NextSeq(seqId));
      seqId := NextSeq(seqId);
      rest := rest[chunkLen..];
    }
  }
}
