/** Capability negotiation for the proxy's own upstream login. */
module Negotiation {
  import opened Bytes
  import opened Bits
  import opened MySqlPackets
  import Handshake

  function Word(op: Op, a: u32, b: u32): u32 {
    Pow2Values();
    Bitwise(op, a, b, 32)
  }

  /** A word with exactly the given bits set. */
  function Mask(flags: seq<nat>): (m: u32)
    requires forall f | f in flags :: f < 32
  {
    if flags == [] then 0 else
      assert forall f | f in flags[1..] :: f in flags;
      assert flags[0] in flags;
      SmallPow2(flags[0]);
      Word(Or, Pow2(flags[0]), Mask(flags[1..]))
  }

  lemma {:induction false} Pow2Monotone(a: nat, b: nat)
    requires a <= b
    ensures Pow2(a) <= Pow2(b)
    decreases b - a
  {
    if a < b {
      Pow2Monotone(a + 1, b);
    }
  }

  lemma SmallPow2(f: nat)
    requires f < 32
    ensures Pow2(f) < 0x1_0000_0000
  {
    Pow2Values();
    Pow2Monotone(f, 31);
    assert Pow2(32) == 2 * Pow2(31);
  }

  lemma {:induction false} MaskBits(flags: seq<nat>, k: nat)
    requires k < 32 && forall f | f in flags :: f < 32
    ensures Has(Mask(flags), k) <==> k in flags
  {
    hide Bit;
    if flags == [] {
      ZeroHasNoBits(k);
    } else {
      assert flags[0] in flags && forall f | f in flags[1..] :: f in flags;
      MaskBits(flags[1..], k);
      Pow2Bit(flags[0], k);
      SmallPow2(flags[0]);
      BitwiseBit(Or, Pow2(flags[0]), Mask(flags[1..]), 32, k);
    }
  }

  lemma WordBits(op: Op, a: u32, b: u32, k: nat)
    requires k < 32
    ensures Has(Word(op, a, b), k) <==> Apply(op, Has(a, k), Has(b, k))
  {
    hide Bit;
    BitwiseBit(op, a, b, 32, k);
  }

  const NEVER_KEPT: seq<nat> := [CLIENT_SSL, CLIENT_COMPRESS, CLIENT_CONNECT_WITH_DB, CLIENT_CONNECT_ATTRS]

  function ProxyFlags(withDatabase: bool, tls: bool): (fs: seq<nat>)
    ensures forall f | f in fs :: f < 32
  {
    [CLIENT_PROTOCOL_41, CLIENT_SECURE_CONNECTION, CLIENT_PLUGIN_AUTH]
    + (if withDatabase then [CLIENT_CONNECT_WITH_DB] else []) + (if tls then [CLIENT_SSL] else [])
  }

  /** The flags the proxy decides by itself. */
  predicate Owned(k: nat) {
    k in {CLIENT_SSL, CLIENT_COMPRESS, CLIENT_CONNECT_WITH_DB, CLIENT_CONNECT_ATTRS, CLIENT_PROTOCOL_41,
          CLIENT_SECURE_CONNECTION, CLIENT_PLUGIN_AUTH}
  }

  function Negotiate(client: u32, server: u32, withDatabase: bool, tls: bool): u32 {
    var shared := Word(AndNot, Word(And, client, server), Mask(NEVER_KEPT));
    Word(Or, shared, Word(And, Mask(ProxyFlags(withDatabase, tls)), server))
  }

  method NegotiateUpstreamCapabilities(client: u32, server: u32, withDatabase: bool, tls: bool) returns (caps: u32)
    ensures caps == Negotiate(client, server, withDatabase, tls)
  {
    hide Mask, Word;
    caps := Word(And, client, server);
    caps := Word(AndNot, caps, Mask(NEVER_KEPT));
    var proxyCaps := [CLIENT_PROTOCOL_41, CLIENT_SECURE_CONNECTION, CLIENT_PLUGIN_AUTH];
    if withDatabase {
      proxyCaps := proxyCaps + [CLIENT_CONNECT_WITH_DB];
    }
    if tls {
      proxyCaps := proxyCaps + [CLIENT_SSL];
    }
    assert proxyCaps == ProxyFlags(withDatabase, tls);
    caps := Word(Or, caps, Word(And, Mask(proxyCaps), server));
  }

  /** Bit by bit: nothing the server did not offer, what both sides have on every
      bit the proxy does not own, never zlib compression or connection attributes,
      the proxy's own needs wherever the server offers them. */
  lemma NegotiatedBits(client: u32, server: u32, withDatabase: bool, tls: bool, k: nat)
    requires k < 32
    ensures var caps := Negotiate(client, server, withDatabase, tls);
            && (Has(caps, k) ==> Has(server, k))
            && (!Owned(k) ==> (Has(caps, k) <==> Has(client, k) && Has(server, k)))
            && (k in {CLIENT_COMPRESS, CLIENT_CONNECT_ATTRS} ==> !Has(caps, k))
            && (k in {CLIENT_PROTOCOL_41, CLIENT_SECURE_CONNECTION, CLIENT_PLUGIN_AUTH} ==> (Has(caps, k) <==> Has(server, k)))
            && (k == CLIENT_CONNECT_WITH_DB ==> (Has(caps, k) <==> withDatabase && Has(server, k)))
            && (k == CLIENT_SSL ==> (Has(caps, k) <==> tls && Has(server, k)))
  {
    hide Has, Word, Mask;
    var proxy := Mask(ProxyFlags(withDatabase, tls));
    var shared := Word(AndNot, Word(And, client, server), Mask(NEVER_KEPT));
    WordBits(And, client, server, k);
    WordBits(AndNot, Word(And, client, server), Mask(NEVER_KEPT), k);
    WordBits(And, proxy, server, k);
    WordBits(Or, shared, Word(And, proxy, server), k);
    MaskBits(NEVER_KEPT, k);
    MaskBits(ProxyFlags(withDatabase, tls), k);
  }

  // ---- The handshake the client is shown ----

  function SetFlags(flags: u32, fs: seq<nat>): u32
    requires forall f | f in fs :: f < 32
  {
    Word(Or, flags, Mask(fs))
  }

  function ClearFlags(flags: u32, fs: seq<nat>): u32
    requires forall f | f in fs :: f < 32
  {
    Word(AndNot, flags, Mask(fs))
  }

  /** Never zlib compression; TLS exactly when the proxy can answer it; and, since
      the proxy authenticates clients itself, what its own exchange needs. */
  function HelloFlags(server: u32, tlsAcceptor: bool): u32 {
    var flags := ClearFlags(server, [CLIENT_COMPRESS]);
    var tls := if tlsAcceptor then SetFlags(flags, [CLIENT_SSL]) else ClearFlags(flags, [CLIENT_SSL]);
    SetFlags(tls, [CLIENT_PLUGIN_AUTH, CLIENT_SECURE_CONNECTION, CLIENT_PROTOCOL_41])
  }

  lemma HelloBits(server: u32, tlsAcceptor: bool, k: nat)
    requires k < 32
    ensures Has(HelloFlags(server, tlsAcceptor), k) <==>
            if k == CLIENT_COMPRESS then false
            else if k == CLIENT_SSL then tlsAcceptor
            else k in {CLIENT_PLUGIN_AUTH, CLIENT_SECURE_CONNECTION, CLIENT_PROTOCOL_41} || Has(server, k)
  {
    hide Has, Word, Mask;
    var compress, ssl, own := [CLIENT_COMPRESS], [CLIENT_SSL], [CLIENT_PLUGIN_AUTH, CLIENT_SECURE_CONNECTION, CLIENT_PROTOCOL_41];
    var f1 := ClearFlags(server, compress);
    var f2 := if tlsAcceptor then SetFlags(f1, ssl) else ClearFlags(f1, ssl);
    MaskBits(compress, k);
    MaskBits(ssl, k);
    MaskBits(own, k);
    WordBits(AndNot, server, Mask(compress), k);
    WordBits(Or, f1, Mask(ssl), k);
    WordBits(AndNot, f1, Mask(ssl), k);
    WordBits(Or, f2, Mask(own), k);
  }

  /** Both legs agree on every bit the proxy does not own: what it negotiates
      upstream is what the client has left after seeing the proxy's handshake. */
  lemma LegsAgree(client: u32, server: u32, withDatabase: bool, tls: bool, tlsAcceptor: bool, k: nat)
    requires k < 32 && !Owned(k)
    ensures Has(Negotiate(client, server, withDatabase, tls), k)
            <==> Has(client, k) && Has(HelloFlags(server, tlsAcceptor), k)
  {
    hide Has, Negotiate, HelloFlags;
    NegotiatedBits(client, server, withDatabase, tls, k);
    HelloBits(server, tlsAcceptor, k);
  }

  // ---- The other compression bit ----

  const CLIENT_ZSTD_COMPRESSION: nat := 26

  predicate Compresses(flags: u32) {
    Has(flags, CLIENT_COMPRESS) || Has(flags, CLIENT_ZSTD_COMPRESSION)
  }

  /** The proxy clears the bit for zlib compression only. The one for zstd passes
      through in both directions, so compression is negotiated if and only if the
      client asks for zstd and the server offers it, and the client is offered it
      whenever the server has it. */
  lemma CompressionNegotiated(client: u32, server: u32, withDatabase: bool, tls: bool, tlsAcceptor: bool)
    ensures Compresses(Negotiate(client, server, withDatabase, tls))
            <==> Has(client, CLIENT_ZSTD_COMPRESSION) && Has(server, CLIENT_ZSTD_COMPRESSION)
    ensures Compresses(HelloFlags(server, tlsAcceptor)) <==> Has(server, CLIENT_ZSTD_COMPRESSION)
  {
    hide Has, Negotiate, HelloFlags;
    NegotiatedBits(client, server, withDatabase, tls, CLIENT_COMPRESS);
    NegotiatedBits(client, server, withDatabase, tls, CLIENT_ZSTD_COMPRESSION);
    HelloBits(server, tlsAcceptor, CLIENT_COMPRESS);
    HelloBits(server, tlsAcceptor, CLIENT_ZSTD_COMPRESSION);
  }

  /** An input: both sides have that bit alone. */
  lemma ZstdNegotiated(withDatabase: bool, tls: bool)
    ensures var flags := Mask([CLIENT_ZSTD_COMPRESSION]);
            !Has(flags, CLIENT_COMPRESS) && Compresses(Negotiate(flags, flags, withDatabase, tls))
  {
    hide Has, Negotiate, Mask;
    var flags := Mask([CLIENT_ZSTD_COMPRESSION]);
    MaskBits([CLIENT_ZSTD_COMPRESSION], CLIENT_ZSTD_COMPRESSION);
    MaskBits([CLIENT_ZSTD_COMPRESSION], CLIENT_COMPRESS);
    CompressionNegotiated(flags, flags, withDatabase, tls, false);
  }

  /** The SSLRequest the proxy builds is what a server reads as one, with the
      client's packet size and character set and its flags but for the one added. */
  lemma SslRequestIsRead(flags: u32, maxPacketSize: u32, characterSet: byte)
    ensures var m := Handshake.BuildSslRequest(flags, maxPacketSize, characterSet);
            var r := Handshake.ParseHandshakeResponse(m.payload);
            && r.Success? && r.value.IsSslRequest()
            && r.value.maxPacketSize == maxPacketSize && r.value.characterSet == characterSet
            && forall k | 0 <= k < 32 :: Has(r.value.capabilityFlags, k) <==> k == CLIENT_SSL || Has(flags, k)
  {
    hide Bit, LE, FromLE;
    Pow2Values();
    var f := Handshake.SetSsl(flags);
    forall k | 0 <= k < 32 ensures Has(f, k) <==> k == CLIENT_SSL || Has(flags, k) {
      Pow2Bit(CLIENT_SSL, k);
      BitwiseBit(Or, flags, Pow2(CLIENT_SSL), 32, k);
    }
    hide Handshake.SetSsl;
    Pow256Values();
    LERoundTrip(f, 4);
    LERoundTrip(maxPacketSize, 4);
    var p := Handshake.ResponsePrefix(f, maxPacketSize, characterSet);
    assert p[0..4] == LE(f, 4) && p[4..8] == LE(maxPacketSize, 4) && p[8] == characterSet;
  }
}
