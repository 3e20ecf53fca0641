/** The MySQL formats byte by byte, as the protocol's documentation has them: what
    each reader takes from which position of any packet, and the fixed bytes that
    writers put in. */
module MySqlFormats {
  import opened Wrappers
  import opened Bytes
  import opened Framing
  import opened MySqlPackets
  import opened MySqlCodec
  import opened Auth
  import opened Handshake
  import Bits
  import Lenenc
  import ProxyPackets

  function Le2(a: byte, b: byte): u16 {
    a + 0x100 * b
  }

  function Le3(a: byte, b: byte, c: byte): nat {
    a + 0x100 * b + 0x1_0000 * c
  }

  function Le4(a: byte, b: byte, c: byte, d: byte): u32 {
    a + 0x100 * b + 0x1_0000 * c + 0x100_0000 * d
  }

  lemma LittleEndian(s: bytes)
    ensures |s| == 2 ==> FromLE(s) == Le2(s[0], s[1])
    ensures |s| == 3 ==> FromLE(s) == Le3(s[0], s[1], s[2])
    ensures |s| == 4 ==> FromLE(s) == Le4(s[0], s[1], s[2], s[3])
  {
    if |s| in {2, 3, 4} {
      var t := s[1..];
      assert FromLE(s) == s[0] + 256 * FromLE(t) && FromLE(t) == t[0] + 256 * FromLE(t[1..]);
      if |s| > 2 {
        assert FromLE(t[1..]) == t[1] + 256 * FromLE(t[1..][1..]);
        if |s| > 3 {
          assert t[1..][1..] == [s[3]] && [s[3]][1..] == [] && FromLE([s[3]]) == s[3];
        }
      }
    }
  }

  /** Bit `k` of a word is whether 2 to the `k` goes into it an odd number of times. */
  lemma {:induction false} BitIs(q: nat, r: nat, k: nat)
    requires r < Bits.Pow2(k)
    ensures Bits.Bit(q * Bits.Pow2(k) + r, k) <==> q % 2 == 1
  {
    if k > 0 {
      var p := Bits.Pow2(k - 1);
      assert q * (2 * p) == 2 * (q * p);
      BitIs(q, r / 2, k - 1);
    }
  }

  /** The flag words of the protocol. */
  lemma FlagWords()
    ensures Bits.Pow2(CLIENT_CONNECT_WITH_DB) == 0x8 && Bits.Pow2(CLIENT_COMPRESS) == 0x20
    ensures Bits.Pow2(CLIENT_PROTOCOL_41) == 0x200 && Bits.Pow2(CLIENT_SSL) == 0x800
    ensures Bits.Pow2(CLIENT_SECURE_CONNECTION) == 0x8000 && Bits.Pow2(CLIENT_PLUGIN_AUTH) == 0x8_0000
    ensures Bits.Pow2(CLIENT_CONNECT_ATTRS) == 0x10_0000 && Bits.Pow2(CLIENT_DEPRECATE_EOF) == 0x100_0000
  {
    Bits.Pow2Byte(0);
    Bits.Pow2Byte(8);
    Bits.Pow2Byte(16);
    Bits.Pow2Byte(3);
    Bits.Pow2Byte(1);
    Bits.Pow2Byte(7);
    Bits.Pow2Byte(11);
    Bits.Pow2Byte(4);
    Bits.Pow2Byte(12);
    assert Bits.Pow2(1) == 2 && Bits.Pow2(3) == 8 && Bits.Pow2(4) == 16 && Bits.Pow2(5) == 32 && Bits.Pow2(7) == 128;
  }

  // ---- Integers and frames ----

  /** A length-encoded integer, from its marker and the bytes after it. */
  lemma LenencReads(buf: bytes)
    ensures Lenenc.Read(buf).Success? <==>
            buf != [] && buf[0] != 0xff && |buf| >= (if buf[0] == 0xfc then 3 else if buf[0] == 0xfd then 4 else if buf[0] == 0xfe then 9 else 1)
    ensures Lenenc.Read(buf).Success? ==>
              var (v, used) := Lenenc.Read(buf).value;
              if buf[0] <= 0xfa then v == buf[0] && used == 1
              else if buf[0] == 0xfb then v == 0 && used == 1
              else if buf[0] == 0xfc then v == Le2(buf[1], buf[2]) && used == 3
              else if buf[0] == 0xfd then v == Le3(buf[1], buf[2], buf[3]) && used == 4
              else v == Le4(buf[1], buf[2], buf[3], buf[4]) + 0x1_0000_0000 * Le4(buf[5], buf[6], buf[7], buf[8]) && used == 9
  {
    hide FromLE, LE;
    if |buf| >= 3 {
      LittleEndian(buf[1..3]);
    }
    if |buf| >= 4 {
      LittleEndian(buf[1..4]);
    }
    if |buf| >= 9 {
      EightBytes(buf[1..9]);
    }
  }

  lemma EightBytes(s: bytes)
    requires |s| == 8
    ensures FromLE(s) == Le4(s[0], s[1], s[2], s[3]) + 0x1_0000_0000 * Le4(s[4], s[5], s[6], s[7])
  {
    var t := s[4..];
    LittleEndian(t);
    var s1, s2, s3 := s[1..], s[2..], s[3..];
    assert s1[1..] == s2 && s2[1..] == s3 && s3[1..] == t;
    assert FromLE(s) == s[0] + 256 * FromLE(s1) && FromLE(s1) == s[1] + 256 * FromLE(s2);
    assert FromLE(s2) == s[2] + 256 * FromLE(s3) && FromLE(s3) == s[3] + 256 * FromLE(t);
  }

  /** A packet: three bytes of length, the low one first, the sequence id and the
      payload. A payload of 0xFF_FFFF bytes is kept for the packet that goes on with
      it; any other completes a message. */
  lemma FrameReads(c: Codec, src: bytes)
    ensures StepPacket(c, src).NeedMore? <==> |src| < 4 || |src| < 4 + Le3(src[0], src[1], src[2])
    ensures !StepPacket(c, src).NeedMore? ==>
              var n := Le3(src[0], src[1], src[2]);
              var (seqId, before) := if c.pending.Some? then (c.pending.value.seqId, c.pending.value.payload) else (src[3], []);
              if src[0] == 0xff && src[1] == 0xff && src[2] == 0xff
              then StepPacket(c, src) == Silent(c.(pending := Some(Pending(seqId, before + src[4..4 + n]))), src[4 + n..])
              else var d := Dispatch(c.(pending := None), seqId, before + src[4..4 + n], c.pending.Some?);
                   StepPacket(c, src) == Done(d.0, src[4 + n..], d.1)
  {
    hide FromLE, Dispatch;
    if |src| >= 4 {
      LittleEndian(src[..3]);
      var n := Le3(src[0], src[1], src[2]);
      if |src| >= 4 + n {
        assert [] + src[4..4 + n] == src[4..4 + n];
        assert c.pending.None? ==> c.(pending := None) == c;
      }
    }
  }

  /** What a header looks like; only the three low bytes of a length are written. */
  lemma HeaderWrites(len: nat, seqId: byte)
    ensures Header(len, seqId) == [len % 0x100, len / 0x100 % 0x100, len / 0x100 / 0x100 % 0x100, seqId]
  {
    assert LE(len, 3) == [len % 256] + LE(len / 256, 2);
    assert LE(len / 256, 2) == [len / 256 % 256] + LE(len / 256 / 256, 1);
    assert LE(len / 256 / 256, 1) == [len / 256 / 256 % 256];
  }

  /** A string up to a zero byte must be text; if it is not, its bytes are gone but
      not the zero, and if there is none nothing is. */
  lemma NulStringReads(text: bytes, rest: bytes)
    requires 0 !in text
    ensures ReadNulString(text).0.Failure? && ReadNulString(text).1 == text
    ensures var r := ReadNulString(text + [0] + rest);
            if IsUtf8(text) then r == (Success(text), rest) else r.0.Failure? && r.1 == [0] + rest
  {
    hide IsUtf8;
    NoNul(text);
    FirstNulAfter(text, rest);
    var s := text + [0] + rest;
    assert s[..|text|] == text && s[|text|..] == [0] + rest && s[|text| + 1..] == rest;
  }

  // ---- OK, ERR, EOF ----

  lemma U16Is(s: bytes, i: nat)
    requires i + 2 <= |s|
    ensures MySqlPackets.U16At(s, i) == Le2(s[i], s[i + 1])
  {
    LittleEndian(s[i..i + 2]);
  }

  lemma U32Is(s: bytes, i: nat)
    requires i + 4 <= |s|
    ensures MySqlPackets.U32At(s, i) == Le4(s[i], s[i + 1], s[i + 2], s[i + 3])
  {
    LittleEndian(s[i..i + 4]);
  }

  /** An OK packet: after the first byte the affected rows, the last insert id and,
      with the newer protocol, the status and the number of warnings. */
  lemma OkReads(first: byte, rows: nat, id: nat, rest: bytes, seqId: byte, flags: u32)
    requires rows < U64_LIMIT && id < U64_LIMIT
    ensures var packet := [first] + Lenenc.Write(rows) + Lenenc.Write(id) + rest;
            ParseOk(packet, seqId, flags)
            == if !Has(flags, CLIENT_PROTOCOL_41) then Success(OkPacket(seqId, rows, id, 0, 0, rest, packet))
               else if |rest| < 4 then Failure("truncated OK packet: missing status/warnings")
               else Success(OkPacket(seqId, rows, id, Le2(rest[0], rest[1]), Le2(rest[2], rest[3]), rest[4..], packet))
  {
    hide Has, Lenenc.Read, Lenenc.Write, MySqlPackets.U16At;
    var w0, w1 := Lenenc.Write(rows), Lenenc.Write(id);
    var packet := [first] + w0 + w1 + rest;
    assert packet[1..] == w0 + (w1 + rest);
    Lenenc.ReadWrite(rows, w1 + rest);
    assert (w0 + (w1 + rest))[|w0|..] == w1 + rest;
    Lenenc.ReadWrite(id, rest);
    assert (w1 + rest)[|w1|..] == rest;
    if |rest| >= 4 {
      U16Is(rest, 0);
      U16Is(rest, 2);
    }
  }

  /** An ERR packet: the code at byte 1 and, with the newer protocol, a marker and
      five bytes of SQL state before the text. */
  lemma ErrReads(packet: bytes, seqId: byte, flags: u32)
    ensures ParseErr(packet, seqId, flags).Success? <==> |packet| >= (if Has(flags, CLIENT_PROTOCOL_41) then 9 else 3)
    ensures ParseErr(packet, seqId, flags).Success? ==>
              ParseErr(packet, seqId, flags).value ==
              if Has(flags, CLIENT_PROTOCOL_41) then ErrPacket(seqId, Le2(packet[1], packet[2]), packet[4..9], packet[9..], packet)
              else ErrPacket(seqId, Le2(packet[1], packet[2]), [0, 0, 0, 0, 0], packet[3..], packet)
  {
    hide Has, MySqlPackets.U16At;
    if |packet| >= 3 {
      U16Is(packet, 1);
    }
  }

  lemma EofReads(packet: bytes, seqId: byte)
    requires packet != []
    ensures ParseEof(packet, seqId) == Success(EofPacket(seqId,
                                                         if |packet| >= 3 then Le2(packet[1], packet[2]) else 0,
                                                         if |packet| >= 5 then Le2(packet[3], packet[4]) else 0,
                                                         packet))
  {
    hide MySqlPackets.U16At;
    if |packet| >= 3 {
      U16Is(packet, 1);
    }
    if |packet| >= 5 {
      U16Is(packet, 3);
    }
  }

  /** The fixed bytes in packets the proxy builds. */
  lemma FixedBytes(o: OkPacket, e: ErrPacket, eof: EofPacket, c: ColumnDefinition, flags: u32)
    requires o.affectedRows < U64_LIMIT && o.lastInsertId < U64_LIMIT && ColumnFits(c)
    ensures OkPayload(o, flags)[0] == 0 && EofPayload(eof)[0] == 0xfe && |EofPayload(eof)| == 5
    ensures ErrPayload(e, flags)[0] == 0xff && (Has(flags, CLIENT_PROTOCOL_41) ==> ErrPayload(e, flags)[3] == '#' as int)
    ensures var p := ColumnPayload(c); |p| >= 13 && p[|p| - 13] == 12 && p[|p| - 2..] == [0, 0]
  {
    hide Has, Lenenc.Write, LE;
    var p := ColumnPayload(c);
    var fixed := [0x0c] + LE(c.characterSet, 2) + LE(c.columnLength, 4) + [c.columnType] + LE(c.flags, 2) + [c.decimals] + [0, 0];
    assert |fixed| == 13 && p[|p| - 13..] == fixed;
  }

  // ---- Columns and rows ----

  /** A column definition: six strings in this order, and then at fixed places the
      character set, the length, the type, the flags and the decimals. */
  lemma ColumnReads(catalog: bytes, schema: bytes, table: bytes, orgTable: bytes, name: bytes, orgName: bytes, f: bytes, seqId: byte)
    requires |catalog| < U64_LIMIT && |schema| < U64_LIMIT && |table| < U64_LIMIT
    requires |orgTable| < U64_LIMIT && |name| < U64_LIMIT && |orgName| < U64_LIMIT && |f| >= 13
    ensures var p := Lenenc.WriteString(catalog) + Lenenc.WriteString(schema) + Lenenc.WriteString(table)
                     + Lenenc.WriteString(orgTable) + Lenenc.WriteString(name) + Lenenc.WriteString(orgName) + f;
            ParseColumn(p, seqId)
            == Success(ColumnDefinition(seqId, catalog, schema, table, orgTable, name, orgName,
                                        Le2(f[1], f[2]), Le4(f[3], f[4], f[5], f[6]), f[7], Le2(f[8], f[9]), f[10], p))
  {
    hide Lenenc.ReadString, Lenenc.WriteString, MySqlPackets.U16At, MySqlPackets.U32At;
    var s5 := Lenenc.WriteString(orgName) + f;
    var s4 := Lenenc.WriteString(name) + s5;
    var s3 := Lenenc.WriteString(orgTable) + s4;
    var s2 := Lenenc.WriteString(table) + s3;
    var s1 := Lenenc.WriteString(schema) + s2;
    var p := Lenenc.WriteString(catalog) + Lenenc.WriteString(schema) + Lenenc.WriteString(table)
             + Lenenc.WriteString(orgTable) + Lenenc.WriteString(name) + Lenenc.WriteString(orgName) + f;
    assert p == Lenenc.WriteString(catalog) + s1;
    ProxyPackets.StringReads(catalog, s1);
    ProxyPackets.StringReads(schema, s2);
    ProxyPackets.StringReads(table, s3);
    ProxyPackets.StringReads(orgTable, s4);
    ProxyPackets.StringReads(name, s5);
    ProxyPackets.StringReads(orgName, f);
    U16Is(f, 1);
    U32Is(f, 3);
    U16Is(f, 8);
  }

  /** A string is its length and its bytes. */
  lemma StringReads(buf: bytes)
    ensures Lenenc.ReadString(buf).Success? <==>
            Lenenc.Read(buf).Success? && var (n, used) := Lenenc.Read(buf).value; used + n <= |buf|
    ensures Lenenc.ReadString(buf).Success? ==>
              var (n, used) := Lenenc.Read(buf).value;
              Lenenc.ReadString(buf).value == (buf[used..used + n], buf[used + n..])
  {
    hide Lenenc.Read;
    if Lenenc.ReadString(buf).Success? {
      var (n, used) := Lenenc.Read(buf).value;
      assert buf[used..][..n] == buf[used..used + n] && buf[used..][n..] == buf[used + n..];
    }
  }

  /** A value in a row: 0xFB is NULL, anything else a string. */
  lemma ValueReads(buf: bytes)
    requires buf != []
    ensures if buf[0] == 0xfb then ParseValue(buf) == Success((None, buf[1..]))
            else if Lenenc.ReadString(buf).Success?
            then ParseValue(buf) == Success((Some(Lenenc.ReadString(buf).value.0), Lenenc.ReadString(buf).value.1))
            else ParseValue(buf).Failure?
  {
    hide Lenenc.Read;
    StringReads(buf);
  }

  // ---- Login packets ----

  /** The greeting: version, server version up to a zero byte, connection id, eight
      bytes of nonce, a zero, the low half of the flags, the character set, the
      status, the high half of the flags. */
  lemma GreetingReads(version: byte, server: bytes, f: bytes)
    requires 0 !in server && IsUtf8(server)
    ensures var raw := [version] + server + [0] + f;
            && (ParseHandshakeV10(raw).Success? <==> |f| >= 31)
            && (|f| >= 31 ==>
                  var h := ParseHandshakeV10(raw).value;
                  && h.protocolVersion == version && h.serverVersion == server && h.raw == raw
                  && h.connectionId == Le4(f[0], f[1], f[2], f[3]) && h.authPluginDataPart1 == f[4..12]
                  && h.capabilityFlags == Le4(f[13], f[14], f[18], f[19])
                  && h.characterSet == f[15] && h.statusFlags == Le2(f[16], f[17])
                  && (h.authPluginDataPart2, h.authPluginName) == ParseAuthTail(h.capabilityFlags, f[20], f[31..]))
  {
    hide IsUtf8, ParseAuthTail, ParseFixed, ReadNulString;
    var raw := [version] + server + [0] + f;
    ReadNulStringRoundTrip(server, f);
    assert raw[1..] == server + [0] + f;
    if |f| >= 31 {
      FixedReads(version, server, f, raw);
    }
  }

  lemma FixedReads(version: byte, server: bytes, f: bytes, raw: bytes)
    requires |f| >= 31
    ensures var flags := Le4(f[13], f[14], f[18], f[19]);
            var (nonce, name) := ParseAuthTail(flags, f[20], f[31..]);
            ParseFixed(version, server, f, raw)
            == Success(HandshakeV10(version, server, Le4(f[0], f[1], f[2], f[3]), f[4..12], flags, f[15], Le2(f[16], f[17]), nonce, name, raw))
  {
    hide ParseAuthTail, MySqlPackets.U16At, MySqlPackets.U32At;
    U32Is(f, 0);
    U16Is(f, 13);
    U16Is(f, 16);
    U16Is(f, 18);
  }

  /** The rest of the greeting, of nonce bytes `tail` and the announced length of the
      whole nonce: at least 13 bytes are the second part, which ends at a zero byte,
      and then comes the plugin's name up to one. Each is there if its flag says so. */
  lemma GreetingTailReads(flags: u32, length: byte, nonce: bytes, filler: bytes, name: bytes, more: bytes)
    requires 0 !in nonce && filler != [] && filler[0] == 0 && 0 !in name && IsUtf8(name)
    requires Has(flags, CLIENT_SECURE_CONNECTION) && |nonce| + |filler| == (if length > 21 then length - 8 else 13)
    ensures ParseAuthTail(flags, length, nonce + filler + name + [0] + more)
            == (nonce, if Has(flags, CLIENT_PLUGIN_AUTH) then name else [])
  {
    hide Has, IsUtf8, ReadNulString;
    var s := nonce + filler + name + [0] + more;
    var n := |nonce| + |filler|;
    assert s[..n] == nonce + [0] + filler[1..];
    FirstNulAfter(nonce, filler[1..]);
    assert (nonce + [0] + filler[1..])[..|nonce|] == nonce;
    assert s[n..] == name + [0] + more;
    ReadNulStringRoundTrip(name, more);
  }

  /** The 32 bytes every response starts with; a bare one with the TLS bit is a
      request for TLS, any other goes on with the user name up to a zero byte. */
  lemma ResponseReads(raw: bytes)
    ensures ParseResponseRest(raw).Success? ==>
              var r := ParseResponseRest(raw).value.0;
              && |raw| >= 32 && r.raw == raw
              && r.capabilityFlags == Le4(raw[0], raw[1], raw[2], raw[3])
              && r.maxPacketSize == Le4(raw[4], raw[5], raw[6], raw[7]) && r.characterSet == raw[8]
              && (r.IsSslRequest() || (FirstNul(raw[32..]) < |raw| - 32 && r.username == raw[32..32 + FirstNul(raw[32..])]))
    ensures |raw| == 32 && Has(Le4(raw[0], raw[1], raw[2], raw[3]), CLIENT_SSL) ==> ParseResponseRest(raw).Success?
  {
    hide Has, IsUtf8, ParseAuthField, ParseStringField, MySqlPackets.U32At, FirstNul;
    if |raw| >= 32 {
      U32Is(raw, 0);
      U32Is(raw, 4);
      assert raw[32..][..FirstNul(raw[32..])] == raw[32..32 + FirstNul(raw[32..])];
    }
  }

  /** The response the proxy builds: after the prefix the user, the scramble behind
      its length (or before a zero byte), the database and the plugin, the last two
      only with their flags. */
  lemma ResponseWrites(r: HandshakeResponse)
    ensures var p := BuildResponsePayload(r);
            var secure := Has(r.capabilityFlags, CLIENT_SECURE_CONNECTION);
            var auth := if secure then [|r.authResponse| % 256] + r.authResponse else r.authResponse + [0];
            var database := if r.database.Some? then r.database.value else [];
            var plugin := if r.authPluginName.Some? then r.authPluginName.value else [];
            && |p| > 32 && (forall i | 9 <= i < 32 :: p[i] == 0)
            && p[32..] == r.username + [0] + auth
                          + (if Has(r.capabilityFlags, CLIENT_CONNECT_WITH_DB) then database + [0] else [])
                          + (if Has(r.capabilityFlags, CLIENT_PLUGIN_AUTH) then plugin + [0] else [])
  {
    hide Has, ResponsePrefix;
    var p := BuildResponsePayload(r);
    var prefix := ResponsePrefix(r.capabilityFlags, r.maxPacketSize, r.characterSet);
    PrefixPadding(r.capabilityFlags, r.maxPacketSize, r.characterSet);
    assert prefix <= p && p == prefix + p[32..];
    assert forall i | 9 <= i < 32 :: p[i] == prefix[i];
  }

  lemma PrefixPadding(flags: u32, maxPacketSize: u32, characterSet: byte)
    ensures forall i | 9 <= i < 32 :: ResponsePrefix(flags, maxPacketSize, characterSet)[i] == 0
  {
    hide LE;
  }

  /** An auth-switch request: 0xFE, the plugin up to a zero byte, and the nonce. */
  lemma SwitchReads(payload: bytes)
    ensures ParseAuthSwitchRequest(payload).Success? <==> payload != [] && payload[0] == 0xfe && 0 in payload[1..]
    ensures forall name, rest: bytes | 0 !in name && payload == [0xfe] + name + [0] + rest ::
              ParseAuthSwitchRequest(payload) == Success((name, NonceOf(rest)))
  {
    hide NonceOf;
    if payload != [] && payload[0] == 0xfe {
      HasNul(payload[1..]);
    }
    forall name, rest: bytes | 0 !in name && payload == [0xfe] + name + [0] + rest
      ensures ParseAuthSwitchRequest(payload) == Success((name, NonceOf(rest)))
    {
      assert payload[1..] == name + [0] + rest;
      FirstNulAfter(name, rest);
      assert payload[1..][..|name|] == name && payload[1..][|name| + 1..] == rest;
    }
  }

  lemma {:induction false} HasNul(s: bytes)
    ensures FirstNul(s) < |s| <==> 0 in s
  {
    if s != [] && s[0] != 0 {
      HasNul(s[1..]);
    }
  }

  /** A nonce is what is left without the zero bytes at its end, at most 20 bytes. */
  lemma {:induction false} NonceIs(nonce: bytes, zeros: bytes)
    requires (nonce == [] || nonce[|nonce| - 1] != 0) && forall i | 0 <= i < |zeros| :: zeros[i] == 0
    ensures NonceOf(nonce + zeros) == if |nonce| > 20 then nonce[..20] else nonce
    decreases |zeros|
  {
    if zeros == [] {
      assert nonce + zeros == nonce;
    } else {
      var s := nonce + zeros;
      assert s[..|s| - 1] == nonce + zeros[..|zeros| - 1];
      NonceIs(nonce, zeros[..|zeros| - 1]);
    }
  }

  /** The names of the two plugins. */
  lemma PluginNames()
    ensures NameOf(CachingSha2Password) == seq(21, i requires 0 <= i < 21 => CharCode("caching_sha2_password"[i]))
    ensures NameOf(MysqlNativePassword) == seq(21, i requires 0 <= i < 21 => CharCode("mysql_native_password"[i]))
  {
  }

  function CharCode(c: char): byte {
    c as int % 256
  }
}
