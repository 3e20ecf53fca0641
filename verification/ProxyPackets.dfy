/** Packets the proxy builds itself, and columns a test or tool may build, read
    back as what they were built from. */
module ProxyPackets {
  import opened Wrappers
  import opened Bytes
  import opened MySqlPackets
  import opened MySqlCodec
  import Lenenc

  lemma WordAt(s: bytes, i: nat, n: u16)
    requires i + 2 <= |s| && s[i..i + 2] == LE(n, 2)
    ensures MySqlPackets.U16At(s, i) == n
  {
    Pow256Values();
    LERoundTrip(n, 2);
    hide LE, FromLE;
  }

  lemma DoubleWordAt(s: bytes, i: nat, n: u32)
    requires i + 4 <= |s| && s[i..i + 4] == LE(n, 4)
    ensures MySqlPackets.U32At(s, i) == n
  {
    Pow256Values();
    LERoundTrip(n, 4);
    hide LE, FromLE;
  }

  /** A built OK packet, with the status words only when both sides use them. */
  lemma BuiltOkReads(o: OkPacket, flags: u32)
    requires o.affectedRows < U64_LIMIT && o.lastInsertId < U64_LIMIT
    ensures var p := OkPayload(o, flags);
            && p[0] == 0
            && ParseOk(p, o.seqId, flags)
               == Success(if Has(flags, CLIENT_PROTOCOL_41) then o.(raw := p) else o.(raw := p, statusFlags := 0, warnings := 0))
  {
    hide Has, Lenenc.Read, Lenenc.Write, LE, FromLE, MySqlPackets.U16At;
    var p := OkPayload(o, flags);
    var words := if Has(flags, CLIENT_PROTOCOL_41) then LE(o.statusFlags, 2) + LE(o.warnings, 2) else [];
    var w0, w1 := Lenenc.Write(o.affectedRows), Lenenc.Write(o.lastInsertId);
    var b2 := words + o.info;
    var b1 := w1 + b2;
    assert p[1..] == w0 + b1;
    Lenenc.ReadWrite(o.affectedRows, b1);
    assert (w0 + b1)[|w0|..] == b1;
    Lenenc.ReadWrite(o.lastInsertId, b2);
    assert b1[|w1|..] == b2;
    if Has(flags, CLIENT_PROTOCOL_41) {
      assert b2[0..2] == LE(o.statusFlags, 2) && b2[2..4] == LE(o.warnings, 2) && b2[4..] == o.info;
      WordAt(b2, 0, o.statusFlags);
      WordAt(b2, 2, o.warnings);
    } else {
      assert b2 == o.info;
    }
  }

  /** A built ERR packet; without the newer protocol the SQL state is not sent. */
  lemma BuiltErrReads(e: ErrPacket, flags: u32)
    requires |e.sqlState| == 5
    ensures var p := ErrPayload(e, flags);
            && p[0] == 0xff
            && ParseErr(p, e.seqId, flags)
               == Success(if Has(flags, CLIENT_PROTOCOL_41) then e.(raw := p) else e.(raw := p, sqlState := [0, 0, 0, 0, 0]))
  {
    hide Has, LE, FromLE, MySqlPackets.U16At;
    var p := ErrPayload(e, flags);
    assert p[1..3] == LE(e.errorCode, 2);
    WordAt(p, 1, e.errorCode);
    var b := p[3..];
    if Has(flags, CLIENT_PROTOCOL_41) {
      assert b == [0x23] + e.sqlState + e.errorMessage;
      assert b[1..6] == e.sqlState && b[6..] == e.errorMessage;
    } else {
      assert b == e.errorMessage;
    }
  }

  lemma BuiltEofReads(e: EofPacket)
    ensures var p := EofPayload(e); ParseEof(p, e.seqId) == Success(e.(raw := p)) && p[0] == 0xfe && |p| < 9
  {
    hide LE, FromLE, MySqlPackets.U16At;
    var p := EofPayload(e);
    assert p[1..3] == LE(e.warnings, 2) && p[3..5] == LE(e.statusFlags, 2);
    WordAt(p, 1, e.warnings);
    WordAt(p, 3, e.statusFlags);
  }

  lemma StringReads(s: bytes, tail: bytes)
    requires |s| < U64_LIMIT
    ensures Lenenc.ReadString(Lenenc.WriteString(s) + tail) == Success((s, tail))
  {
    hide Lenenc.Read, Lenenc.Write;
    var w := Lenenc.Write(|s|);
    Lenenc.ReadWrite(|s|, s + tail);
    assert Lenenc.WriteString(s) + tail == w + (s + tail);
    assert (w + (s + tail))[|w|..] == s + tail;
    assert (s + tail)[..|s|] == s && (s + tail)[|s|..] == tail;
  }

  function FixedPart(c: ColumnDefinition): (s: bytes)
    ensures |s| == 13
  {
    [0x0c] + LE(c.characterSet, 2) + LE(c.columnLength, 4) + [c.columnType] + LE(c.flags, 2) + [c.decimals] + [0, 0]
  }

  lemma FixedPartReads(c: ColumnDefinition)
    ensures var s := FixedPart(c);
            && MySqlPackets.U16At(s, 1) == c.characterSet && MySqlPackets.U32At(s, 3) == c.columnLength
            && s[7] == c.columnType && MySqlPackets.U16At(s, 8) == c.flags && s[10] == c.decimals
  {
    hide LE, FromLE, MySqlPackets.U16At, MySqlPackets.U32At;
    var s := FixedPart(c);
    assert s[1..3] == LE(c.characterSet, 2) && s[3..7] == LE(c.columnLength, 4) && s[8..10] == LE(c.flags, 2);
    WordAt(s, 1, c.characterSet);
    DoubleWordAt(s, 3, c.columnLength);
    WordAt(s, 8, c.flags);
  }

  /** A built column definition. */
  lemma BuiltColumnReads(c: ColumnDefinition)
    requires ColumnFits(c)
    ensures var p := ColumnPayload(c); ParseColumn(p, c.seqId) == Success(c.(raw := p))
  {
    hide Lenenc.ReadString, Lenenc.WriteString, LE, MySqlPackets.U16At, MySqlPackets.U32At;
    var s6 := FixedPart(c);
    var s5 := Lenenc.WriteString(c.orgName) + s6;
    var s4 := Lenenc.WriteString(c.name) + s5;
    var s3 := Lenenc.WriteString(c.orgTable) + s4;
    var s2 := Lenenc.WriteString(c.table) + s3;
    var s1 := Lenenc.WriteString(c.schema) + s2;
    assert ColumnPayload(c) == Lenenc.WriteString(c.catalog) + s1;
    StringReads(c.catalog, s1);
    StringReads(c.schema, s2);
    StringReads(c.table, s3);
    StringReads(c.orgTable, s4);
    StringReads(c.name, s5);
    StringReads(c.orgName, s6);
    FixedPartReads(c);
  }
}
