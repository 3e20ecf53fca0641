/** The PostgreSQL formats byte by byte, as the protocol's documentation has them:
    what the decoder takes from which position of any frame. */
module PostgresFormats {
  import opened Wrappers
  import opened Bytes
  import opened Postgres

  function Be2(a: byte, b: byte): u16 {
    0x100 * a + b
  }

  function Be4(a: byte, b: byte, c: byte, d: byte): u32 {
    0x100_0000 * a + 0x1_0000 * b + 0x100 * c + d
  }

  lemma BigEndian(s: bytes)
    ensures |s| == 2 ==> FromBE(s) == Be2(s[0], s[1])
    ensures |s| == 4 ==> FromBE(s) == Be4(s[0], s[1], s[2], s[3])
  {
    if |s| == 2 {
      assert s[..1] == [s[0]] && [s[0]][..0] == [];
      assert FromBE([s[0]]) == s[0];
    } else if |s| == 4 {
      var t := s[..3];
      var u := s[..2];
      assert t[..2] == u && FromBE(s) == 256 * FromBE(t) + s[3] && FromBE(t) == 256 * FromBE(u) + t[2];
      BigEndian(u);
    }
  }

  lemma U16Is(s: bytes, i: nat)
    requires i + 2 <= |s|
    ensures U16At(s, i) == Be2(s[i], s[i + 1])
  {
    BigEndian(s[i..i + 2]);
  }

  lemma U32Is(s: bytes, i: nat)
    requires i + 4 <= |s|
    ensures U32At(s, i) == Be4(s[i], s[i + 1], s[i + 2], s[i + 3])
  {
    BigEndian(s[i..i + 4]);
  }

  /** A number with a sign: negative if the highest bit is set. */
  function Signed2(a: byte, b: byte): i16 {
    if a >= 0x80 then Be2(a, b) - 0x1_0000 else Be2(a, b)
  }

  function Signed4(a: byte, b: byte, c: byte, d: byte): i32 {
    if a >= 0x80 then Be4(a, b, c, d) - 0x1_0000_0000 else Be4(a, b, c, d)
  }

  lemma SignedIs(s: bytes, i: nat)
    ensures i + 2 <= |s| ==> I16At(s, i) == Signed2(s[i], s[i + 1])
    ensures i + 4 <= |s| ==> I32At(s, i) == Signed4(s[i], s[i + 1], s[i + 2], s[i + 3])
  {
    hide U16At, U32At;
    if i + 2 <= |s| {
      U16Is(s, i);
    }
    if i + 4 <= |s| {
      U32Is(s, i);
    }
  }

  // ---- Frames ----

  /** The first frame of a connection has no type: a length of 8 to 10000 that
      counts itself, the high byte first, and a version or the code 1234.5679 of a
      request for TLS. A bad length is an error at once, before the frame is there. */
  lemma StartupReads(src: bytes)
    ensures |src| < 4 ==> Decode(true, src) == NeedMore
    ensures |src| >= 4 ==>
            var n := Be4(src[0], src[1], src[2], src[3]);
            if n < 8 || n > 10000 then Decode(true, src).Done? && Decode(true, src).result.Failure? && Decode(true, src).rest == src
            else if |src| < n then Decode(true, src) == NeedMore
            else if Be2(src[4], src[5]) == 1234 && Be2(src[6], src[7]) == 5679
            then Decode(true, src) == Done(true, src[n..], Success(SSLRequest))
            else
              && Decode(true, src).Done? && Decode(true, src).rest == src[n..]
              && (var ps := ParseParams(src[8..n]);
                  if ps.Failure? then Decode(true, src).isStartup && Decode(true, src).result == Failure(ps.error)
                  else !Decode(true, src).isStartup
                       && Decode(true, src).result == Success(Startup(Be4(src[4], src[5], src[6], src[7]), ps.value)))
  {
    hide ParseParams, U32At;
    if |src| >= 4 {
      U32Is(src, 0);
    }
    if |src| >= 8 {
      U32Is(src, 4);
    }
  }

  /** Any later frame: a type, a length of 4 bytes to 64 MiB that counts itself but
      not the type, and the body. */
  lemma FrameReads(src: bytes)
    ensures |src| < 5 ==> Decode(false, src) == NeedMore
    ensures |src| >= 5 ==>
            var n := Be4(src[1], src[2], src[3], src[4]);
            if n < 4 || n > 64 * 1024 * 1024
            then Decode(false, src).Done? && Decode(false, src).result.Failure? && Decode(false, src).rest == src
            else if |src| < 1 + n then Decode(false, src) == NeedMore
            else Decode(false, src) == Done(false, src[1 + n..], ParseBody(src[0], src[5..1 + n]))
  {
    hide ParseBody, U32At;
    if |src| >= 5 {
      U32Is(src, 1);
    }
  }

  // ---- Bodies ----

  /** A field of a row description: a name up to a zero byte and 18 bytes. */
  lemma FieldReads(name: bytes, f: bytes)
    requires 0 !in name
    ensures ParseField(name + [0] + f)
            == if |f| < 18 then Failure("malformed RowDescription: truncated field")
               else Success((Field(name, Be4(f[0], f[1], f[2], f[3]), Be2(f[4], f[5]), Be4(f[6], f[7], f[8], f[9]),
                                   Signed2(f[10], f[11]), Signed4(f[12], f[13], f[14], f[15]), Signed2(f[16], f[17])), f[18..]))
  {
    hide ReadCString, U16At, U32At, I16At, I32At;
    CStringRoundTrip(name, f);
    if |f| >= 18 {
      U32Is(f, 0);
      U16Is(f, 4);
      U32Is(f, 6);
      SignedIs(f, 10);
      SignedIs(f, 12);
      SignedIs(f, 16);
    }
  }

  /** A value in a row: four bytes of FF for NULL, otherwise a length below 2 GiB
      and as many bytes. */
  lemma ValueReads(s: bytes)
    requires |s| >= 4
    ensures var n := Be4(s[0], s[1], s[2], s[3]);
            if s[0] == 0xff && s[1] == 0xff && s[2] == 0xff && s[3] == 0xff then ParseValue(s) == Success((None, s[4..]))
            else if n < 0x8000_0000 && 4 + n <= |s| then ParseValue(s) == Success((Some(s[4..4 + n]), s[4 + n..]))
            else ParseValue(s).Failure?
  {
    hide I32At;
    SignedIs(s, 0);
  }

  /** A row description and a row: a count and as many fields or values. */
  lemma DescriptionReads(body: bytes)
    ensures if |body| < 2 then ParseBody('T' as int, body).Failure?
            else var fs := ParseFields(body[2..], Be2(body[0], body[1]));
                 ParseBody('T' as int, body) == if fs.Success? then Success(RowDescription(fs.value)) else Failure(fs.error)
  {
    hide ParseFields, U16At;
    if |body| >= 2 {
      U16Is(body, 0);
    }
  }

  lemma RowReads(body: bytes)
    ensures if |body| < 2 then ParseBody('D' as int, body).Failure?
            else var vs := ParseValues(body[2..], Be2(body[0], body[1]));
                 ParseBody('D' as int, body) == if vs.Success? then Success(DataRow(vs.value)) else Failure(vs.error)
  {
    hide ParseValues, U16At;
    if |body| >= 2 {
      U16Is(body, 0);
    }
  }

  /** A Query message: its text up to a zero byte. */
  lemma QueryReads(body: bytes)
    ensures if 0 in body then ParseBody('Q' as int, body) == Success(Query(body[..FirstNul(body)]))
            else ParseBody('Q' as int, body).Failure?
  {
    hide FirstNul;
    NulIn(body);
  }

  /** The kind of a message is told from its type letter alone, and any other body is
      kept as it is. */
  lemma KindIsLetter(messageType: byte, body: bytes)
    requires ParseBody(messageType, body).Success?
    ensures var m := ParseBody(messageType, body).value;
            && (m.RowDescription? <==> messageType == 'T' as int) && (m.DataRow? <==> messageType == 'D' as int)
            && (m.Query? <==> messageType == 'Q' as int) && (m.Parse? <==> messageType == 'P' as int)
            && (messageType in {'T' as int, 'D' as int, 'Q' as int, 'P' as int} || m == Regular(messageType, body))
  {
    hide ParseFields, ParseValues, ParseTypes, ReadCString, U16At;
  }

  lemma NulIn(s: bytes)
    ensures FirstNul(s) < |s| <==> 0 in s
  {
    if 0 !in s {
      NoNul(s);
    } else {
      assert s[..|s|] == s;
    }
  }

  /** A Parse message: the statement's name and its text, each up to a zero byte, a
      count and as many types of four bytes. */
  lemma ParseReads(statement: bytes, query: bytes, types: bytes)
    requires 0 !in statement && 0 !in query
    ensures var r := ParseBody('P' as int, statement + [0] + (query + [0] + types));
            if |types| < 2 || |types| < 2 + 4 * (Be2(types[0], types[1]) as nat) then r.Failure?
            else
              && r.Success? && r.value.Parse? && r.value.statement == statement && r.value.parseQuery == query
              && |r.value.paramTypes| == Be2(types[0], types[1])
              && forall i | 0 <= i < |r.value.paramTypes| ::
                   var at := 2 + 4 * i; r.value.paramTypes[i] == Be4(types[at], types[at + 1], types[at + 2], types[at + 3])
  {
    hide ReadCString, U16At, U32At;
    CStringRoundTrip(statement, query + [0] + types);
    CStringRoundTrip(query, types);
    if |types| >= 2 {
      U16Is(types, 0);
      var n: nat := Be2(types[0], types[1]);
      if |types| >= 2 + 4 * n {
        forall i | 0 <= i < n
          ensures U32At(types[2..], 4 * i) == Be4(types[2 + 4 * i], types[3 + 4 * i], types[4 + 4 * i], types[5 + 4 * i])
        {
          U32Is(types[2..], 4 * i);
        }
      }
    }
  }

  /** The parameters of a startup: pairs of strings up to an empty key. */
  lemma ParamsRead(key: bytes, value: bytes, rest: bytes)
    requires 0 !in key && 0 !in value && IsUtf8(key) && IsUtf8(value)
    ensures ParseParams([]) == Success([])
    ensures ParseParams([0] + rest) == Success([])
    ensures key != [] ==>
              var more := ParseParams(rest);
              ParseParams(key + [0] + (value + [0] + rest))
              == if more.Success? then Success([(key, value)] + more.value) else more
  {
    hide IsUtf8, ParseParams;
    if key != [] {
      ParamStep(key, value, rest);
    }
    EmptyKeyEnds(rest);
  }

  /** ... and they fail for a key or a value that does not end or is no text. */
  lemma ParamsFail(s: bytes)
    requires s != []
    ensures 0 !in s ==> ParseParams(s).Failure?
    ensures forall key, rest: bytes | 0 !in key && s == key + [0] + rest ::
              (!IsUtf8(key) || (key != [] && 0 !in rest)) ==> ParseParams(s).Failure?
    ensures forall key, value, rest: bytes | 0 !in key && 0 !in value && s == key + [0] + (value + [0] + rest) ::
              key != [] && !IsUtf8(value) ==> ParseParams(s).Failure?
  {
    hide ReadCString, IsUtf8;
    EndsNowhere(s);
    forall key, rest: bytes | 0 !in key && s == key + [0] + rest
      ensures (!IsUtf8(key) || (key != [] && 0 !in rest)) ==> ParseParams(s).Failure?
    {
      CStringRoundTrip(key, rest);
      EndsNowhere(rest);
    }
    forall key, value, rest: bytes | 0 !in key && 0 !in value && s == key + [0] + (value + [0] + rest)
      ensures key != [] && !IsUtf8(value) ==> ParseParams(s).Failure?
    {
      CStringRoundTrip(key, value + [0] + rest);
      CStringRoundTrip(value, rest);
    }
  }

  lemma EndsNowhere(s: bytes)
    ensures 0 !in s ==> ReadCString(s).Failure?
  {
    if 0 !in s {
      NoNul(s);
    }
  }

  lemma EmptyKeyEnds(rest: bytes)
    ensures ParseParams([]) == Success([]) && ParseParams([0] + rest) == Success([])
  {
    hide ReadCString, IsUtf8;
    CStringRoundTrip([], rest);
    assert [] + [0] + rest == [0] + rest;
    assert IsUtf8([]) by { AsciiIsUtf8([]); }
  }
}
