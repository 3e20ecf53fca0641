/** The PostgreSQL codec (section "Message Formats" of the PostgreSQL
    Frontend/Backend Protocol chapter). */
module Postgres {
  import opened Wrappers
  import opened Bytes

  type i16 = n: int | -0x8000 <= n < 0x8000
  type i32 = n: int | -0x8000_0000 <= n < 0x8000_0000

  datatype Field = Field(
    name: bytes, tableOid: u32, columnIndex: u16, typeOid: u32, typeLen: i16, typeModifier: i32, formatCode: i16)

  type Values = seq<Option<bytes>>
  type Params = seq<(bytes, bytes)>

  datatype Message =
    | Startup(protocolVersion: u32, parameters: Params)
    | SSLRequest
    | Regular(messageType: byte, payload: bytes)
    | RowDescription(fields: seq<Field>)
    | DataRow(values: Values)
    | Query(query: bytes)
    | Parse(statement: bytes, parseQuery: bytes, paramTypes: seq<u32>)

  const MAX_FRAME_LEN: nat := 0x400_0000
  const MAX_STARTUP_LEN: nat := 10000
  const SSL_REQUEST: u32 := 80877103

  const T: byte := 0x54
  const D: byte := 0x44
  const Q: byte := 0x51
  const P: byte := 0x50

  // ---- Integers and strings ----

  function U16At(s: bytes, i: nat): u16
    requires i + 2 <= |s|
  {
    Pow256Values(); FromBEBound(s[i..i + 2]);
    FromBE(s[i..i + 2])
  }

  function U32At(s: bytes, i: nat): u32
    requires i + 4 <= |s|
  {
    Pow256Values(); FromBEBound(s[i..i + 4]);
    FromBE(s[i..i + 4])
  }

  /** Two's complement. */
  function I16At(s: bytes, i: nat): i16
    requires i + 2 <= |s|
  {
    var n := U16At(s, i);
    if n < 0x8000 then n else n - 0x1_0000
  }

  function I32At(s: bytes, i: nat): i32
    requires i + 4 <= |s|
  {
    var n := U32At(s, i);
    if n < 0x8000_0000 then n else n - 0x1_0000_0000
  }

  function PutI16(n: i16): (s: bytes)
    ensures |s| == 2
  {
    BE(if n < 0 then n + 0x1_0000 else n, 2)
  }

  function PutI32(n: i32): (s: bytes)
    ensures |s| == 4
  {
    BE(if n < 0 then n + 0x1_0000_0000 else n, 4)
  }

  lemma WordsRoundTrip(s: bytes, i: nat)
    ensures i + 2 <= |s| ==> (forall n: u16 :: s[i..i + 2] == BE(n, 2) ==> U16At(s, i) == n)
    ensures i + 4 <= |s| ==> (forall n: u32 :: s[i..i + 4] == BE(n, 4) ==> U32At(s, i) == n)
    ensures i + 2 <= |s| ==> (forall n: i16 :: s[i..i + 2] == PutI16(n) ==> I16At(s, i) == n)
    ensures i + 4 <= |s| ==> (forall n: i32 :: s[i..i + 4] == PutI32(n) ==> I32At(s, i) == n)
  {
    hide BE, FromBE;
    Pow256Values();
    forall n: nat | n < 0x1_0000 ensures FromBE(BE(n, 2)) == n {
      BERoundTrip(n, 2);
    }
    forall n: nat | n < 0x1_0000_0000 ensures FromBE(BE(n, 4)) == n {
      BERoundTrip(n, 4);
    }
  }

  function ReadCString(s: bytes): (r: Result<(bytes, bytes)>)
    ensures r.Success? ==> |r.value.1| < |s|
  {
    var i := FirstNul(s);
    if i == |s| then Failure("missing null terminator in C-string") else Success((s[..i], s[i + 1..]))
  }

  lemma CStringRoundTrip(s: bytes, tail: bytes)
    requires 0 !in s
    ensures ReadCString(s + [0] + tail) == Success((s, tail))
  {
    FirstNulAfter(s, tail);
    assert (s + [0] + tail)[..|s|] == s && (s + [0] + tail)[|s| + 1..] == tail;
  }

  // ---- Bodies ----

  /** Startup parameters up to an empty key or the end of the packet. */
  function ParseParams(s: bytes): Result<Params>
    decreases |s|
  {
    if s == [] then Success([])
    else
      var (key, s1) :- ReadCString(s);
      if !IsUtf8(key) then Failure("invalid utf-8")
      else if key == [] then Success([])
      else
        var (value, s2) :- ReadCString(s1);
        if !IsUtf8(value) then Failure("invalid utf-8")
        else
          var rest :- ParseParams(s2);
          Success([(key, value)] + rest)
  }

  function ParamsBytes(ps: Params): bytes {
    if ps == [] then [0] else ps[0].0 + [0] + ps[0].1 + [0] + ParamsBytes(ps[1..])
  }

  function ParseField(s: bytes): (r: Result<(Field, bytes)>)
    ensures r.Success? ==> |r.value.1| < |s|
  {
    var (name, s1) :- ReadCString(s);
    if |s1| < 18 then Failure("malformed RowDescription: truncated field")
    else
      Success((Field(name, U32At(s1, 0), U16At(s1, 4), U32At(s1, 6), I16At(s1, 10), I32At(s1, 12), I16At(s1, 16)), s1[18..]))
  }

  function FieldBytes(f: Field): (s: bytes)
    ensures |s| == |f.name| + 19
  {
    f.name + [0] + BE(f.tableOid, 4) + BE(f.columnIndex, 2) + BE(f.typeOid, 4) + PutI16(f.typeLen)
    + PutI32(f.typeModifier) + PutI16(f.formatCode)
  }

  function ParseFields(s: bytes, n: nat): (r: Result<seq<Field>>)
    ensures r.Success? ==> |r.value| == n
  {
    if n == 0 then Success([])
    else
      var (f, s1) :- ParseField(s);
      var fs :- ParseFields(s1, n - 1);
      Success([f] + fs)
  }

  function FieldsBytes(fs: seq<Field>): bytes {
    if fs == [] then [] else FieldBytes(fs[0]) + FieldsBytes(fs[1..])
  }

  /** A column: a signed length, -1 for NULL, then that many bytes. */
  function ParseValue(s: bytes): (r: Result<(Option<bytes>, bytes)>)
    ensures r.Success? ==> |r.value.1| < |s|
  {
    if |s| < 4 then Failure("malformed DataRow: missing length")
    else
      var len := I32At(s, 0);
      if len == -1 then Success((None, s[4..]))
      else if len < 0 then Failure("malformed DataRow: invalid negative length")
      else if |s| - 4 < len then Failure("malformed DataRow: length exceeds remaining payload")
      else Success((Some(s[4..4 + len]), s[4 + len..]))
  }

  function ValueBytes(v: Option<bytes>): (s: bytes)
    requires v.Some? ==> |v.value| < 0x8000_0000
  {
    match v
    case None => PutI32(-1)
    case Some(b) => PutI32(|b|) + b
  }

  function ParseValues(s: bytes, n: nat): (r: Result<Values>)
    ensures r.Success? ==> |r.value| == n
  {
    if n == 0 then Success([])
    else
      var (v, s1) :- ParseValue(s);
      var vs :- ParseValues(s1, n - 1);
      Success([v] + vs)
  }

  predicate ValuesFit(vs: Values) {
    forall v | v in vs && v.Some? :: |v.value| < 0x8000_0000
  }

  function ValuesBytes(vs: Values): bytes
    requires ValuesFit(vs)
  {
    if vs == [] then [] else
      assert vs[0] in vs && forall v | v in vs[1..] :: v in vs;
      ValueBytes(vs[0]) + ValuesBytes(vs[1..])
  }

  function ParseTypes(s: bytes, n: nat): (r: seq<u32>)
    requires |s| >= 4 * n
    ensures |r| == n
  {
    seq(n, i requires 0 <= i < n => U32At(s, 4 * i))
  }

  function TypesBytes(ts: seq<u32>): (s: bytes)
    ensures |s| == 4 * |ts|
  {
    if ts == [] then [] else BE(ts[0], 4) + TypesBytes(ts[1..])
  }

  function ParseBody(messageType: byte, body: bytes): Result<Message> {
    if messageType == T then
      if |body| < 2 then Failure("malformed RowDescription: missing field count")
      else
        var fields :- ParseFields(body[2..], U16At(body, 0));
        Success(RowDescription(fields))
    else if messageType == D then
      if |body| < 2 then Failure("malformed DataRow: missing column count")
      else
        var values :- ParseValues(body[2..], U16At(body, 0));
        Success(DataRow(values))
    else if messageType == Q then
      var (query, _) :- ReadCString(body);
      Success(Query(query))
    else if messageType == P then
      var (statement, s1) :- ReadCString(body);
      var (query, s2) :- ReadCString(s1);
      if |s2| < 2 then Failure("malformed Parse: missing parameter count")
      else if |s2| - 2 < 4 * U16At(s2, 0) then Failure("malformed Parse: truncated parameter types")
      else Success(Parse(statement, query, ParseTypes(s2[2..], U16At(s2, 0))))
    else Success(Regular(messageType, body))
  }

  // ---- Frames ----

  datatype Step =
    | NeedMore
    | Done(isStartup: bool, rest: bytes, result: Result<Message>)

  function StepStartup(src: bytes): (s: Step)
    requires |src| >= 4
    ensures s.Done? && s.result.Success? ==> |s.rest| + 8 <= |src|
  {
    var length := U32At(src, 0);
    if !(8 <= length <= MAX_STARTUP_LEN) then Done(true, src, Failure("invalid startup packet length"))
    else if |src| < length then NeedMore
    else
      var rest := src[length..];
      var version := U32At(src, 4);
      if version == SSL_REQUEST then Done(true, rest, Success(SSLRequest))
      else
        match ParseParams(src[8..length])
        case Failure(e) => Done(true, rest, Failure(e))
        case Success(ps) => Done(false, rest, Success(Startup(version, ps)))
  }

  function StepRegular(src: bytes): (s: Step)
    requires |src| >= 4
    ensures s.Done? && s.result.Success? ==> |s.rest| + 5 <= |src|
  {
    if |src| < 5 then NeedMore
    else
      var length := U32At(src, 1);
      if !(4 <= length <= MAX_FRAME_LEN) then Done(false, src, Failure("invalid message length"))
      else if |src| < 1 + length then NeedMore
      else Done(false, src[1 + length..], ParseBody(src[0], src[5..1 + length]))
  }

  /** One call of `decode`: a whole frame, an error, or nothing yet. */
  function Decode(isStartup: bool, src: bytes): (s: Step)
    ensures s.Done? && s.result.Success? ==> |s.rest| + 5 <= |src|
  {
    if |src| < 4 then NeedMore else if isStartup then StepStartup(src) else StepRegular(src)
  }

  datatype Run = Run(isStartup: bool, rest: bytes, messages: seq<Message>, error: Option<string>)

  function DecodeAll(isStartup: bool, src: bytes): Run
    decreases |src|
  {
    match Decode(isStartup, src)
    case NeedMore => Run(isStartup, src, [], None)
    case Done(st, rest, r) =>
      if r.Failure? then Run(st, rest, [], Some(r.error))
      else
        var more := DecodeAll(st, rest);
        more.(messages := [r.value] + more.messages)
  }

  // ---- Encoding ----

  function Body(m: Message): bytes
    requires InBounds(m) && !m.Startup? && !m.SSLRequest?
  {
    match m
    case Regular(_, payload) => payload
    case RowDescription(fields) => BE(|fields|, 2) + FieldsBytes(fields)
    case DataRow(values) => BE(|values|, 2) + ValuesBytes(values)
    case Query(query) => query + [0]
    case Parse(statement, query, types) => statement + [0] + query + [0] + BE(|types|, 2) + TypesBytes(types)
  }

  function TypeByte(m: Message): byte
    requires !m.Startup? && !m.SSLRequest?
  {
    match m
    case Regular(t, _) => t
    case RowDescription(_) => T
    case DataRow(_) => D
    case Query(_) => Q
    case Parse(_, _, _) => P
  }

  /** Counts fit 16 bits and value lengths 31; strings end at their terminator. */
  predicate InBounds(m: Message) {
    match m
    case Startup(_, ps) => true
    case SSLRequest => true
    case Regular(t, _) => t !in {T, D, Q, P}
    case RowDescription(fs) => |fs| < 0x1_0000 && forall f | f in fs :: 0 !in f.name
    case DataRow(vs) => |vs| < 0x1_0000 && ValuesFit(vs)
    case Query(q) => 0 !in q
    case Parse(s, q, ts) => 0 !in s && 0 !in q && |ts| < 0x1_0000
  }

  /** What the encoder writes in the length field: computed from the parts, not
      from the bytes written. */
  function DeclaredLength(m: Message): nat {
    match m
    case Startup(_, ps) => 8 + ParamsLength(ps)
    case SSLRequest => 8
    case Regular(_, payload) => |payload| + 4
    case RowDescription(fs) => 6 + FieldsLength(fs)
    case DataRow(vs) => 6 + ValuesLength(vs)
    case Query(q) => 4 + |q| + 1
    case Parse(s, q, ts) => 4 + |s| + 1 + |q| + 1 + 2 + 4 * |ts|
  }

  function ParamsLength(ps: Params): nat {
    if ps == [] then 1 else |ps[0].0| + 1 + |ps[0].1| + 1 + ParamsLength(ps[1..])
  }

  function FieldsLength(fs: seq<Field>): nat {
    if fs == [] then 0 else |fs[0].name| + 19 + FieldsLength(fs[1..])
  }

  function ValuesLength(vs: Values): nat {
    if vs == [] then 0 else 4 + (if vs[0].Some? then |vs[0].value| else 0) + ValuesLength(vs[1..])
  }

  function Encode(m: Message): bytes
    requires InBounds(m)
  {
    match m
    case Startup(version, ps) => BE(DeclaredLength(m), 4) + BE(version, 4) + ParamsBytes(ps)
    case SSLRequest => BE(8, 4) + BE(SSL_REQUEST, 4)
    case _ => [TypeByte(m)] + BE(DeclaredLength(m), 4) + Body(m)
  }

  lemma {:induction false} ParamsLengthRight(ps: Params)
    ensures |ParamsBytes(ps)| == ParamsLength(ps)
  {
    if ps != [] { ParamsLengthRight(ps[1..]); }
  }

  lemma {:induction false} FieldsLengthRight(fs: seq<Field>)
    ensures |FieldsBytes(fs)| == FieldsLength(fs)
  {
    hide FieldBytes;
    if fs != [] { FieldsLengthRight(fs[1..]); }
  }

  lemma {:induction false} ValuesLengthRight(vs: Values)
    requires ValuesFit(vs)
    ensures |ValuesBytes(vs)| == ValuesLength(vs)
  {
    if vs != [] {
      assert vs[0] in vs && forall v | v in vs[1..] :: v in vs;
      ValuesLengthRight(vs[1..]);
    }
  }

  /** Every declared length is the number of bytes written, the type byte apart. */
  lemma DeclaredLengthRight(m: Message)
    requires InBounds(m)
    ensures |Encode(m)| == DeclaredLength(m) + (if m.Startup? || m.SSLRequest? then 0 else 1)
  {
    hide BE, FieldsBytes, ValuesBytes, ParamsBytes;
    match m
    case Startup(_, ps) => ParamsLengthRight(ps);
    case RowDescription(fs) => FieldsLengthRight(fs);
    case DataRow(vs) => ValuesLengthRight(vs);
    case _ =>
  }

  // ---- Round trips ----

  predicate PlainParams(ps: Params) {
    forall p | p in ps :: p.0 != [] && 0 !in p.0 && 0 !in p.1 && IsUtf8(p.0) && IsUtf8(p.1)
  }

  lemma ParamStep(key: bytes, value: bytes, rest: bytes)
    requires key != [] && 0 !in key && 0 !in value && IsUtf8(key) && IsUtf8(value)
    ensures ParseParams(key + [0] + (value + [0] + rest)) ==
            var more := ParseParams(rest); if more.Success? then Success([(key, value)] + more.value) else more
  {
    hide ReadCString, IsUtf8;
    CStringRoundTrip(key, value + [0] + rest);
    CStringRoundTrip(value, rest);
    assert key + [0] + (value + [0] + rest) != [];
  }

  lemma PlainSplit(ps: Params)
    requires PlainParams(ps) && ps != []
    ensures PlainParams(ps[1..])
    ensures var (key, value) := ps[0]; key != [] && 0 !in key && 0 !in value && IsUtf8(key) && IsUtf8(value)
  {
    hide IsUtf8;
    assert ps[0] in ps && forall p | p in ps[1..] :: p in ps;
  }

  lemma NoParams()
    ensures ParseParams(ParamsBytes([])) == Success([])
  {
    hide ReadCString, IsUtf8;
    CStringRoundTrip([], []);
    assert [] + [0] + [] == ParamsBytes([]);
    assert IsUtf8([]) by { AsciiIsUtf8([]); }
  }

  lemma {:induction false} ParamsRoundTrip(ps: Params)
    requires PlainParams(ps)
    ensures ParseParams(ParamsBytes(ps)) == Success(ps)
  {
    if ps == [] {
      NoParams();
    } else {
      var (key, value) := ps[0];
      var rest := ParamsBytes(ps[1..]);
      PlainSplit(ps);
      assert ParamsBytes(ps) == key + [0] + (value + [0] + rest);
      hide *;
      ParamsRoundTrip(ps[1..]);
      ParamStep(key, value, rest);
      assert ps == [(key, value)] + ps[1..];
    }
  }

  lemma FieldRoundTrip(f: Field, tail: bytes)
    requires 0 !in f.name
    ensures ParseField(FieldBytes(f) + tail) == Success((f, tail))
  {
    hide ReadCString, BE, PutI16, PutI32, U16At, U32At, I16At, I32At;
    var s := BE(f.tableOid, 4) + BE(f.columnIndex, 2) + BE(f.typeOid, 4) + PutI16(f.typeLen)
             + PutI32(f.typeModifier) + PutI16(f.formatCode) + tail;
    assert FieldBytes(f) + tail == f.name + [0] + s;
    CStringRoundTrip(f.name, s);
    assert s[0..4] == BE(f.tableOid, 4) && s[4..6] == BE(f.columnIndex, 2) && s[6..10] == BE(f.typeOid, 4);
    assert s[10..12] == PutI16(f.typeLen) && s[12..16] == PutI32(f.typeModifier) && s[16..18] == PutI16(f.formatCode);
    assert s[18..] == tail;
    WordsRoundTrip(s, 0);
    WordsRoundTrip(s, 4);
    WordsRoundTrip(s, 6);
    WordsRoundTrip(s, 10);
    WordsRoundTrip(s, 12);
    WordsRoundTrip(s, 16);
  }

  lemma {:induction false} FieldsRoundTrip(fs: seq<Field>)
    requires forall f | f in fs :: 0 !in f.name
    ensures ParseFields(FieldsBytes(fs), |fs|) == Success(fs)
  {
    hide ParseField, FieldBytes;
    if fs != [] {
      var f, rest := fs[0], fs[1..];
      assert f in fs && forall g | g in rest :: g in fs;
      FieldsRoundTrip(rest);
      FieldRoundTrip(f, FieldsBytes(rest));
      assert FieldsBytes(fs) == FieldBytes(f) + FieldsBytes(rest);
      hide FieldsBytes;
      assert fs == [f] + rest;
    }
  }

  lemma ValueRoundTrip(v: Option<bytes>, tail: bytes)
    requires v.Some? ==> |v.value| < 0x8000_0000
    ensures ParseValue(ValueBytes(v) + tail) == Success((v, tail))
  {
    hide PutI32, I32At;
    var s := ValueBytes(v) + tail;
    WordsRoundTrip(s, 0);
    if v.Some? {
      var b := v.value;
      assert s[0..4] == PutI32(|b|) && s[4..4 + |b|] == b && s[4 + |b|..] == tail;
    } else {
      assert s[0..4] == PutI32(-1) && s[4..] == tail;
    }
  }

  lemma {:induction false} ValuesRoundTrip(vs: Values)
    requires ValuesFit(vs)
    ensures ParseValues(ValuesBytes(vs), |vs|) == Success(vs)
  {
    hide ParseValue, ValueBytes;
    if vs != [] {
      assert vs[0] in vs && forall v | v in vs[1..] :: v in vs;
      ValuesRoundTrip(vs[1..]);
      ValueRoundTrip(vs[0], ValuesBytes(vs[1..]));
      assert vs == [vs[0]] + vs[1..];
    }
  }

  lemma {:induction false} TypeAt(ts: seq<u32>, i: nat)
    requires i < |ts|
    ensures TypesBytes(ts)[4 * i..4 * i + 4] == BE(ts[i], 4)
  {
    hide BE;
    var s := TypesBytes(ts);
    if i > 0 {
      TypeAt(ts[1..], i - 1);
      assert s[4 * i..4 * i + 4] == TypesBytes(ts[1..])[4 * (i - 1)..4 * (i - 1) + 4];
    }
  }

  lemma TypesRoundTrip(ts: seq<u32>)
    ensures ParseTypes(TypesBytes(ts), |ts|) == ts
  {
    hide BE, U32At, TypesBytes;
    var s := TypesBytes(ts);
    forall i: nat | i < |ts| ensures ParseTypes(s, |ts|)[i] == ts[i] {
      TypeAt(ts, i);
      WordsRoundTrip(s, 4 * i);
    }
  }

  lemma BodyRoundTrip(m: Message)
    requires InBounds(m) && !m.Startup? && !m.SSLRequest?
    ensures ParseBody(TypeByte(m), Body(m)) == Success(m)
  {
    hide ReadCString, BE, U16At, FieldsBytes, ValuesBytes, TypesBytes, ParseFields, ParseValues, ParseTypes, ValuesFit;
    var body := Body(m);
    match m
    case Regular(_, _) =>
    case RowDescription(fs) =>
      WordsRoundTrip(body, 0);
      assert body[0..2] == BE(|fs|, 2) && body[2..] == FieldsBytes(fs);
      FieldsRoundTrip(fs);
    case DataRow(vs) =>
      WordsRoundTrip(body, 0);
      assert body[0..2] == BE(|vs|, 2) && body[2..] == ValuesBytes(vs);
      ValuesRoundTrip(vs);
    case Query(q) =>
      CStringRoundTrip(q, []);
      assert body == q + [0] + [];
    case Parse(s, q, ts) =>
      ParseRoundTrip(s, q, ts);
  }

  lemma ParseRoundTrip(s: bytes, q: bytes, ts: seq<u32>)
    requires InBounds(Parse(s, q, ts))
    ensures ParseBody(P, Body(Parse(s, q, ts))) == Success(Parse(s, q, ts))
  {
    hide ReadCString, BE, U16At, TypesBytes, ParseTypes;
    var s2 := BE(|ts|, 2) + TypesBytes(ts);
    CStringRoundTrip(s, q + [0] + s2);
    CStringRoundTrip(q, s2);
    assert Body(Parse(s, q, ts)) == s + [0] + (q + [0] + s2);
    WordsRoundTrip(s2, 0);
    assert s2[0..2] == BE(|ts|, 2) && s2[2..] == TypesBytes(ts);
    TypesRoundTrip(ts);
  }

  /** Messages that may be sent in a state; the lengths are those the decoder allows. */
  predicate Sendable(isStartup: bool, m: Message) {
    && InBounds(m)
    && match m
       case Startup(version, ps) =>
         isStartup && version != SSL_REQUEST && PlainParams(ps) && DeclaredLength(m) <= MAX_STARTUP_LEN
       case SSLRequest => isStartup
       case _ => !isStartup && DeclaredLength(m) <= MAX_FRAME_LEN
  }

  function NextState(isStartup: bool, m: Message): bool {
    isStartup && !m.Startup?
  }

  lemma MessageRoundTrip(isStartup: bool, m: Message, tail: bytes)
    requires Sendable(isStartup, m)
    ensures Decode(isStartup, Encode(m) + tail) == Done(NextState(isStartup, m), tail, Success(m))
  {
    if m.Startup? || m.SSLRequest? {
      StartupRoundTrip(m, tail);
    } else {
      RegularRoundTrip(m, tail);
    }
  }

  lemma StartupRoundTrip(m: Message, tail: bytes)
    requires Sendable(true, m) && (m.Startup? || m.SSLRequest?)
    ensures Decode(true, Encode(m) + tail) == Done(NextState(true, m), tail, Success(m))
  {
    hide BE, U32At, ParamsBytes, ParseParams, StepRegular, ParamsLength;
    var src := Encode(m) + tail;
    var n := DeclaredLength(m);
    DeclaredLengthRight(m);
    WordsRoundTrip(src, 0);
    WordsRoundTrip(src, 4);
    match m
    case Startup(version, ps) =>
      assert src[0..4] == BE(n, 4) && src[4..8] == BE(version, 4) && src[8..n] == ParamsBytes(ps) && src[n..] == tail;
      ParamsRoundTrip(ps);
    case SSLRequest =>
      assert src[0..4] == BE(8, 4) && src[4..8] == BE(SSL_REQUEST, 4) && src[8..] == tail;
  }

  lemma RegularShape(m: Message)
    requires Sendable(false, m) && !m.Startup? && !m.SSLRequest?
    ensures |Body(m)| + 4 <= MAX_FRAME_LEN && Encode(m) == [TypeByte(m)] + BE(|Body(m)| + 4, 4) + Body(m)
  {
    hide BE, Body, TypeByte;
    DeclaredLengthRight(m);
    assert |Encode(m)| == 5 + |Body(m)|;
  }

  lemma RegularRoundTrip(m: Message, tail: bytes)
    requires Sendable(false, m) && !m.Startup? && !m.SSLRequest?
    ensures Decode(false, Encode(m) + tail) == Done(false, tail, Success(m))
  {
    hide Sendable, Encode, Body, TypeByte, ParseBody, Decode, BE, DeclaredLength, InBounds;
    assert InBounds(m) by {
      SendableIsInBounds(false, m);
    }
    RegularShape(m);
    BodyRoundTrip(m);
    FrameDecodes(TypeByte(m), Body(m), tail);
  }

  lemma SendableIsInBounds(isStartup: bool, m: Message)
    requires Sendable(isStartup, m)
    ensures InBounds(m)
  {
    hide InBounds;
  }

  lemma U32Written(s: bytes, i: nat, n: u32)
    requires i + 4 <= |s| && s[i..i + 4] == BE(n, 4)
    ensures U32At(s, i) == n
  {
    Pow256Values();
    BERoundTrip(n, 4);
  }

  lemma FrameDecodes(t: byte, body: bytes, tail: bytes)
    requires |body| + 4 <= MAX_FRAME_LEN
    ensures Decode(false, [t] + BE(|body| + 4, 4) + body + tail) == Done(false, tail, ParseBody(t, body))
  {
    hide BE, U32At, ParseBody, Decode;
    var n := |body| + 4;
    var src := [t] + BE(n, 4) + body + tail;
    FrameSlices(t, BE(n, 4), body, tail);
    U32Written(src, 1, n);
    FrameAt(src, t, n, body, tail);
  }

  lemma FrameSlices(t: byte, w: bytes, body: bytes, tail: bytes)
    requires |w| == 4
    ensures var src := [t] + w + body + tail;
            src[0] == t && src[1..5] == w && src[5..5 + |body|] == body && src[5 + |body|..] == tail
  {
  }

  lemma FrameAt(src: bytes, t: byte, n: nat, body: bytes, tail: bytes)
    requires 4 <= n <= MAX_FRAME_LEN && |src| >= 1 + n
    requires src[0] == t && U32At(src, 1) == n && src[5..1 + n] == body && src[1 + n..] == tail
    ensures Decode(false, src) == Done(false, tail, ParseBody(t, body))
  {
    hide U32At, ParseBody, StepStartup;
  }

  // ---- Streams ----

  predicate SendableAll(isStartup: bool, ms: seq<Message>)
    decreases |ms|
  {
    ms == [] || (Sendable(isStartup, ms[0]) && SendableAll(NextState(isStartup, ms[0]), ms[1..]))
  }

  function EncodeAll(isStartup: bool, ms: seq<Message>): bytes
    requires SendableAll(isStartup, ms)
    decreases |ms|
  {
    if ms == [] then [] else Encode(ms[0]) + EncodeAll(NextState(isStartup, ms[0]), ms[1..])
  }

  function StateAfter(isStartup: bool, ms: seq<Message>): bool
    decreases |ms|
  {
    if ms == [] then isStartup else StateAfter(NextState(isStartup, ms[0]), ms[1..])
  }

  /** A run followed by more bytes. */
  function Continue(r: Run, more: bytes): Run {
    if r.error.Some? then r.(rest := r.rest + more)
    else
      var next := DecodeAll(r.isStartup, r.rest + more);
      next.(messages := r.messages + next.messages)
  }

  function Feed(r: Run, pieces: seq<bytes>): Run
    decreases |pieces|
  {
    if pieces == [] then r else Feed(Continue(r, pieces[0]), pieces[1..])
  }

  function Concat(pieces: seq<bytes>): bytes {
    if pieces == [] then [] else pieces[0] + Concat(pieces[1..])
  }

  lemma DecodeExtends(isStartup: bool, a: bytes, b: bytes)
    requires Decode(isStartup, a).Done?
    ensures var s := Decode(isStartup, a); Decode(isStartup, a + b) == s.(rest := s.rest + b)
  {
    if isStartup {
      StartupExtends(a, b);
    } else {
      RegularExtends(a, b);
    }
  }

  lemma StartupExtends(a: bytes, b: bytes)
    requires Decode(true, a).Done?
    ensures var s := Decode(true, a); Decode(true, a + b) == s.(rest := s.rest + b)
  {
    hide FromBE, ParseParams, StepRegular;
    var c := a + b;
    assert c[0..4] == a[0..4];
    assert U32At(c, 0) == U32At(a, 0);
    var n := U32At(a, 0);
    if 8 <= n <= MAX_STARTUP_LEN {
      assert c[4..8] == a[4..8] && c[8..n] == a[8..n] && c[n..] == a[n..] + b;
      assert U32At(c, 4) == U32At(a, 4);
    }
    hide U32At;
  }

  lemma RegularExtends(a: bytes, b: bytes)
    requires Decode(false, a).Done?
    ensures var s := Decode(false, a); Decode(false, a + b) == s.(rest := s.rest + b)
  {
    hide FromBE, ParseBody, StepStartup;
    var c := a + b;
    assert c[1..5] == a[1..5];
    assert U32At(c, 1) == U32At(a, 1);
    var n := U32At(a, 1);
    hide U32At;
    if 4 <= n <= MAX_FRAME_LEN {
      assert c[5..1 + n] == a[5..1 + n] && c[1 + n..] == a[1 + n..] + b;
    }
  }

  lemma {:induction false} DecodeAllAppend(isStartup: bool, a: bytes, b: bytes)
    ensures DecodeAll(isStartup, a + b) == Continue(DecodeAll(isStartup, a), b)
    decreases |a|
  {
    hide Decode;
    var s := Decode(isStartup, a);
    if s.Done? {
      DecodeExtends(isStartup, a, b);
      if s.result.Success? {
        DecodeAllAppend(s.isStartup, s.rest, b);
        PrependMessage(s.result.value, DecodeAll(s.isStartup, s.rest), b);
        hide Continue;
      }
    }
  }

  lemma PrependMessage(m: Message, r: Run, b: bytes)
    ensures var next := Continue(r, b);
            Continue(r.(messages := [m] + r.messages), b) == next.(messages := [m] + next.messages)
  {
    hide DecodeAll;
    if r.error.None? {
      var next := DecodeAll(r.isStartup, r.rest + b);
      assert [m] + (r.messages + next.messages) == [m] + r.messages + next.messages;
    }
  }

  lemma ContinueAppend(r: Run, a: bytes, b: bytes)
    ensures Continue(Continue(r, a), b) == Continue(r, a + b)
  {
    hide DecodeAll;
    if r.error.Some? {
      assert r.rest + a + b == r.rest + (a + b);
    } else {
      DecodeAllAppend(r.isStartup, r.rest + a, b);
      assert r.rest + a + b == r.rest + (a + b);
      var mid := DecodeAll(r.isStartup, r.rest + a);
      if mid.error.None? {
        var next := DecodeAll(mid.isStartup, mid.rest + b);
        assert r.messages + mid.messages + next.messages == r.messages + (mid.messages + next.messages);
      }
    }
  }

  lemma {:induction false} FragmentationIndependent(r: Run, pieces: seq<bytes>)
    requires pieces != []
    ensures Feed(r, pieces) == Continue(r, Concat(pieces))
    decreases |pieces|
  {
    hide Continue;
    if |pieces| == 1 {
      assert pieces[0] + Concat(pieces[1..]) == pieces[0];
      assert pieces[1..] == [];
    } else {
      FragmentationIndependent(Continue(r, pieces[0]), pieces[1..]);
      ContinueAppend(r, pieces[0], Concat(pieces[1..]));
    }
  }

  lemma {:induction false} StreamRoundTrip(isStartup: bool, ms: seq<Message>)
    requires SendableAll(isStartup, ms)
    ensures DecodeAll(isStartup, EncodeAll(isStartup, ms)) == Run(StateAfter(isStartup, ms), [], ms, None)
    decreases |ms|
  {
    hide Decode, Encode, Sendable;
    if ms == [] {
      assert Decode(isStartup, []).NeedMore? by { NothingYet(isStartup); }
    } else {
      var rest := EncodeAll(NextState(isStartup, ms[0]), ms[1..]);
      MessageRoundTrip(isStartup, ms[0], rest);
      StreamRoundTrip(NextState(isStartup, ms[0]), ms[1..]);
      assert ms == [ms[0]] + ms[1..];
    }
  }

  lemma NothingYet(isStartup: bool)
    ensures Decode(isStartup, []).NeedMore?
  {
  }

  /** Streams are uniquely decodable: however the bytes of a list of messages
      arrive, that list comes out and nothing is left over. */
  lemma StreamDecodes(isStartup: bool, ms: seq<Message>, pieces: seq<bytes>)
    requires SendableAll(isStartup, ms) && pieces != [] && Concat(pieces) == EncodeAll(isStartup, ms)
    ensures Feed(Run(isStartup, [], [], None), pieces) == Run(StateAfter(isStartup, ms), [], ms, None)
  {
    hide DecodeAll, SendableAll;
    FragmentationIndependent(Run(isStartup, [], [], None), pieces);
    StreamRoundTrip(isStartup, ms);
    assert [] + Concat(pieces) == Concat(pieces);
    assert [] + ms == ms;
  }

  /** Each cell of each data row rewritten by its own position's function. */
  function RewriteAll(ms: seq<Message>, rewrite: Values -> Values): (r: seq<Message>)
    ensures |r| == |ms|
  {
    if ms == [] then []
    else [if ms[0].DataRow? then DataRow(rewrite(ms[0].values)) else ms[0]] + RewriteAll(ms[1..], rewrite)
  }

  lemma {:induction false} RewrittenSendable(isStartup: bool, ms: seq<Message>, rewrite: Values -> Values)
    requires SendableAll(isStartup, ms)
    requires forall m | m in ms && m.DataRow? :: Sendable(false, DataRow(rewrite(m.values)))
    ensures SendableAll(isStartup, RewriteAll(ms, rewrite))
    decreases |ms|
  {
    if ms != [] {
      assert ms[0] in ms && forall m | m in ms[1..] :: m in ms;
      RewrittenSendable(NextState(isStartup, ms[0]), ms[1..], rewrite);
      assert RewriteAll(ms, rewrite)[1..] == RewriteAll(ms[1..], rewrite);
    }
  }

  /** Rewriting cells cannot desynchronise the stream: as long as the rewritten
      rows still fit a frame, exactly the rewritten list comes out. */
  lemma RewrittenStreamDecodes(isStartup: bool, ms: seq<Message>, rewrite: Values -> Values)
    requires SendableAll(isStartup, ms)
    requires forall m | m in ms && m.DataRow? :: Sendable(false, DataRow(rewrite(m.values)))
    ensures var out := RewriteAll(ms, rewrite);
            && SendableAll(isStartup, out)
            && forall pieces :: pieces != [] && Concat(pieces) == EncodeAll(isStartup, out) ==>
                 Feed(Run(isStartup, [], [], None), pieces) == Run(StateAfter(isStartup, out), [], out, None)
  {
    hide SendableAll, Sendable, Feed, EncodeAll, Concat, StateAfter;
    RewrittenSendable(isStartup, ms, rewrite);
    var out := RewriteAll(ms, rewrite);
    forall pieces | pieces != [] && Concat(pieces) == EncodeAll(isStartup, out)
      ensures Feed(Run(isStartup, [], [], None), pieces) == Run(StateAfter(isStartup, out), [], out, None)
    {
      StreamDecodes(isStartup, out, pieces);
    }
  }

  // ---- The codec object ----

  method ReadFields(buf: BytesMut, n: nat) returns (r: Result<seq<Field>>)
    modifies buf
    ensures r == ParseFields(old(buf.data), n)
  {
    hide ParseField;
    var fields: seq<Field> := [];
    ghost var all := ParseFields(buf.data, n);
    assert forall fs: seq<Field> :: fields + fs == fs;
    for i := 0 to n
      invariant match ParseFields(buf.data, n - i)
                case Success(fs) => all == Success(fields + fs)
                case Failure(e) => all == Failure(e)
    {
      var f := ParseField(buf.data);
      if f.Failure? {
        return Failure(f.error);
      }
      ghost var before := fields;
      fields := fields + [f.value.0];
      buf.data := f.value.1;
      assert forall fs: seq<Field> :: before + ([f.value.0] + fs) == fields + fs;
    }
    assert fields + [] == fields;
    r := Success(fields);
  }

  method ReadValues(buf: BytesMut, n: nat) returns (r: Result<Values>)
    modifies buf
    ensures r == ParseValues(old(buf.data), n)
  {
    hide ParseValue;
    var values: Values := [];
    ghost var all := ParseValues(buf.data, n);
    assert forall vs: Values :: values + vs == vs;
    for i := 0 to n
      invariant match ParseValues(buf.data, n - i)
                case Success(vs) => all == Success(values + vs)
                case Failure(e) => all == Failure(e)
    {
      var v := ParseValue(buf.data);
      if v.Failure? {
        return Failure(v.error);
      }
      ghost var before := values;
      values := values + [v.value.0];
      buf.data := v.value.1;
      assert forall vs: Values :: before + ([v.value.0] + vs) == values + vs;
    }
    assert values + [] == values;
    r := Success(values);
  }

  method ReadParams(buf: BytesMut) returns (r: Result<Params>)
    modifies buf
    ensures r == ParseParams(old(buf.data))
  {
    hide ReadCString, IsUtf8;
    var params: Params := [];
    ghost var all := ParseParams(buf.data);
    assert forall ps: Params :: params + ps == ps;
    while buf.data != []
      invariant match ParseParams(buf.data)
                case Success(ps) => all == Success(params + ps)
                case Failure(e) => all == Failure(e)
      decreases |buf.data|
    {
      assert params + [] == params;
      var key := ReadCString(buf.data);
      if key.Failure? {
        return Failure(key.error);
      }
      if !IsUtf8(key.value.0) {
        return Failure("invalid utf-8");
      }
      if key.value.0 == [] {
        return Success(params);
      }
      var value := ReadCString(key.value.1);
      if value.Failure? {
        return Failure(value.error);
      }
      if !IsUtf8(value.value.0) {
        return Failure("invalid utf-8");
      }
      ghost var before := params;
      var pair := (key.value.0, value.value.0);
      params := params + [pair];
      buf.data := value.value.1;
      assert forall ps: Params :: before + ([pair] + ps) == params + ps;
    }
    assert params + [] == params;
    r := Success(params);
  }

  class PostgresCodec {
    var isStartup: bool

    constructor (startup: bool)
      ensures isStartup == startup
    {
      isStartup := startup;
    }

    method DecodeMessage(src: BytesMut) returns (r: Result<Option<Message>>)
      modifies this, src
      ensures match Decode(old(isStartup), old(src.data))
              case NeedMore => r == Success(None) && isStartup == old(isStartup) && src.data == old(src.data)
              case Done(st, rest, Success(m)) => r == Success(Some(m)) && isStartup == st && src.data == rest
              case Done(st, rest, Failure(e)) => r == Failure(e) && isStartup == st && src.data == rest
    {
      hide FromBE, ParseBody, ParseParams;
      if |src.data| < 4 {
        return Success(None);
      }
      if isStartup {
        var length := U32At(src.data, 0);
        if !(8 <= length <= MAX_STARTUP_LEN) {
          return Failure("invalid startup packet length");
        }
        if |src.data| < length {
          return Success(None);
        }
        var version := U32At(src.data, 4);
        var data := new BytesMut();
        data.data := src.data[8..length];
        src.data := src.data[length..];
        if version == SSL_REQUEST {
          return Success(Some(SSLRequest));
        }
        var params := ReadParams(data);
        if params.Failure? {
          return Failure(params.error);
        }
        isStartup := false;
        return Success(Some(Startup(version, params.value)));
      }
      if |src.data| < 5 {
        return Success(None);
      }
      var length := U32At(src.data, 1);
      if !(4 <= length <= MAX_FRAME_LEN) {
        return Failure("invalid message length");
      }
      if |src.data| < 1 + length {
        return Success(None);
      }
      var messageType := src.data[0];
      var body := src.data[5..1 + length];
      src.data := src.data[1 + length..];
      var m := ReadBody(messageType, body);
      r := if m.Success? then Success(Some(m.value)) else Failure(m.error);
    }

    method EncodeMessage(m: Message, dst: BytesMut)
      requires InBounds(m)
      modifies dst
      ensures dst.data == old(dst.data) + Encode(m)
    {
      hide BE, ParamsBytes, Body, DeclaredLength, TypeByte, InBounds;
      ghost var before := dst.data;
      match m
      case Startup(version, ps) =>
        dst.data := dst.data + BE(DeclaredLength(m), 4);
        dst.data := dst.data + BE(version, 4);
        dst.data := dst.data + ParamsBytes(ps);
        assert dst.data == before + (BE(DeclaredLength(m), 4) + BE(version, 4) + ParamsBytes(ps));
      case SSLRequest =>
        dst.data := dst.data + BE(8, 4);
        dst.data := dst.data + BE(SSL_REQUEST, 4);
        assert dst.data == before + (BE(8, 4) + BE(SSL_REQUEST, 4));
      case _ =>
        dst.data := dst.data + [TypeByte(m)];
        dst.data := dst.data + BE(DeclaredLength(m), 4);
        dst.data := dst.data + Body(m);
        assert dst.data == before + ([TypeByte(m)] + BE(DeclaredLength(m), 4) + Body(m));
    }
  }

  method ReadBody(messageType: byte, body: bytes) returns (m: Result<Message>)
    ensures m == ParseBody(messageType, body)
  {
    hide FromBE, ParseFields, ParseValues;
    if messageType in {T, D} && |body| >= 2 {
      var buf := new BytesMut();
      buf.data := body[2..];
      if messageType == T {
        var fields := ReadFields(buf, U16At(body, 0));
        return if fields.Success? then Success(RowDescription(fields.value)) else Failure(fields.error);
      }
      var values := ReadValues(buf, U16At(body, 0));
      return if values.Success? then Success(DataRow(values.value)) else Failure(values.error);
    }
    m := ParseBody(messageType, body);
  }
}
