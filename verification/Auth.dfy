/** MySQL authentication primitives: scrambles, nonces and their two transports,
    and the replies to a full-authentication request. */
module Auth {
  import opened Wrappers
  import opened Bytes
  import Bits

  /** The digests, known only by their output lengths. */
  datatype Hashes = Hashes(sha1: bytes -> bytes, sha256: bytes -> bytes) {
    ghost predicate Valid() {
      forall s :: |sha1(s)| == 20 && |sha256(s)| == 32
    }
  }

  const NONCE_LEN: nat := 20

  function CharByte(c: char): (b: byte)
    requires 0 < c as int < 128
    ensures 0 < b < 128
  {
    c as int
  }

  function Ascii(s: string): (b: bytes)
    requires forall c | c in s :: 0 < c as int < 128
    ensures |b| == |s| && 0 !in b && IsUtf8(b)
  {
    var b := seq(|s|, i requires 0 <= i < |s| => assert s[i] in s; CharByte(s[i]));
    assert forall x | x in b :: 0 < x < 128;
    AsciiIsUtf8(b);
    b
  }

  datatype AuthPlugin = CachingSha2Password | MysqlNativePassword

  function NameOf(p: AuthPlugin): (b: bytes)
    ensures 0 !in b && IsUtf8(b) && |b| == 21
  {
    match p
    case CachingSha2Password => Ascii("caching_sha2_password")
    case MysqlNativePassword => Ascii("mysql_native_password")
  }

  function FromName(name: bytes): (p: Option<AuthPlugin>)
    ensures p.Some? ==> NameOf(p.value) == name
  {
    if name == NameOf(CachingSha2Password) then Some(CachingSha2Password)
    else if name == NameOf(MysqlNativePassword) then Some(MysqlNativePassword)
    else None
  }

  function ScrambleLen(p: AuthPlugin): nat {
    if p.CachingSha2Password? then 32 else 20
  }

  function XorByte(a: byte, b: byte): byte {
    Bits.Pow2Values();
    Bits.Bitwise(Bits.Xor, a, b, 8)
  }

  function Xor(a: bytes, b: bytes): (r: bytes)
    ensures |r| == if |a| < |b| then |a| else |b|
  {
    seq(if |a| < |b| then |a| else |b|, i requires 0 <= i < |a| && i < |b| => XorByte(a[i], b[i]))
  }

  /** Byte by byte and bit by bit, in step, as far as both strings go. */
  lemma XorBits(a: bytes, b: bytes, i: nat, k: nat)
    requires i < |a| && i < |b| && k < 8
    ensures Bits.Bit(Xor(a, b)[i], k) <==> Bits.Bit(a[i], k) != Bits.Bit(b[i], k)
  {
    Bits.BitwiseBit(Bits.Xor, a[i], b[i], 8, k);
  }

  lemma XorTwice(a: bytes, b: bytes)
    requires |a| == |b|
    ensures Xor(Xor(a, b), b) == a
  {
    Bits.Pow2Values();
    forall i | 0 <= i < |a| ensures Xor(Xor(a, b), b)[i] == a[i] {
      Bits.XorInvolution(a[i], b[i], 8);
    }
  }

  /** Compare without stopping at the first difference. */
  method ConstantTimeEq(a: bytes, b: bytes) returns (same: bool)
    ensures same <==> a == b
  {
    if |a| != |b| {
      return false;
    }
    Bits.Pow2Values();
    hide Bits.Bitwise;
    var diff: byte := 0;
    for i := 0 to |a|
      invariant diff == 0 <==> a[..i] == b[..i]
    {
      Bits.BitwiseRightZero(Bits.Xor, a[i], b[i], 8);
      Bits.BitwiseRightZero(Bits.Or, diff, XorByte(a[i], b[i]), 8);
      diff := Bits.Bitwise(Bits.Or, diff, XorByte(a[i], b[i]), 8);
      assert a[..i + 1] == a[..i] + [a[i]] && b[..i + 1] == b[..i] + [b[i]];
    }
    assert a[..|a|] == a && b[..|a|] == b;
    same := diff == 0;
  }

  // ---- Scrambles ----

  function Digest(h: Hashes, p: AuthPlugin, s: bytes): bytes {
    if p.CachingSha2Password? then h.sha256(s) else h.sha1(s)
  }

  /** What a client sends; nothing for an empty password. */
  function Scramble(h: Hashes, p: AuthPlugin, password: bytes, nonce: bytes): bytes {
    if password == [] then []
    else
      match p
      case CachingSha2Password =>
        var stage1 := h.sha256(password);
        var stage2 := h.sha256(stage1);
        Xor(stage1, h.sha256(stage2 + nonce))
      case MysqlNativePassword =>
        var stage1 := h.sha1(password);
        var stage2 := h.sha1(stage1);
        Xor(stage1, h.sha1(nonce + stage2))
  }

  /** What a server accepts: the response unmasked must hash to the stored digest. */
  predicate Verify(h: Hashes, p: AuthPlugin, password: bytes, nonce: bytes, response: bytes) {
    if password == [] then response == []
    else
      && |response| == ScrambleLen(p)
      && match p
         case CachingSha2Password =>
           var stage2 := h.sha256(h.sha256(password));
           h.sha256(Xor(response, h.sha256(stage2 + nonce))) == stage2
         case MysqlNativePassword =>
           var stage2 := h.sha1(h.sha1(password));
           h.sha1(Xor(response, h.sha1(nonce + stage2))) == stage2
  }

  /** The mask between a scramble and the first-stage digest. */
  function Token(h: Hashes, p: AuthPlugin, password: bytes, nonce: bytes): bytes {
    var stage2 := Digest(h, p, Digest(h, p, password));
    Digest(h, p, if p.CachingSha2Password? then stage2 + nonce else nonce + stage2)
  }

  method VerifyScramble(h: Hashes, p: AuthPlugin, password: bytes, nonce: bytes, response: bytes) returns (ok: bool)
    ensures ok == Verify(h, p, password, nonce, response)
  {
    if password == [] {
      return response == [];
    }
    if |response| != ScrambleLen(p) {
      return false;
    }
    match p
    case CachingSha2Password =>
      var stage2 := h.sha256(h.sha256(password));
      var token := h.sha256(stage2 + nonce);
      var stage1 := Xor(response, token);
      ok := ConstantTimeEq(h.sha256(stage1), stage2);
    case MysqlNativePassword =>
      var stage2 := h.sha1(h.sha1(password));
      var token := h.sha1(nonce + stage2);
      var stage1 := Xor(response, token);
      ok := ConstantTimeEq(h.sha1(stage1), stage2);
  }

  /** The scramble differs from the digest of the password in exactly the bits of
      the protocol's token: SHA256(SHA256(SHA256(password)) + nonce) for one plugin
      and SHA1(nonce + SHA1(SHA1(password))) for the other. */
  lemma ScrambleBits(h: Hashes, password: bytes, nonce: bytes, i: nat, k: nat)
    requires h.Valid() && password != [] && k < 8
    ensures var s := Scramble(h, CachingSha2Password, password, nonce);
            && |s| == 32
            && (i < 32 ==> (Bits.Bit(s[i], k) != Bits.Bit(h.sha256(password)[i], k) <==>
                            Bits.Bit(h.sha256(h.sha256(h.sha256(password)) + nonce)[i], k)))
    ensures var s := Scramble(h, MysqlNativePassword, password, nonce);
            && |s| == 20
            && (i < 20 ==> (Bits.Bit(s[i], k) != Bits.Bit(h.sha1(password)[i], k) <==>
                            Bits.Bit(h.sha1(nonce + h.sha1(h.sha1(password)))[i], k)))
  {
    hide Bits.Bit;
    if i < 32 {
      XorBits(h.sha256(password), h.sha256(h.sha256(h.sha256(password)) + nonce), i, k);
    }
    if i < 20 {
      XorBits(h.sha1(password), h.sha1(nonce + h.sha1(h.sha1(password))), i, k);
    }
    hide Xor;
  }

  /** The right scramble is accepted, under both plugins and for any nonce. */
  lemma ScrambleVerifies(h: Hashes, p: AuthPlugin, password: bytes, nonce: bytes)
    requires h.Valid()
    ensures Verify(h, p, password, nonce, Scramble(h, p, password, nonce))
  {
    hide Xor;
    XorTwice(Digest(h, p, password), Token(h, p, password, nonce));
  }

  /** Any other accepted response gives away a second preimage of the stored digest. */
  lemma OnlyScrambleVerifies(h: Hashes, p: AuthPlugin, password: bytes, nonce: bytes, response: bytes)
    requires h.Valid()
    requires Verify(h, p, password, nonce, response) && response != Scramble(h, p, password, nonce)
    ensures var other := Xor(response, Token(h, p, password, nonce));
            var stage1 := Digest(h, p, password);
            other != stage1 && |other| == |stage1| && Digest(h, p, other) == Digest(h, p, stage1)
  {
    hide Xor;
    XorTwice(response, Token(h, p, password, nonce));
  }

  /** No other string of digest length has the stored second-stage digest. */
  ghost predicate NoSecondPreimage(h: Hashes, p: AuthPlugin, password: bytes) {
    var stage1 := Digest(h, p, password);
    forall x | |x| == |stage1| && Digest(h, p, x) == Digest(h, p, stage1) :: x == stage1
  }

  /** With a password whose stored digest has no second preimage, exactly the
      right scramble is accepted, whatever its length. */
  lemma VerifiesExactly(h: Hashes, p: AuthPlugin, password: bytes, nonce: bytes, response: bytes)
    requires h.Valid() && NoSecondPreimage(h, p, password)
    ensures Verify(h, p, password, nonce, response) <==> response == Scramble(h, p, password, nonce)
  {
    hide Digest, Xor, Token;
    ScrambleVerifies(h, p, password, nonce);
    if Verify(h, p, password, nonce, response) && response != Scramble(h, p, password, nonce) {
      OnlyScrambleVerifies(h, p, password, nonce, response);
    }
  }

  // ---- Nonces ----

  function TrimNuls(s: bytes): (t: bytes)
    ensures |t| <= |s|
  {
    if s != [] && s[|s| - 1] == 0 then TrimNuls(s[..|s| - 1]) else s
  }

  function NonceOf(s: bytes): bytes {
    var t := TrimNuls(s);
    if |t| > NONCE_LEN then t[..NONCE_LEN] else t
  }

  function NonceFromHandshake(part1: bytes, part2: bytes): bytes {
    NonceOf(part1 + part2)
  }

  method TrimNonce(s: bytes) returns (nonce: bytes)
    ensures nonce == NonceOf(s)
  {
    nonce := s;
    while nonce != [] && nonce[|nonce| - 1] == 0
      invariant TrimNuls(nonce) == TrimNuls(s)
    {
      nonce := nonce[..|nonce| - 1];
    }
    if |nonce| > NONCE_LEN {
      nonce := nonce[..NONCE_LEN];
    }
  }

  function BuildAuthSwitchRequest(p: AuthPlugin, nonce: bytes): bytes {
    [0xfe] + NameOf(p) + [0] + nonce + [0]
  }

  /** The plugin name is compared as bytes: a lossily decoded name equals a
      plugin name only when the bytes do. */
  function ParseAuthSwitchRequest(payload: bytes): Result<(bytes, bytes)> {
    if payload == [] || payload[0] != 0xfe then Failure("not an AuthSwitchRequest packet")
    else
      var rest := payload[1..];
      var nul := FirstNul(rest);
      if nul == |rest| then Failure("AuthSwitchRequest has no plugin name terminator")
      else Success((rest[..nul], NonceOf(rest[nul + 1..])))
  }

  /** A nonce as the proxy generates it: 20 bytes, none of them zero. */
  predicate GoodNonce(nonce: bytes) {
    |nonce| == NONCE_LEN && 0 !in nonce
  }

  lemma GoodNonceKept(nonce: bytes)
    requires GoodNonce(nonce)
    ensures NonceOf(nonce) == nonce && NonceOf(nonce + [0]) == nonce
  {
    assert nonce[19] in nonce;
    var s := nonce + [0];
    assert s[..|s| - 1] == nonce;
    assert TrimNuls(s) == TrimNuls(nonce);
  }

  /** The auth-switch transport: the client reads back plugin and nonce. */
  lemma AuthSwitchRoundTrip(p: AuthPlugin, nonce: bytes)
    requires GoodNonce(nonce)
    ensures ParseAuthSwitchRequest(BuildAuthSwitchRequest(p, nonce)) == Success((NameOf(p), nonce))
  {
    hide NameOf, NonceOf;
    var rest := BuildAuthSwitchRequest(p, nonce)[1..];
    assert rest == NameOf(p) + [0] + (nonce + [0]);
    FirstNulAfter(NameOf(p), nonce + [0]);
    GoodNonceKept(nonce);
    assert rest[..21] == NameOf(p) && rest[22..] == nonce + [0];
  }

  // ---- Full authentication ----

  datatype AuthMoreData = FastAuthSuccess | FullAuthRequired | Other

  function ClassifyAuthMoreData(payload: bytes): Option<AuthMoreData> {
    if payload == [] || payload[0] != 1 then None
    else if |payload| < 2 then Some(Other)
    else if payload[1] == 3 then Some(FastAuthSuccess)
    else if payload[1] == 4 then Some(FullAuthRequired)
    else Some(Other)
  }

  function CleartextPassword(password: bytes): bytes {
    password + [0]
  }

  /** Each byte combined with the nonce, repeated as often as needed. */
  function XorNonce(plain: bytes, nonce: bytes): (r: bytes)
    requires nonce != []
    ensures |r| == |plain|
  {
    seq(|plain|, i requires 0 <= i < |plain| => XorByte(plain[i], nonce[i % |nonce|]))
  }

  lemma XorNonceBits(plain: bytes, nonce: bytes, i: nat, k: nat)
    requires nonce != [] && i < |plain| && k < 8
    ensures Bits.Bit(XorNonce(plain, nonce)[i], k) <==> Bits.Bit(plain[i], k) != Bits.Bit(nonce[i % |nonce|], k)
  {
    Bits.BitwiseBit(Bits.Xor, plain[i], nonce[i % |nonce|], 8, k);
  }

  method XorNonceInPlace(plain: array<byte>, nonce: bytes)
    requires nonce != []
    modifies plain
    ensures plain[..] == XorNonce(old(plain[..]), nonce)
  {
    hide XorByte;
    for i := 0 to plain.Length
      invariant forall k :: 0 <= k < i ==> plain[k] == XorByte(old(plain[k]), nonce[k % |nonce|])
      invariant forall k :: i <= k < plain.Length ==> plain[k] == old(plain[k])
    {
      plain[i] := XorByte(plain[i], nonce[i % |nonce|]);
    }
  }

  /** The RSA reply; `encrypt` is encryption under the pinned key, which fails
      for plaintexts that are too long. */
  function RsaEncryptedPassword(encrypt: bytes -> Option<bytes>, password: bytes, nonce: bytes): Option<bytes> {
    if nonce == [] then None else encrypt(XorNonce(CleartextPassword(password), nonce))
  }

  /** The server undoes the encryption and the nonce and has the password. */
  lemma RsaReplyOpens(
    encrypt: bytes -> Option<bytes>, decrypt: bytes -> bytes, password: bytes, nonce: bytes)
    requires forall s :: encrypt(s).Some? ==> decrypt(encrypt(s).value) == s
    requires RsaEncryptedPassword(encrypt, password, nonce).Some?
    ensures XorNonce(decrypt(RsaEncryptedPassword(encrypt, password, nonce).value), nonce) == password + [0]
  {
    var plain := CleartextPassword(password);
    Bits.Pow2Values();
    forall i | 0 <= i < |plain| ensures XorNonce(XorNonce(plain, nonce), nonce)[i] == plain[i] {
      Bits.XorInvolution(plain[i], nonce[i % |nonce|], 8);
    }
  }
}
