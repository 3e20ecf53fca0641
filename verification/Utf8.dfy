/** UTF-8 by its definition: the byte strings taken for text are exactly those that
    some sequence of Unicode scalar values is encoded as (section 3.9 of the Unicode
    Standard, Table 3-6). */
module Utf8 {
  import opened Bytes

  /** Code points without the surrogates. */
  predicate Scalar(c: nat) {
    c < 0xD800 || 0xE000 <= c < 0x11_0000
  }

  function Encoded(c: nat): (s: bytes)
    requires Scalar(c)
    ensures 1 <= |s| <= 4
  {
    if c < 0x80 then [c]
    else if c < 0x800 then [0xC0 + c / 0x40, 0x80 + c % 0x40]
    else if c < 0x1_0000 then [0xE0 + c / 0x1000, 0x80 + c / 0x40 % 0x40, 0x80 + c % 0x40]
    else [0xF0 + c / 0x4_0000, 0x80 + c / 0x1000 % 0x40, 0x80 + c / 0x40 % 0x40, 0x80 + c % 0x40]
  }

  function EncodedAll(cs: seq<nat>): bytes
    requires forall c | c in cs :: Scalar(c)
  {
    if cs == [] then [] else assert forall c | c in cs[1..] :: c in cs; assert cs[0] in cs; Encoded(cs[0]) + EncodedAll(cs[1..])
  }

  lemma ScalarIsLead(c: nat, tail: bytes)
    requires Scalar(c)
    ensures Utf8Lead(Encoded(c) + tail) == |Encoded(c)|
  {
    var s := Encoded(c) + tail;
    assert forall i | 0 <= i < |Encoded(c)| :: s[i] == Encoded(c)[i];
    hide Encoded;
    if c < 0x80 {
      OneByte(c);
    } else if c < 0x800 {
      TwoBytes(c);
    } else if c < 0x1_0000 {
      ThreeBytes(c);
    } else {
      FourBytes(c);
    }
  }

  lemma OneByte(c: nat)
    requires c < 0x80
    ensures Encoded(c) == [c]
  {
  }

  lemma TwoBytes(c: nat)
    requires 0x80 <= c < 0x800
    ensures var s := Encoded(c); |s| == 2 && 0xC2 <= s[0] <= 0xDF && Continuation(s[1])
  {
  }

  lemma ThreeBytes(c: nat)
    requires Scalar(c) && 0x800 <= c < 0x1_0000
    ensures var s := Encoded(c);
            && |s| == 3 && 0xE0 <= s[0] <= 0xEF && Continuation(s[1]) && Continuation(s[2])
            && (s[0] == 0xE0 ==> 0xA0 <= s[1]) && (s[0] == 0xED ==> s[1] <= 0x9F)
  {
    var d := c / 0x40;
    assert c / 0x1000 == d / 0x40;
  }

  lemma FourBytes(c: nat)
    requires Scalar(c) && 0x1_0000 <= c
    ensures var s := Encoded(c);
            && |s| == 4 && 0xF0 <= s[0] <= 0xF4 && Continuation(s[1]) && Continuation(s[2]) && Continuation(s[3])
            && (s[0] == 0xF0 ==> 0x90 <= s[1]) && (s[0] == 0xF4 ==> s[1] <= 0x8F)
  {
    var d := c / 0x1000;
    assert c / 0x4_0000 == d / 0x40;
  }

  /** The scalar value a well-formed sequence stands for. */
  function Decoded(s: bytes): (c: nat)
    requires Utf8Lead(s) > 0
    ensures Scalar(c)
  {
    var n := Utf8Lead(s);
    var a: int := s[0];
    if n == 1 then a
    else if n == 2 then 0x40 * (a - 0xC0) + Low(s, 1)
    else if n == 3 then 0x40 * (0x40 * (a - 0xE0) + Low(s, 1)) + Low(s, 2)
    else 0x40 * (0x40 * (0x40 * (a - 0xF0) + Low(s, 1)) + Low(s, 2)) + Low(s, 3)
  }

  /** The six bits a continuation byte carries. */
  function Low(s: bytes, i: nat): (b: nat)
    requires i < |s| && Continuation(s[i])
    ensures b < 0x40 && s[i] == 0x80 + b
  {
    s[i] as int - 0x80
  }

  lemma LeadIsScalar(s: bytes)
    requires Utf8Lead(s) > 0
    ensures Encoded(Decoded(s)) == s[..Utf8Lead(s)]
  {
    if Utf8Lead(s) == 3 {
      ThreeIsScalar(s);
      hide Decoded, Encoded;
    } else if Utf8Lead(s) == 4 {
      FourIsScalar(s);
      hide Decoded, Encoded;
    }
  }

  lemma ThreeIsScalar(s: bytes)
    requires Utf8Lead(s) == 3
    ensures Encoded(Decoded(s)) == s[..3]
  {
    var a: int := s[0];
    Digits3(a - 0xE0, Low(s, 1), Low(s, 2));
    hide Low;
  }

  lemma FourIsScalar(s: bytes)
    requires Utf8Lead(s) == 4
    ensures Encoded(Decoded(s)) == s[..4]
  {
    var a: int := s[0];
    Digits4(a - 0xF0, Low(s, 1), Low(s, 2), Low(s, 3));
    assert Decoded(s) >= 0x1_0000;
    hide Low;
  }

  lemma Digits3(p: nat, q: nat, r: nat)
    requires q < 0x40 && r < 0x40
    ensures var c := 0x40 * (0x40 * p + q) + r; c % 0x40 == r && c / 0x40 % 0x40 == q && c / 0x1000 == p
  {
    var d := 0x40 * p + q;
    assert d / 0x40 == p && d % 0x40 == q;
    assert (0x40 * d + r) / 0x40 == d;
  }

  lemma Digits4(o: nat, p: nat, q: nat, r: nat)
    requires p < 0x40 && q < 0x40 && r < 0x40
    ensures var c := 0x40 * (0x40 * (0x40 * o + p) + q) + r;
            c % 0x40 == r && c / 0x40 % 0x40 == q && c / 0x1000 % 0x40 == p && c / 0x4_0000 == o
  {
    var e := 0x40 * o + p;
    Digits3(e, q, r);
    assert e / 0x40 == o && e % 0x40 == p;
  }

  lemma {:induction false} EncodedIsUtf8(cs: seq<nat>)
    requires forall c | c in cs :: Scalar(c)
    ensures IsUtf8(EncodedAll(cs))
  {
    hide Scalar, Utf8Lead, Encoded;
    if cs != [] {
      assert cs[0] in cs && forall c | c in cs[1..] :: c in cs;
      var s, rest := Encoded(cs[0]), EncodedAll(cs[1..]);
      ScalarIsLead(cs[0], rest);
      EncodedIsUtf8(cs[1..]);
      assert (s + rest)[|s|..] == rest;
    }
  }

  lemma {:induction false} Utf8IsEncoded(s: bytes) returns (cs: seq<nat>)
    requires IsUtf8(s)
    ensures (forall c | c in cs :: Scalar(c)) && EncodedAll(cs) == s
    decreases |s|
  {
    hide Scalar, Utf8Lead, Decoded, Encoded;
    if s == [] {
      cs := [];
    } else {
      var n := Utf8Lead(s);
      var rest := Utf8IsEncoded(s[n..]);
      LeadIsScalar(s);
      cs := [Decoded(s)] + rest;
      assert cs[1..] == rest && s == s[..n] + s[n..];
    }
  }

  /** Text is what characters are encoded as, and nothing else. */
  lemma Utf8Exactly(s: bytes)
    ensures IsUtf8(s) <==> exists cs: seq<nat> :: (forall c | c in cs :: Scalar(c)) && EncodedAll(cs) == s
  {
    hide IsUtf8, Scalar, EncodedAll;
    if IsUtf8(s) {
      var cs := Utf8IsEncoded(s);
    }
    if cs: seq<nat> :| (forall c | c in cs :: Scalar(c)) && EncodedAll(cs) == s {
      EncodedIsUtf8(cs);
    }
  }
}
