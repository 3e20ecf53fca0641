/** Byte strings, machine words as byte strings, and the mutable buffer. */
module Bytes {
  import opened Wrappers

  type byte = b: int | 0 <= b < 256
  type bytes = seq<byte>
  type u16 = n: int | 0 <= n < 0x1_0000
  type u32 = n: int | 0 <= n < 0x1_0000_0000

  /** Strings fit a 64-bit `usize`. */
  const U64_LIMIT: nat := 0x1_0000_0000_0000_0000

  /** The growable buffer that decoders consume and encoders append to. */
  class BytesMut {
    var data: bytes

    constructor ()
      ensures data == []
    {
      data := [];
    }
  }

  function NextSeq(s: byte): byte {
    (s + 1) % 256
  }

  function Pow256(k: nat): (p: nat)
    ensures p > 0
  {
    if k == 0 then 1 else 256 * Pow256(k - 1)
  }

  lemma Pow256Values()
    ensures Pow256(1) == 0x100 && Pow256(2) == 0x1_0000 && Pow256(3) == 0x100_0000
    ensures Pow256(4) == 0x1_0000_0000 && Pow256(8) == U64_LIMIT
  {
    assert Pow256(1) == 256 * Pow256(0);
    assert Pow256(2) == 256 * Pow256(1);
    assert Pow256(3) == 256 * Pow256(2);
    assert Pow256(4) == 256 * Pow256(3);
    assert Pow256(5) == 256 * Pow256(4);
    assert Pow256(6) == 256 * Pow256(5);
    assert Pow256(7) == 256 * Pow256(6);
    assert Pow256(8) == 256 * Pow256(7);
  }

  /** The `k` low bytes of `v`, least significant first; higher bytes are cut off. */
  function LE(v: nat, k: nat): (s: bytes)
    ensures |s| == k
  {
    if k == 0 then [] else [v % 256] + LE(v / 256, k - 1)
  }

  function FromLE(s: bytes): nat {
    if s == [] then 0 else s[0] + 256 * FromLE(s[1..])
  }

  /** The `k` low bytes of `v`, most significant first. */
  function BE(v: nat, k: nat): (s: bytes)
    ensures |s| == k
  {
    if k == 0 then [] else BE(v / 256, k - 1) + [v % 256]
  }

  function FromBE(s: bytes): nat {
    if s == [] then 0 else 256 * FromBE(s[..|s| - 1]) + s[|s| - 1]
  }

  lemma {:induction false} LERoundTrip(v: nat, k: nat)
    requires v < Pow256(k)
    ensures FromLE(LE(v, k)) == v
  {
    if k > 0 {
      LERoundTrip(v / 256, k - 1);
      assert LE(v, k)[1..] == LE(v / 256, k - 1);
    }
  }

  lemma {:induction false} BERoundTrip(v: nat, k: nat)
    requires v < Pow256(k)
    ensures FromBE(BE(v, k)) == v
  {
    if k > 0 {
      BERoundTrip(v / 256, k - 1);
      assert BE(v, k)[..k - 1] == BE(v / 256, k - 1);
    }
  }

  lemma {:induction false} FromLEBound(s: bytes)
    ensures FromLE(s) < Pow256(|s|)
    ensures LE(FromLE(s), |s|) == s
  {
    if s != [] {
      FromLEBound(s[1..]);
      assert FromLE(s) / 256 == FromLE(s[1..]) && FromLE(s) % 256 == s[0];
      assert s == [s[0]] + s[1..];
    }
  }

  lemma {:induction false} FromBEBound(s: bytes)
    ensures FromBE(s) < Pow256(|s|)
  {
    if s != [] {
      FromBEBound(s[..|s| - 1]);
    }
  }

  /** Index of the first NUL, or the length when there is none. */
  function FirstNul(s: bytes): (i: nat)
    ensures i <= |s|
    ensures 0 !in s[..i]
    ensures i < |s| ==> s[i] == 0
  {
    if s == [] || s[0] == 0 then 0 else
      var i := 1 + FirstNul(s[1..]);
      assert s[..i] == [s[0]] + s[1..][..i - 1];
      i
  }

  lemma {:induction false} FirstNulAfter(s: bytes, tail: bytes)
    requires 0 !in s
    ensures FirstNul(s + [0] + tail) == |s|
  {
    if s != [] {
      assert (s + [0] + tail)[1..] == s[1..] + [0] + tail;
      FirstNulAfter(s[1..], tail);
    } else {
      assert (s + [0] + tail)[0] == 0;
    }
  }

  lemma {:induction false} NoNul(s: bytes)
    requires 0 !in s
    ensures FirstNul(s) == |s|
  {
    if s != [] {
      NoNul(s[1..]);
    }
  }

  // ---- UTF-8 (section 3.9 of the Unicode Standard, Table 3-7) ----

  predicate Continuation(b: byte) {
    0x80 <= b <= 0xBF
  }

  /** Length of the well-formed UTF-8 sequence that `s` starts with; 0 when there is none. */
  function Utf8Lead(s: bytes): (n: nat)
    ensures n <= |s|
  {
    if s == [] then 0
    else if s[0] <= 0x7F then 1
    else if |s| < 2 then 0
    else if 0xC2 <= s[0] <= 0xDF then (if Continuation(s[1]) then 2 else 0)
    else if |s| < 3 then 0
    else if 0xE0 <= s[0] <= 0xEF then
      (if Continuation(s[1]) && Continuation(s[2]) && (s[0] == 0xE0 ==> 0xA0 <= s[1]) && (s[0] == 0xED ==> s[1] <= 0x9F)
       then 3 else 0)
    else if |s| < 4 then 0
    else if 0xF0 <= s[0] <= 0xF4 then
      (if Continuation(s[1]) && Continuation(s[2]) && Continuation(s[3]) &&
          (s[0] == 0xF0 ==> 0x90 <= s[1]) && (s[0] == 0xF4 ==> s[1] <= 0x8F)
       then 4 else 0)
    else 0
  }

  predicate IsUtf8(s: bytes)
    decreases |s|
  {
    s == [] || (Utf8Lead(s) > 0 && IsUtf8(s[Utf8Lead(s)..]))
  }

  predicate IsAscii(s: bytes) {
    forall b | b in s :: b < 128
  }

  lemma {:induction false} AsciiIsUtf8(s: bytes)
    requires IsAscii(s)
    ensures IsUtf8(s)
  {
    if s != [] {
      assert s[0] in s && Utf8Lead(s) == 1;
      assert forall b | b in s[1..] :: b in s;
      AsciiIsUtf8(s[1..]);
    }
  }

  /** Read a NUL-terminated string: its bytes (when there is a NUL and they are
      UTF-8) and what is left. A string that is not UTF-8 has been taken out of
      the buffer but its terminator has not; a missing terminator takes nothing. */
  function ReadNulString(s: bytes): (r: (Result<bytes>, bytes))
    ensures r.0.Success? ==> s == r.0.value + [0] + r.1 && 0 !in r.0.value && IsUtf8(r.0.value)
  {
    var i := FirstNul(s);
    if i == |s| then (Failure("missing null terminator"), s)
    else if !IsUtf8(s[..i]) then (Failure("invalid utf-8"), s[i..])
    else (Success(s[..i]), s[i + 1..])
  }

  lemma ReadNulStringRoundTrip(s: bytes, tail: bytes)
    requires 0 !in s && IsUtf8(s)
    ensures ReadNulString(s + [0] + tail) == (Success(s), tail)
  {
    FirstNulAfter(s, tail);
    var t := s + [0] + tail;
    assert t[..|s|] == s && t[|s| + 1..] == tail;
  }
}
