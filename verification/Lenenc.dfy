/** Length-encoded integers and strings (section "Protocol::LengthEncodedInteger"
    of the MySQL Client/Server Protocol). */
module Lenenc {
  import opened Wrappers
  import opened Bytes

  function Read(buf: bytes): (r: Result<(nat, nat)>)
    ensures r.Success? ==> 1 <= r.value.1 <= |buf| && r.value.0 < U64_LIMIT
  {
    Pow256Values();
    if buf == [] then Failure("empty buffer for lenenc int")
    else if buf[0] <= 0xfa then Success((buf[0], 1))
    else if buf[0] == 0xfb then Success((0, 1)) // NULL in row data
    else if buf[0] == 0xfc then
      if |buf| < 3 then Failure("not enough bytes for 2-byte lenenc int")
      else FromLEBound(buf[1..3]); Success((FromLE(buf[1..3]), 3))
    else if buf[0] == 0xfd then
      if |buf| < 4 then Failure("not enough bytes for 3-byte lenenc int")
      else FromLEBound(buf[1..4]); Success((FromLE(buf[1..4]), 4))
    else if buf[0] == 0xfe then
      if |buf| < 9 then Failure("not enough bytes for 8-byte lenenc int")
      else FromLEBound(buf[1..9]); Success((FromLE(buf[1..9]), 9))
    else Failure("invalid lenenc int marker 0xff")
  }

  function Write(v: nat): (s: bytes)
    requires v < U64_LIMIT
    ensures |s| >= 1 && s[0] != 0xff && s[0] != 0xfb
    ensures s[0] == 0xfe <==> v >= 0x100_0000
    ensures s[0] == 0 <==> v == 0
  {
    if v < 251 then [v]
    else if v < 0x1_0000 then [0xfc] + LE(v, 2)
    else if v < 0x100_0000 then [0xfd] + LE(v, 3)
    else [0xfe] + LE(v, 8)
  }

  lemma ReadWrite(v: nat, tail: bytes)
    requires v < U64_LIMIT
    ensures Read(Write(v) + tail) == Success((v, |Write(v)|))
  {
    var buf := Write(v) + tail;
    Pow256Values();
    if 251 <= v {
      var k := if v < 0x1_0000 then 2 else if v < 0x100_0000 then 3 else 8;
      assert buf[1..1 + k] == LE(v, k);
      LERoundTrip(v, k);
    }
  }

  /** The encoding of `v` at the front of `buf` is the one `Write` chooses
      exactly when it is the shortest for that value. */
  predicate Minimal(buf: bytes)
    requires Read(buf).Success?
  {
    var v := Read(buf).value.0;
    buf[0] <= 0xfa
    || (buf[0] == 0xfc && v >= 251)
    || (buf[0] == 0xfd && v >= 0x1_0000)
    || (buf[0] == 0xfe && v >= 0x100_0000)
  }

  lemma WriteRead(buf: bytes)
    requires Read(buf).Success?
    ensures Minimal(buf) <==> Write(Read(buf).value.0) == buf[..Read(buf).value.1]
  {
    var (v, n) := Read(buf).value;
    FromLEBound(buf[1..n]);
    Pow256Values();
    assert buf[..n] == [buf[0]] + buf[1..n];
    if buf[0] != 0xfb && buf[0] > 0xfa {
      assert LE(v, n - 1) == buf[1..n];
    }
    if !Minimal(buf) {
      assert Write(v)[0] != buf[0] by {
        if buf[0] == 0xfc { assert v < 251; }
        else if buf[0] == 0xfd { assert v < 0x1_0000; }
        else if buf[0] == 0xfe { assert v < 0x100_0000; }
      }
    }
  }

  lemma WriteIsMinimal(v: nat, tail: bytes)
    requires v < U64_LIMIT
    ensures var buf := Write(v) + tail; Read(buf).Success? && Minimal(buf)
  {
    ReadWrite(v, tail);
    hide Read, LE;
  }

  function ReadString(buf: bytes): (r: Result<(bytes, bytes)>)
    ensures r.Success? ==> |r.value.1| + |r.value.0| < |buf| && |r.value.0| < U64_LIMIT
  {
    var (len, used) :- Read(buf);
    var rest := buf[used..];
    if |rest| < len then Failure("not enough bytes for lenenc string")
    else Success((rest[..len], rest[len..]))
  }

  function WriteString(s: bytes): bytes
    requires |s| < U64_LIMIT
  {
    Write(|s|) + s
  }
}
