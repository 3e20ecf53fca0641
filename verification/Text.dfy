/** Text operations on strings of Unicode scalar values. */
module Text {

  /** Code points with the Unicode property White_Space. */
  predicate IsWhitespace(c: char) {
    var n := c as int;
    || 0x09 <= n <= 0x0D || n == 0x20 || n == 0x85 || n == 0xA0 || n == 0x1680
    || 0x2000 <= n <= 0x200A || n == 0x2028 || n == 0x2029 || n == 0x202F || n == 0x205F || n == 0x3000
  }

  function TrimStart(s: string): string {
    if s != "" && IsWhitespace(s[0]) then TrimStart(s[1..]) else s
  }

  function TrimEnd(s: string): string {
    if s != "" && IsWhitespace(s[|s| - 1]) then TrimEnd(s[..|s| - 1]) else s
  }

  function Trim(s: string): string {
    TrimEnd(TrimStart(s))
  }

  function LowerChar(c: char): char {
    if 'A' <= c <= 'Z' then (c as int + 32) as char else c
  }

  function ToAsciiLower(s: string): (r: string)
    ensures |r| == |s|
  {
    seq(|s|, i requires 0 <= i < |s| => LowerChar(s[i]))
  }

  /** How identifiers are compared: without surrounding blanks and ASCII case. */
  function Normalize(s: string): string {
    ToAsciiLower(Trim(s))
  }

  predicate Trimmed(s: string) {
    s == "" || (!IsWhitespace(s[0]) && !IsWhitespace(s[|s| - 1]))
  }

  lemma {:induction false} TrimStartDone(s: string)
    ensures var t := TrimStart(s); t == "" || !IsWhitespace(t[0])
  {
    if s != "" && IsWhitespace(s[0]) {
      TrimStartDone(s[1..]);
    }
  }

  lemma {:induction false} TrimEndDone(s: string)
    ensures var t := TrimEnd(s); t <= s && (t == "" || !IsWhitespace(t[|t| - 1]))
  {
    if s != "" && IsWhitespace(s[|s| - 1]) {
      TrimEndDone(s[..|s| - 1]);
    }
  }

  /** The code points with the Unicode property White_Space, one by one. */
  lemma WhitespaceIs(c: char)
    ensures IsWhitespace(c) <==>
            c as int in {9, 10, 11, 12, 13, 32, 133, 160, 5760, 8192, 8193, 8194, 8195, 8196, 8197, 8198, 8199, 8200, 8201, 8202,
                         8232, 8233, 8239, 8287, 12288}
  {
  }

  predicate AllBlank(s: string) {
    forall i | 0 <= i < |s| :: IsWhitespace(s[i])
  }

  lemma {:induction false} TrimStartTakes(a: string, s: string)
    requires AllBlank(a) && (s == "" || !IsWhitespace(s[0]))
    ensures TrimStart(a + s) == s
    decreases |a|
  {
    hide IsWhitespace;
    if a == "" {
      assert a + s == s;
    } else {
      assert (a + s)[1..] == a[1..] + s && IsWhitespace((a + s)[0]);
      TrimStartTakes(a[1..], s);
    }
  }

  lemma {:induction false} TrimEndTakes(s: string, b: string)
    requires AllBlank(b) && (s == "" || !IsWhitespace(s[|s| - 1]))
    ensures TrimEnd(s + b) == s
    decreases |b|
  {
    hide IsWhitespace;
    if b == "" {
      assert s + b == s;
    } else {
      var n := |b| - 1;
      assert (s + b)[..|s + b| - 1] == s + b[..n] && IsWhitespace((s + b)[|s + b| - 1]);
      TrimEndTakes(s, b[..n]);
    }
  }

  /** Blanks around a text are taken off, and nothing else. */
  lemma TrimTakes(a: string, s: string, b: string)
    requires AllBlank(a) && Trimmed(s) && AllBlank(b)
    ensures Trim(a + s + b) == s
  {
    hide IsWhitespace, TrimStart, TrimEnd;
    assert a + s + b == a + (s + b);
    if s == "" {
      var all := a + (s + b);
      assert all + "" == all && "" + all == all;
      TrimStartTakes(all, "");
      TrimEndTakes("", "");
      assert "" + "" == "";
    } else {
      TrimStartTakes(a, s + b);
      TrimEndTakes(s, b);
    }
  }

  /** What a name is normalised to: what is left without the blanks around it, with
      the letters A to Z, and no others, in lower case. */
  lemma NormalizeIs(a: string, s: string, b: string)
    requires AllBlank(a) && Trimmed(s) && AllBlank(b)
    ensures var n := Normalize(a + s + b);
            |n| == |s| && forall i | 0 <= i < |s| ::
              n[i] as int == if 65 <= s[i] as int <= 90 then s[i] as int + 32 else s[i] as int
  {
    hide IsWhitespace, Trim;
    TrimTakes(a, s, b);
  }

  /** Every text is such a name with blanks around it. */
  lemma {:induction false} Parts(s: string) returns (a: string, core: string, b: string)
    ensures s == a + core + b && AllBlank(a) && Trimmed(core) && AllBlank(b)
    decreases |s|
  {
    hide IsWhitespace;
    if Trimmed(s) {
      a, core, b := "", s, "";
    } else if IsWhitespace(s[0]) {
      a, core, b := Parts(s[1..]);
      assert s == [s[0]] + (a + core + b) == [s[0]] + a + core + b;
      a := [s[0]] + a;
    } else {
      var n := |s| - 1;
      a, core, b := Parts(s[..n]);
      assert s == (a + core + b) + [s[n]] == a + core + (b + [s[n]]);
      b := b + [s[n]];
    }
  }

  lemma NormalizeIdempotent(s: string)
    ensures Normalize(Normalize(s)) == Normalize(s)
  {
    var t := Trim(s);
    TrimStartDone(s);
    TrimEndDone(TrimStart(s));
    var n := ToAsciiLower(t);
    assert Trimmed(t) && Trimmed(n);
    assert Trim(n) == n;
    assert ToAsciiLower(n) == n;
  }

  lemma Associative<T>(a: seq<T>, b: seq<T>, c: seq<T>)
    ensures a + b + c == a + (b + c)
  {
  }
}
