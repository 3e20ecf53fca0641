/** Array literals as a PostgreSQL server writes them, and what masking makes of
    them: it sees exactly the values and replaces exactly the sensitive ones. */
module ArrayLiterals {
  import opened Wrappers
  import opened Text
  import opened ArrayMask

  const QUOTE: char := '"'
  const BACKSLASH: char := '\\'

  /** A value written as it is, or in quotes with its quotes and backslashes escaped. */
  datatype Element = Bare(value: string) | Quoted(value: string)

  function Escaped(s: string): string {
    if s == "" then ""
    else (if s[0] == QUOTE || s[0] == BACKSLASH then [BACKSLASH, s[0]] else [s[0]]) + Escaped(s[1..])
  }

  function Written(e: Element): string {
    match e
    case Bare(v) => v
    case Quoted(v) => "\"" + Escaped(v) + "\""
  }

  /** A value with blanks around it, a comma, a quote or a backslash must be quoted. */
  predicate Writable(e: Element) {
    e.Bare? ==> Trimmed(e.value) && Plain(e.value)
  }

  predicate Plain(s: string) {
    forall c | c in s :: c != ',' && c != QUOTE && c != BACKSLASH
  }

  function AllWritten(es: seq<Element>): (ts: seq<string>)
    ensures |ts| == |es| && forall i | 0 <= i < |es| :: ts[i] == Written(es[i])
  {
    seq(|es|, i requires 0 <= i < |es| => Written(es[i]))
  }

  // ---- A written element is one element ----

  const QUOTED := Scan(true, false)

  lemma {:induction false} EscapedScan(s: string)
    ensures Unbroken(QUOTED, Escaped(s) + "\"") && After(QUOTED, Escaped(s) + "\"") == OUTSIDE
  {
    var t := Escaped(s) + "\"";
    if s == "" {
      assert t == "\"" && t[1..] == "";
    } else {
      EscapedScan(s[1..]);
      var rest := Escaped(s[1..]) + "\"";
      if s[0] == QUOTE || s[0] == BACKSLASH {
        assert t[0] == BACKSLASH && t[1] == s[0] && t[1..][1..] == rest && t[1..][0] == s[0];
        assert Next(QUOTED, BACKSLASH) == Scan(true, true) && Next(Scan(true, true), s[0]) == QUOTED;
        assert !Separates(Scan(true, true), s[0]);
        hide Next, Separates;
        assert Unbroken(Scan(true, true), t[1..]);
      } else {
        assert t[0] == s[0] && t[1..] == rest;
      }
    }
  }

  lemma {:induction false} BareScan(s: string)
    requires Plain(s)
    ensures Unbroken(OUTSIDE, s) && After(OUTSIDE, s) == OUTSIDE
  {
    if s != "" {
      assert s[0] in s && forall c | c in s[1..] :: c in s;
      BareScan(s[1..]);
    }
  }

  lemma WrittenIsClosed(e: Element)
    requires Writable(e)
    ensures Closed(Written(e))
  {
    match e
    case Bare(v) => BareScan(v);
    case Quoted(v) =>
      EscapedScan(v);
      var w := Written(e);
      assert w[0] == QUOTE && w[1..] == Escaped(v) + "\"";
  }

  // ---- It is read as its value ----

  /** The value with only its backslashes escaped. */
  function Doubled(s: string): string {
    if s == "" then "" else (if s[0] == BACKSLASH then [BACKSLASH, BACKSLASH] else [s[0]]) + Doubled(s[1..])
  }

  lemma NoQuoteFirst(s: string)
    ensures Escaped(s) == "" || Escaped(s)[0] != QUOTE
  {
  }

  /** Undoing the escaped quotes leaves the backslashes doubled ... */
  lemma {:induction false} QuotesUndone(s: string)
    ensures ReplacePair(Escaped(s), BACKSLASH, QUOTE, QUOTE) == Doubled(s)
  {
    if s != "" {
      var rest := Escaped(s[1..]);
      var t := Escaped(s);
      QuotesUndone(s[1..]);
      NoQuoteFirst(s[1..]);
      if s[0] == QUOTE {
        assert t[0] == BACKSLASH && t[1] == QUOTE && t[2..] == rest;
      } else if s[0] == BACKSLASH {
        assert t[0] == BACKSLASH && t[1] == BACKSLASH && t[1..] == [BACKSLASH] + rest;
        assert ReplacePair(t[1..], BACKSLASH, QUOTE, QUOTE) == [BACKSLASH] + ReplacePair(rest, BACKSLASH, QUOTE, QUOTE) by {
          assert rest != "" ==> ([BACKSLASH] + rest)[1..] == rest;
        }
      } else {
        assert t[0] == s[0] && t[1..] == rest;
      }
    }
  }

  /** ... and undoing those leaves the value. */
  lemma {:induction false} BackslashesUndone(s: string)
    ensures ReplacePair(Doubled(s), BACKSLASH, BACKSLASH, BACKSLASH) == s
  {
    if s != "" {
      var rest := Doubled(s[1..]);
      var t := Doubled(s);
      BackslashesUndone(s[1..]);
      if s[0] == BACKSLASH {
        assert t[0] == BACKSLASH && t[1] == BACKSLASH && t[2..] == rest;
      } else {
        assert t[0] == s[0] && t[1..] == rest;
      }
    }
  }

  lemma {:induction false} NothingToUndo(s: string, b: char, into: char)
    requires BACKSLASH !in s
    ensures ReplacePair(s, BACKSLASH, b, into) == s
  {
    if |s| >= 2 {
      assert s[0] in s;
      NothingToUndo(s[1..], b, into);
    }
  }

  /** With any blanks around it, an element is read as its value. */
  lemma WrittenIsRead(a: string, e: Element, b: string)
    requires Writable(e) && AllBlank(a) && AllBlank(b)
    ensures CleanValue(a + Written(e) + b) == e.value
  {
    hide ReplacePair, Trim, IsWhitespace, Escaped;
    assert !IsWhitespace(QUOTE) by { QuoteIsNoBlank(); }
    TrimTakes(a, Written(e), b);
    match e
    case Bare(v) =>
      assert |v| >= 2 ==> v[0] in v;
      NothingToUndo(v, QUOTE, QUOTE);
      NothingToUndo(v, BACKSLASH, BACKSLASH);
    case Quoted(v) =>
      var w := Written(e);
      assert w[1..|w| - 1] == Escaped(v);
      QuotesUndone(v);
      BackslashesUndone(v);
  }

  lemma QuoteIsNoBlank()
    ensures !IsWhitespace(QUOTE)
  {
  }

  // ---- A whole literal ----

  /** The elements after masking: the sensitive ones are quoted fakes, the others as
      they were. */
  function Masked(mask: Masker, es: seq<Element>): (ts: seq<string>)
    ensures |ts| == |es|
  {
    seq(|es|, i requires 0 <= i < |es| =>
      if mask(es[i].value).Some? then "\"" + mask(es[i].value).value + "\"" else Written(es[i]))
  }

  predicate SomeSensitive(mask: Masker, es: seq<Element>) {
    exists i | 0 <= i < |es| :: mask(es[i].value).Some?
  }

  lemma LiteralSplits(es: seq<Element>)
    requires es != [] && forall e | e in es :: Writable(e)
    ensures Split(Join(AllWritten(es))) == AllWritten(es)
    ensures forall i | 0 <= i < |es| :: CleanValue(AllWritten(es)[i]) == es[i].value
  {
    hide Split, Join, CleanValue, Unbroken, After, Written, Writable;
    var ts := AllWritten(es);
    forall i | 0 <= i < |es| ensures Closed(ts[i]) && CleanValue(ts[i]) == es[i].value {
      assert es[i] in es;
      WrittenIsClosed(es[i]);
      WrittenIsRead("", es[i], "");
      assert "" + Written(es[i]) + "" == Written(es[i]);
    }
    SplitJoin(ts);
  }

  /** A literal with a sensitive value in it is written again with exactly the
      sensitive values replaced; one without is left alone. Values may hold commas,
      quotes, braces and backslashes. */
  lemma LiteralMasked(mask: Masker, es: seq<Element>)
    requires es != [] && forall e | e in es :: Writable(e)
    ensures MaskArray(mask, "{" + Join(AllWritten(es)) + "}")
            == if SomeSensitive(mask, es) then Some("{" + Join(Masked(mask, es)) + "}") else None
  {
    hide Split, Join, CleanValue, Writable, Written;
    LiteralSplits(es);
    var ts := AllWritten(es);
    var raw := "{" + Join(ts) + "}";
    assert raw[1..|raw| - 1] == Join(ts);
    assert MaskElements(mask, ts) == Masked(mask, es);
    assert SomeMasked(mask, ts) <==> SomeSensitive(mask, es) by {
      if SomeSensitive(mask, es) {
        var i :| 0 <= i < |es| && mask(es[i].value).Some?;
        assert ts[i] in ts;
      }
      if SomeMasked(mask, ts) {
        var t :| t in ts && mask(CleanValue(t)).Some?;
        var i :| 0 <= i < |ts| && ts[i] == t;
        assert mask(es[i].value).Some?;
      }
    }
  }
}
