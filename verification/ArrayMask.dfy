/** Masking inside a PostgreSQL array literal: split at the commas outside
    quotes, replace the elements that look sensitive, join again. */
module ArrayMask {
  import opened Wrappers
  import opened Text

  /** Inside quotes, and just after a backslash. */
  datatype Scan = Scan(inQuotes: bool, escaped: bool)

  const OUTSIDE := Scan(false, false)

  predicate Separates(st: Scan, c: char) {
    !st.escaped && c == ',' && !st.inQuotes
  }

  function Next(st: Scan, c: char): Scan {
    if st.escaped then st.(escaped := false)
    else if c == '\\' then st.(escaped := true)
    else if c == '"' then st.(inQuotes := !st.inQuotes)
    else st
  }

  /** The elements, the first of which continues `current`. */
  function SplitFrom(s: string, st: Scan, current: string): (es: seq<string>)
    ensures es != []
    decreases |s|
  {
    if s == "" then [current]
    else if Separates(st, s[0]) then [current] + SplitFrom(s[1..], OUTSIDE, "")
    else SplitFrom(s[1..], Next(st, s[0]), current + [s[0]])
  }

  function Split(s: string): seq<string> {
    SplitFrom(s, OUTSIDE, "")
  }

  function Join(es: seq<string>): string {
    if es == [] then ""
    else if |es| == 1 then es[0]
    else es[0] + "," + Join(es[1..])
  }

  /** Splitting loses nothing. */
  lemma {:induction false} JoinSplit(s: string, st: Scan, current: string)
    ensures Join(SplitFrom(s, st, current)) == current + s
    decreases |s|
  {
    if s == "" {
    } else if Separates(st, s[0]) {
      JoinSplit(s[1..], OUTSIDE, "");
      var es := SplitFrom(s[1..], OUTSIDE, "");
      assert ([current] + es)[1..] == es;
      assert s == "," + s[1..];
    } else {
      JoinSplit(s[1..], Next(st, s[0]), current + [s[0]]);
    }
  }

  /** The state after scanning `s`, and whether that is without a separator. */
  function After(st: Scan, s: string): Scan
    decreases |s|
  {
    if s == "" then st else After(Next(st, s[0]), s[1..])
  }

  predicate Unbroken(st: Scan, s: string)
    decreases |s|
  {
    s == "" || (!Separates(st, s[0]) && Unbroken(Next(st, s[0]), s[1..]))
  }

  /** An element that can stand before a separator. */
  predicate Closed(e: string) {
    Unbroken(OUTSIDE, e) && After(OUTSIDE, e) == OUTSIDE
  }

  lemma {:induction false} SplitUnbroken(e: string, st: Scan, current: string)
    requires Unbroken(st, e)
    ensures SplitFrom(e, st, current) == [current + e]
  {
    if e == "" {
      assert current + e == current;
    } else {
      SplitUnbroken(e[1..], Next(st, e[0]), current + [e[0]]);
      assert current + [e[0]] + e[1..] == current + e;
    }
  }

  lemma {:induction false} SplitAtComma(e: string, st: Scan, current: string, rest: string)
    requires Unbroken(st, e) && After(st, e) == OUTSIDE
    ensures SplitFrom(e + "," + rest, st, current) == [current + e] + Split(rest)
    decreases |e|
  {
    var s := e + "," + rest;
    if e == "" {
      assert s[0] == ',' && s[1..] == rest && current + e == current;
    } else {
      SplitAtComma(e[1..], Next(st, e[0]), current + [e[0]], rest);
      assert s[1..] == e[1..] + "," + rest;
      assert current + [e[0]] + e[1..] == current + e;
    }
  }

  lemma SplitSingle(e: string)
    requires Unbroken(OUTSIDE, e)
    ensures Split(e) == [e]
  {
    SplitUnbroken(e, OUTSIDE, "");
    assert "" + e == e;
  }

  lemma SplitFirst(e: string, rest: string)
    requires Closed(e)
    ensures Split(e + "," + rest) == [e] + Split(rest)
  {
    SplitAtComma(e, OUTSIDE, "", rest);
    assert "" + e == e;
  }

  /** Every element but the last can stand before a separator, and none breaks. */
  predicate Splittable(es: seq<string>) {
    && es != []
    && Unbroken(OUTSIDE, es[|es| - 1])
    && forall i :: 0 <= i < |es| - 1 ==> Closed(es[i])
  }

  lemma {:induction false} SplitJoin(es: seq<string>)
    requires Splittable(es)
    ensures Split(Join(es)) == es
    decreases |es|
  {
    hide Split, SplitFrom, After, Unbroken;
    if |es| == 1 {
      SplitSingle(es[0]);
      assert es == [es[0]];
    } else {
      assert Closed(es[0]);
      SplitJoin(es[1..]);
      SplitFirst(es[0], Join(es[1..]));
    }
  }

  lemma {:induction false} AfterAppend(st: Scan, s: string, c: char)
    ensures After(st, s + [c]) == Next(After(st, s), c)
    ensures Unbroken(st, s + [c]) <==> Unbroken(st, s) && !Separates(After(st, s), c)
    decreases |s|
  {
    if s == "" {
      assert (s + [c])[1..] == "";
    } else {
      AfterAppend(Next(st, s[0]), s[1..], c);
      assert (s + [c])[1..] == s[1..] + [c];
    }
  }

  lemma {:induction false} SplitIsSplittable(s: string, st: Scan, current: string)
    requires Unbroken(OUTSIDE, current) && st == After(OUTSIDE, current)
    ensures Splittable(SplitFrom(s, st, current))
    decreases |s|
  {
    if s == "" {
    } else if Separates(st, s[0]) {
      SplitIsSplittable(s[1..], OUTSIDE, "");
    } else {
      AfterAppend(OUTSIDE, current, s[0]);
      SplitIsSplittable(s[1..], Next(st, s[0]), current + [s[0]]);
    }
  }

  // ---- Masking ----

  predicate QuoteFree(s: string) {
    forall c | c in s :: c != '"' && c != '\\'
  }

  /** What a scanner decides about a text: the fake that replaces it, if any. */
  type Masker = string -> Option<string>

  /** The non-overlapping occurrences of a two-character text, left to right. */
  function ReplacePair(s: string, a: char, b: char, into: char): string {
    if |s| < 2 then s
    else if s[0] == a && s[1] == b then [into] + ReplacePair(s[2..], a, b, into)
    else [s[0]] + ReplacePair(s[1..], a, b, into)
  }

  /** An element as the scanner sees it: without blanks, quotes and escapes. */
  function CleanValue(e: string): string {
    var t := Trim(e);
    var v := if |t| >= 2 && t[0] == '"' && t[|t| - 1] == '"' then t[1..|t| - 1] else t;
    ReplacePair(ReplacePair(v, '\\', '"', '"'), '\\', '\\', '\\')
  }

  function MaskElement(mask: Masker, e: string): string {
    match mask(CleanValue(e))
    case Some(fake) => "\"" + fake + "\""
    case None => e
  }

  function MaskElements(mask: Masker, es: seq<string>): (r: seq<string>)
    ensures |r| == |es|
  {
    seq(|es|, i requires 0 <= i < |es| => MaskElement(mask, es[i]))
  }

  predicate SomeMasked(mask: Masker, es: seq<string>) {
    exists e :: e in es && mask(CleanValue(e)).Some?
  }

  predicate IsArray(raw: string) {
    |raw| >= 2 && raw[0] == '{' && raw[|raw| - 1] == '}'
  }

  /** `None` when this is no array or nothing in it is sensitive. */
  function MaskArray(mask: Masker, raw: string): Option<string> {
    if !IsArray(raw) then None
    else
      var es := Split(raw[1..|raw| - 1]);
      if SomeMasked(mask, es) then Some("{" + Join(MaskElements(mask, es)) + "}") else None
  }

  lemma {:induction false} QuotedScan(fake: string, tail: string)
    requires QuoteFree(fake)
    ensures Unbroken(Scan(true, false), fake + tail) <==> Unbroken(Scan(true, false), tail)
    ensures After(Scan(true, false), fake + tail) == After(Scan(true, false), tail)
  {
    if fake == "" {
      assert fake + tail == tail;
    } else {
      assert fake[0] in fake && forall c | c in fake[1..] :: c in fake;
      QuotedScan(fake[1..], tail);
      assert (fake + tail)[1..] == fake[1..] + tail;
    }
  }

  lemma QuotedIsClosed(fake: string)
    requires QuoteFree(fake)
    ensures Closed("\"" + fake + "\"")
  {
    var q := "\"" + fake + "\"";
    assert q[1..] == fake + "\"";
    QuotedScan(fake, "\"");
    assert "\""[1..] == "";
  }

  lemma MaskedIsSplittable(mask: Masker, es: seq<string>)
    requires forall s :: mask(s).Some? ==> QuoteFree(mask(s).value)
    requires Splittable(es)
    ensures Splittable(MaskElements(mask, es))
  {
    hide CleanValue, Unbroken, After, QuoteFree;
    var masked := MaskElements(mask, es);
    forall i | 0 <= i < |masked| && mask(CleanValue(es[i])).Some? ensures Closed(masked[i]) {
      QuotedIsClosed(mask(CleanValue(es[i])).value);
    }
  }

  lemma SplitIsFrom(s: string)
    ensures Split(s) == SplitFrom(s, OUTSIDE, "")
  {
  }

  /** Masking keeps the structure: the masked literal splits into as many
      elements, each unmasked one unchanged in its place and each masked one a
      quoted fake, provided fakes contain no quote and no backslash. */
  lemma MaskArrayStructure(mask: Masker, raw: string)
    requires forall s :: mask(s).Some? ==> QuoteFree(mask(s).value)
    requires MaskArray(mask, raw).Some?
    ensures |raw| >= 2 && raw[0] == '{' && raw[|raw| - 1] == '}'
    ensures var out := MaskArray(mask, raw).value;
            var before := Split(raw[1..|raw| - 1]);
            && IsArray(out)
            && var after := Split(out[1..|out| - 1]);
            && |after| == |before|
            && forall i :: 0 <= i < |before| ==>
                 after[i] == if mask(CleanValue(before[i])).Some?
                             then "\"" + mask(CleanValue(before[i])).value + "\"" else before[i]
  {
    var out := MaskArray(mask, raw).value;
    var before := Split(raw[1..|raw| - 1]);
    var after := MaskElements(mask, before);
    hide CleanValue, Unbroken, After, Split, SplitFrom, Splittable, Join;
    SplitIsSplittable(raw[1..|raw| - 1], OUTSIDE, "");
    assert before == SplitFrom(raw[1..|raw| - 1], OUTSIDE, "") by { SplitIsFrom(raw[1..|raw| - 1]); }
    MaskedIsSplittable(mask, before);
    SplitJoin(after);
    assert out[1..|out| - 1] == Join(after);
  }

  method SplitElements(content: string) returns (elements: seq<string>)
    ensures elements == Split(content)
  {
    elements := [];
    var current := "";
    var inQuotes, escaped := false, false;
    for i := 0 to |content|
      invariant elements + SplitFrom(content[i..], Scan(inQuotes, escaped), current) == Split(content)
    {
      var c := content[i];
      assert content[i..][0] == c && content[i..][1..] == content[i + 1..];
      if escaped {
        current := current + [c];
        escaped := false;
      } else if c == '\\' {
        escaped := true;
        current := current + [c];
      } else if c == '"' {
        inQuotes := !inQuotes;
        current := current + [c];
      } else if c == ',' && !inQuotes {
        elements := elements + [current];
        current := "";
      } else {
        current := current + [c];
      }
    }
    elements := elements + [current];
  }

  method MaskPostgresArray(mask: Masker, raw: string) returns (r: Option<string>)
    ensures r == MaskArray(mask, raw)
  {
    hide CleanValue, Split, Join;
    if !IsArray(raw) {
      return None;
    }
    var elements := SplitElements(raw[1..|raw| - 1]);
    var changed := false;
    var newElements: seq<string> := [];
    for i := 0 to |elements|
      invariant |newElements| == i
      invariant forall k :: 0 <= k < i ==> newElements[k] == MaskElement(mask, elements[k])
      invariant changed <==> exists k :: 0 <= k < i && mask(CleanValue(elements[k])).Some?
    {
      match mask(CleanValue(elements[i]))
      case Some(fake) =>
        newElements := newElements + ["\"" + fake + "\""];
        changed := true;
      case None =>
        newElements := newElements + [elements[i]];
    }
    assert newElements == MaskElements(mask, elements);
    if changed {
      var k :| 0 <= k < |elements| && mask(CleanValue(elements[k])).Some?;
      assert elements[k] in elements;
      return Some("{" + Join(newElements) + "}");
    }
    r := None;
  }
}
