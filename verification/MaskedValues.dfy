/** Masking of a cell told on the bytes that go out: what replaces a value, what of
    the value it can depend on, and when the bytes are the value itself. */
module MaskedValues {
  import opened Wrappers
  import opened Bytes
  import opened Text
  import opened Masking
  import opened Interceptor
  import opened ArrayLiterals
  import ArrayMask

  /** The value as a JSON document, if it is text and JSON. */
  function DocumentOf(env: Env, val: bytes): Option<Json> {
    if env.decode(val).Some? then env.parseJson(env.decode(val).value) else None
  }

  /** Some string in the document is masked. */
  predicate SomeMaskedIn(env: Env, j: Json)
    requires SpansInOrder(env)
  {
    exists i | 0 <= i < |Leaves(j)| :: MaskLeaf(env, Leaves(j)[i]).Some?
  }

  lemma {:induction false} SensitiveLeaf(env: Env, ls: seq<string>)
    requires SpansInOrder(env)
    ensures MaskLeaves(env, ls).1 <==> exists i | 0 <= i < |ls| :: MaskLeaf(env, ls[i]).Some?
  {
    hide MaskLeaf, SpansInOrder;
    if ls != [] {
      SensitiveLeaf(env, ls[1..]);
      assert MaskLeaf(env, ls[0]).Some? ==> exists i | 0 <= i < |ls| :: MaskLeaf(env, ls[i]).Some?;
      if i :| 0 <= i < |ls[1..]| && MaskLeaf(env, ls[1..][i]).Some? {
        assert ls[i + 1] == ls[1..][i];
      }
      if i :| 0 <= i < |ls| && MaskLeaf(env, ls[i]).Some? && i > 0 {
        assert ls[i] == ls[1..][i - 1];
      }
    }
  }

  lemma DocumentChanged(env: Env, j: Json)
    requires SpansInOrder(env)
    ensures MaskJson(env, j).1 <==> SomeMaskedIn(env, j)
  {
    hide MaskJson, Leaves, MaskLeaf, MaskLeaves, SpansInOrder;
    MaskJsonLeaves(env, j);
    SensitiveLeaf(env, Leaves(j));
  }

  // ---- Under an explicit rule ----

  /** The bytes that go out under an explicit rule. A value that is no JSON under a
      json rule is replaced whole by a constant. */
  lemma ExplicitRuleWrites(env: Env, strategy: string, val: bytes)
    requires SpansInOrder(env)
    ensures MaskValue(env, Some(strategy), Some(val)) == Some(
              if strategy == "hash" then env.encode(env.hash(val))
              else if strategy != "json" then env.encode(env.fake(strategy, env.seed(val)))
              else match DocumentOf(env, val)
                   case None => env.encode("MASKED")
                   case Some(j) => if SomeMaskedIn(env, j) then env.encode(env.printJson(MaskJson(env, j).0)) else val)
  {
    hide MaskJson, SomeMaskedIn, SpansInOrder;
    if DocumentOf(env, val).Some? {
      DocumentChanged(env, DocumentOf(env, val).value);
    }
  }

  /** Under a json rule nothing at all shows of a value that is no JSON: any two
      such values are replaced alike. */
  lemma NoJsonNothingShows(env: Env, v1: bytes, v2: bytes)
    requires SpansInOrder(env) && DocumentOf(env, v1).None? && DocumentOf(env, v2).None?
    ensures MaskCell(env, Some("json"), v1) == MaskCell(env, Some("json"), v2) != Kept
    ensures MaskValue(env, Some("json"), Some(v1)) == MaskValue(env, Some("json"), Some(v2))
  {
    hide SpansInOrder;
  }

  /** When the bytes that go out under an explicit rule are the value itself: under
      a json rule for JSON with no sensitive string or that prints as it was, and
      otherwise only for a value that happens to be its own replacement. */
  lemma LetThroughExactly(env: Env, strategy: string, val: bytes)
    requires SpansInOrder(env)
    ensures MaskValue(env, Some(strategy), Some(val)) == Some(val) <==>
            if strategy == "hash" then env.encode(env.hash(val)) == val
            else if strategy != "json" then env.encode(env.fake(strategy, env.seed(val))) == val
            else match DocumentOf(env, val)
                 case None => val == env.encode("MASKED")
                 case Some(j) => !SomeMaskedIn(env, j) || env.encode(env.printJson(MaskJson(env, j).0)) == val
  {
    hide MaskJson, SomeMaskedIn, MaskValue, SpansInOrder;
    ExplicitRuleWrites(env, strategy, val);
  }

  // ---- JSON documents ----

  /** Two strings that a masked document cannot tell apart: the same, or both of the
      same sensitive kind with the same keyed seed. */
  predicate Alike(env: Env, s: string, t: string) {
    s == t || (env.scan(s).Some? && env.scan(s) == env.scan(t) && env.seed(env.encode(s)) == env.seed(env.encode(t)))
  }

  lemma {:induction false} AlikeLeaves(env: Env, ls: seq<string>, ms: seq<string>)
    requires SpansInOrder(env) && |ls| == |ms| && forall i | 0 <= i < |ls| :: Alike(env, ls[i], ms[i])
    ensures MaskLeaves(env, ls).0 == MaskLeaves(env, ms).0
  {
    hide MaskSpans, SpansInOrder;
    if ls != [] {
      assert Alike(env, ls[0], ms[0]);
      AlikeLeaves(env, ls[1..], ms[1..]);
    }
  }

  lemma {:induction false} BlankCounts(j: Json)
    ensures |Leaves(Blank(j))| == |Leaves(j)|
    decreases j, 1
  {
    match j
    case Arr(items) => BlankItemsCount(items);
    case Obj(fields) => BlankFieldsCount(fields);
    case _ =>
  }

  lemma {:induction false} BlankItemsCount(items: seq<Json>)
    ensures |ItemLeaves(BlankItems(items))| == |ItemLeaves(items)|
    decreases items, 0
  {
    if items != [] {
      BlankCounts(items[0]);
      BlankItemsCount(items[1..]);
      assert BlankItems(items)[1..] == BlankItems(items[1..]);
    }
  }

  lemma {:induction false} BlankFieldsCount(fields: seq<Field>)
    ensures |FieldLeaves(BlankFields(fields))| == |FieldLeaves(fields)|
    decreases fields, 0
  {
    if fields != [] {
      BlankCounts(fields[0].value);
      BlankFieldsCount(fields[1..]);
      assert BlankFields(fields)[1..] == BlankFields(fields[1..]);
    }
  }

  /** A document is its shape and its strings. */
  lemma {:induction false} ShapeAndLeaves(j: Json, k: Json)
    requires Blank(j) == Blank(k) && Leaves(j) == Leaves(k)
    ensures j == k
    decreases j, 1
  {
    match j
    case Str(s) => assert Leaves(j)[0] == s && Leaves(k)[0] == k.s;
    case Arr(items) => ShapeAndItems(items, k.items);
    case Obj(fields) => ShapeAndFields(fields, k.fields);
    case _ =>
  }

  lemma {:induction false} ShapeAndItems(items: seq<Json>, others: seq<Json>)
    requires BlankItems(items) == BlankItems(others) && ItemLeaves(items) == ItemLeaves(others)
    ensures items == others
    decreases items, 0
  {
    if items != [] && others != [] {
      var a, b := items[0], others[0];
      assert Blank(a) == BlankItems(items)[0] == Blank(b);
      assert BlankItems(items)[1..] == BlankItems(items[1..]) && BlankItems(others)[1..] == BlankItems(others[1..]);
      BlankCounts(a);
      BlankCounts(b);
      SameHeads(Leaves(a), ItemLeaves(items[1..]), Leaves(b), ItemLeaves(others[1..]));
      ShapeAndLeaves(a, b);
      ShapeAndItems(items[1..], others[1..]);
    }
  }

  lemma {:induction false} ShapeAndFields(fields: seq<Field>, others: seq<Field>)
    requires BlankFields(fields) == BlankFields(others) && FieldLeaves(fields) == FieldLeaves(others)
    ensures fields == others
    decreases fields, 0
  {
    if fields != [] && others != [] {
      var a, b := fields[0].value, others[0].value;
      assert Field(fields[0].key, Blank(a)) == BlankFields(fields)[0] == Field(others[0].key, Blank(b));
      assert BlankFields(fields)[1..] == BlankFields(fields[1..]) && BlankFields(others)[1..] == BlankFields(others[1..]);
      BlankCounts(a);
      BlankCounts(b);
      SameHeads(Leaves(a), FieldLeaves(fields[1..]), Leaves(b), FieldLeaves(others[1..]));
      ShapeAndLeaves(a, b);
      ShapeAndFields(fields[1..], others[1..]);
    }
  }

  lemma SameHeads(a: seq<string>, c: seq<string>, b: seq<string>, d: seq<string>)
    requires a + c == b + d && |a| == |b|
    ensures a == b && c == d
  {
    assert a == (a + c)[..|a|] && b == (b + d)[..|b|];
    assert c == (a + c)[|a|..] && d == (b + d)[|b|..];
  }

  /** Of the sensitive strings in a document nothing shows but what their kinds and
      seeds say: two documents of the same shape whose strings are pairwise alike
      are masked into the same document. */
  lemma DocumentThroughSeedsOnly(env: Env, j: Json, k: Json)
    requires SpansInOrder(env) && Blank(j) == Blank(k) && |Leaves(j)| == |Leaves(k)|
    requires forall i | 0 <= i < |Leaves(j)| :: Alike(env, Leaves(j)[i], Leaves(k)[i])
    ensures MaskJson(env, j).0 == MaskJson(env, k).0
  {
    hide MaskJson, Leaves, Blank, MaskLeaves, Alike, SpansInOrder;
    MaskJsonLeaves(env, j);
    MaskJsonLeaves(env, k);
    AlikeLeaves(env, Leaves(j), Leaves(k));
    ShapeAndLeaves(MaskJson(env, j).0, MaskJson(env, k).0);
  }

  // ---- Without a rule ----

  /** Text that is neither JSON nor an array as far as the heuristics go. */
  predicate Unstructured(s: string) {
    !InBraces(Trim(s)) && !InBrackets(Trim(s))
  }

  predicate InBraces(t: string) {
    |t| > 0 && t[0] == '{' && t[|t| - 1] == '}'
  }

  predicate InBrackets(t: string) {
    |t| > 0 && t[0] == '[' && t[|t| - 1] == ']'
  }

  /** What goes out for a cell without a rule is decided in this order: nothing is
      masked without heuristics or text; JSON that looks like it is masked string by
      string; an array with a sensitive element element by element; sensitive text as
      a whole; other text where it has an address or a number in it. */
  lemma UnruledCellWrites(env: Env, val: bytes)
    requires SpansInOrder(env)
    ensures MaskValue(env, None, Some(val)) == Some(
              if !env.heuristicsEnabled || env.decode(val).None? then val
              else
                var s := env.decode(val).value;
                var elements := ArrayMask.MaskArray(ArrayMasker(env), s);
                if !Unstructured(s) && env.parseJson(s).Some? then
                  var j := env.parseJson(s).value;
                  if SomeMaskedIn(env, j) then env.encode(env.printJson(MaskJson(env, j).0)) else val
                else if InBraces(Trim(s)) && elements.Some? then env.encode(elements.value)
                else if env.scan(s).Some? then env.encode(env.fake(env.scan(s).value, env.seed(val)))
                else if MaskSpans(env, s).Some? then env.encode(MaskSpans(env, s).value)
                else val)
  {
    hide MaskJson, SomeMaskedIn, SpansInOrder, MaskSpans, ArrayMask.MaskArray, Trim;
    if env.decode(val).Some? && env.parseJson(env.decode(val).value).Some? {
      DocumentChanged(env, env.parseJson(env.decode(val).value).value);
    }
  }

  /** Of sensitive text nothing shows but its kind and its keyed seed. */
  lemma SensitiveTextThroughSeedOnly(env: Env, v1: bytes, v2: bytes)
    requires SpansInOrder(env) && env.heuristicsEnabled && env.decode(v1).Some? && env.decode(v2).Some?
    requires var s1, s2 := env.decode(v1).value, env.decode(v2).value;
             Unstructured(s1) && Unstructured(s2) && env.scan(s1).Some? && env.scan(s1) == env.scan(s2)
    requires env.seed(v1) == env.seed(v2)
    ensures MaskCell(env, None, v1) == MaskCell(env, None, v2) != Kept
  {
    hide SpansInOrder, MaskSpans, Trim;
  }

  /** The elements of an array: the sensitive ones replaced by quoted fakes for their
      kind and keyed seed. */
  function FakedElements(env: Env, es: seq<Element>): (ts: seq<string>)
    ensures |ts| == |es|
  {
    seq(|es|, i requires 0 <= i < |es| =>
      var v := es[i].value;
      if env.scan(v).Some? then "\"" + env.fake(env.scan(v).value, env.seed(env.encode(v))) + "\"" else Written(es[i]))
  }

  /** An array literal as a PostgreSQL server writes it, in a column without a rule:
      if some value in it is sensitive, exactly the sensitive ones are replaced. */
  lemma ArrayThroughSeedsOnly(env: Env, val: bytes, es: seq<Element>)
    requires SpansInOrder(env) && env.heuristicsEnabled && es != [] && forall e | e in es :: Writable(e)
    requires env.decode(val) == Some("{" + ArrayMask.Join(AllWritten(es)) + "}") && env.parseJson(env.decode(val).value).None?
    requires exists i | 0 <= i < |es| :: env.scan(es[i].value).Some?
    ensures MaskValue(env, None, Some(val)) == Some(env.encode("{" + ArrayMask.Join(FakedElements(env, es)) + "}"))
  {
    hide SpansInOrder, Trim, ArrayMask.MaskArray, ArrayMask.Join, Written, Writable;
    var s := env.decode(val).value;
    var mask := ArrayMasker(env);
    LiteralMasked(mask, es);
    var i :| 0 <= i < |es| && env.scan(es[i].value).Some?;
    assert mask(es[i].value).Some?;
    assert ArrayLiterals.Masked(mask, es) == FakedElements(env, es);
    BracesStay(s);
  }

  lemma BracesStay(s: string)
    requires |s| >= 2 && s[0] == '{' && s[|s| - 1] == '}'
    ensures Trim(s) == s
  {
    assert Trimmed(s) && "" + s + "" == s;
    hide Trim, Trimmed;
    TrimTakes("", s, "");
  }

  /** The keyed fakes for the stretches of a text. */
  function Fakes(env: Env, strategy: string, stretches: seq<string>): (fs: seq<string>)
    ensures |fs| == |stretches|
  {
    seq(|stretches|, i requires 0 <= i < |stretches| => env.fake(strategy, env.seed(env.encode(stretches[i]))))
  }

  lemma {:induction false} MapIsFakes(env: Env, strategy: string, stretches: seq<string>)
    ensures MapText(FakeFor(env, strategy), stretches) == Fakes(env, strategy, stretches)
  {
    if stretches != [] {
      MapIsFakes(env, strategy, stretches[1..]);
    }
  }

  /** In other text each address is replaced by its fake, and then each telephone
      number in what results; everything around them stays, character for character. */
  lemma SpansReplaced(env: Env, s: string)
    requires SpansInOrder(env)
    ensures var emails := env.emailSpans(s);
            var masked := Interleave(Gaps(s, emails, 0), Fakes(env, "email", SpanTexts(s, emails, 0)));
            var phones := env.phoneSpans(masked);
            var both := Interleave(Gaps(masked, phones, 0), Fakes(env, "phone", SpanTexts(masked, phones, 0)));
            && (MaskSpans(env, s).Some? <==> phones != [] || masked != s)
            && (MaskSpans(env, s).Some? ==> MaskSpans(env, s).value == both)
  {
    var emails := env.emailSpans(s);
    AssembleKeepsGaps(s, emails, 0, FakeFor(env, "email"));
    MapIsFakes(env, "email", SpanTexts(s, emails, 0));
    var masked := Assemble(s, emails, 0, FakeFor(env, "email"));
    var phones := env.phoneSpans(masked);
    AssembleKeepsGaps(masked, phones, 0, FakeFor(env, "phone"));
    MapIsFakes(env, "phone", SpanTexts(masked, phones, 0));
    hide Gaps, SpanTexts, Fakes, MapText;
    if phones == [] {
      assert masked[0..] == masked;
    }
  }
}
