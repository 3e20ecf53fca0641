/** Masking of one cell, shared by both protocols. */
module Masking {
  import opened Wrappers
  import opened Bytes
  import opened Text
  import ArrayMask

  datatype Json =
    | Null
    | Boolean(b: bool)
    | Number(text: string)
    | Str(s: string)
    | Arr(items: seq<Json>)
    | Obj(fields: seq<Field>)

  datatype Field = Field(key: string, value: Json)

  /** A stretch of text that a pattern matched. */
  datatype Span = Span(start: nat, end: nat)

  /** What masking takes from outside: text and JSON conversions, the pattern
      scanner, the keyed seed and hash, the generator of fakes and the settings. */
  datatype Env = Env(
    decode: bytes -> Option<string>, encode: string -> bytes,
    parseJson: string -> Option<Json>, printJson: Json -> string,
    scan: string -> Option<string>, emailSpans: string -> seq<Span>, phoneSpans: string -> seq<Span>,
    seed: bytes -> nat, hash: bytes -> string, fake: (string, nat) -> string,
    maskingEnabled: bool, heuristicsEnabled: bool)

  // ---- Spans in free text ----

  /** Matches come in order, without overlap, inside the text. */
  predicate Ordered(spans: seq<Span>, from: nat, length: nat) {
    if spans == [] then from <= length
    else from <= spans[0].start <= spans[0].end <= length && Ordered(spans[1..], spans[0].end, length)
  }

  /** The text from `from` on with each span replaced. */
  function Assemble(text: string, spans: seq<Span>, from: nat, replace: string -> string): string
    requires Ordered(spans, from, |text|)
  {
    if spans == [] then text[from..]
    else
      text[from..spans[0].start] + replace(text[spans[0].start..spans[0].end])
      + Assemble(text, spans[1..], spans[0].end, replace)
  }

  /** The pieces of text around the spans: one more than there are spans. */
  function Gaps(text: string, spans: seq<Span>, from: nat): (g: seq<string>)
    requires Ordered(spans, from, |text|)
    ensures |g| == |spans| + 1
  {
    if spans == [] then [text[from..]]
    else [text[from..spans[0].start]] + Gaps(text, spans[1..], spans[0].end)
  }

  function Interleave(gaps: seq<string>, inserts: seq<string>): string
    requires |gaps| == |inserts| + 1
  {
    if inserts == [] then gaps[0] else gaps[0] + inserts[0] + Interleave(gaps[1..], inserts[1..])
  }

  function SpanTexts(text: string, spans: seq<Span>, from: nat): (t: seq<string>)
    requires Ordered(spans, from, |text|)
    ensures |t| == |spans|
  {
    if spans == [] then []
    else [text[spans[0].start..spans[0].end]] + SpanTexts(text, spans[1..], spans[0].end)
  }

  function MapText(f: string -> string, ts: seq<string>): (r: seq<string>)
    ensures |r| == |ts|
  {
    if ts == [] then [] else [f(ts[0])] + MapText(f, ts[1..])
  }

  /** The text around the matches is kept character for character: the original
      is its gaps interleaved with the matches, the result is the same gaps
      interleaved with their replacements. */
  lemma AssembleKeepsGaps(text: string, spans: seq<Span>, from: nat, replace: string -> string)
    requires Ordered(spans, from, |text|)
    ensures text[from..] == Interleave(Gaps(text, spans, from), SpanTexts(text, spans, from))
    ensures Assemble(text, spans, from, replace)
            == Interleave(Gaps(text, spans, from), MapText(replace, SpanTexts(text, spans, from)))
  {
    TextIsGapsAndSpans(text, spans, from);
    AssembleIsGapsAndFakes(text, spans, from, replace);
  }

  lemma {:induction false} TextIsGapsAndSpans(text: string, spans: seq<Span>, from: nat)
    requires Ordered(spans, from, |text|)
    ensures text[from..] == Interleave(Gaps(text, spans, from), SpanTexts(text, spans, from))
    decreases |spans|
  {
    if spans != [] {
      var sp := spans[0];
      TextIsGapsAndSpans(text, spans[1..], sp.end);
      var gaps, texts := Gaps(text, spans, from), SpanTexts(text, spans, from);
      assert gaps[1..] == Gaps(text, spans[1..], sp.end) && gaps[0] == text[from..sp.start];
      assert texts[1..] == SpanTexts(text, spans[1..], sp.end) && texts[0] == text[sp.start..sp.end];
      hide Gaps, SpanTexts, Ordered;
      assert Interleave(gaps, texts) == gaps[0] + texts[0] + Interleave(gaps[1..], texts[1..]);
      assert text[from..] == text[from..sp.start] + text[sp.start..sp.end] + text[sp.end..];
    }
  }

  lemma {:induction false} AssembleIsGapsAndFakes(text: string, spans: seq<Span>, from: nat, replace: string -> string)
    requires Ordered(spans, from, |text|)
    ensures Assemble(text, spans, from, replace)
            == Interleave(Gaps(text, spans, from), MapText(replace, SpanTexts(text, spans, from)))
    decreases |spans|
  {
    if spans != [] {
      var sp := spans[0];
      AssembleIsGapsAndFakes(text, spans[1..], sp.end, replace);
      assert Gaps(text, spans, from)[1..] == Gaps(text, spans[1..], sp.end);
      assert MapText(replace, SpanTexts(text, spans, from))[1..] == MapText(replace, SpanTexts(text, spans[1..], sp.end));
    }
  }

  lemma AssembleStep(text: string, spans: seq<Span>, from: nat, replace: string -> string)
    requires Ordered(spans, from, |text|) && spans != []
    ensures var sp := spans[0];
            Assemble(text, spans, from, replace)
            == text[from..sp.start] + replace(text[sp.start..sp.end]) + Assemble(text, spans[1..], sp.end, replace)
  {
  }

  method AssembleSpans(text: string, spans: seq<Span>, replace: string -> string) returns (out: string)
    requires Ordered(spans, 0, |text|)
    ensures out == Assemble(text, spans, 0, replace)
  {
    out := "";
    var lastEnd: nat := 0;
    assert spans[0..] == spans;
    assert text[0..] == text;
    assert forall from: nat | from <= |text| :: Assemble(text, [], from, replace) == text[from..];
    hide Assemble;
    for i := 0 to |spans|
      invariant Ordered(spans[i..], lastEnd, |text|)
      invariant out + Assemble(text, spans[i..], lastEnd, replace) == Assemble(text, spans, 0, replace)
    {
      var sp := spans[i];
      assert spans[i..][0] == sp && spans[i..][1..] == spans[i + 1..];
      AssembleStep(text, spans[i..], lastEnd, replace);
      ghost var before := out;
      ghost var more := Assemble(text, spans[i + 1..], sp.end, replace);
      out := out + text[lastEnd..sp.start];
      out := out + replace(text[sp.start..sp.end]);
      Associative(before, text[lastEnd..sp.start], replace(text[sp.start..sp.end]));
      Associative(before, text[lastEnd..sp.start] + replace(text[sp.start..sp.end]), more);
      lastEnd := sp.end;
    }
    assert spans[|spans|..] == [];
    out := out + text[lastEnd..];
  }

  function FakeFor(env: Env, strategy: string): string -> string {
    (span: string) => env.fake(strategy, env.seed(env.encode(span)))
  }

  ghost predicate SpansInOrder(env: Env) {
    forall s :: Ordered(env.emailSpans(s), 0, |s|) && Ordered(env.phoneSpans(s), 0, |s|)
  }

  /** E-mail addresses first, then telephone numbers in what results. */
  function MaskSpans(env: Env, s: string): Option<string>
    requires SpansInOrder(env)
  {
    var emails := env.emailSpans(s);
    var masked := Assemble(s, emails, 0, FakeFor(env, "email"));
    var phones := env.phoneSpans(masked);
    if phones != [] then Some(Assemble(masked, phones, 0, FakeFor(env, "phone")))
    else if masked != s then Some(masked) else None
  }

  // ---- JSON documents ----

  /** A string leaf: replaced whole, or in its sensitive spans, or kept. */
  function MaskLeaf(env: Env, s: string): Option<string>
    requires SpansInOrder(env)
  {
    match env.scan(s)
    case Some(strategy) => Some(env.fake(strategy, env.seed(env.encode(s))))
    case None => MaskSpans(env, s)
  }

  function MaskJson(env: Env, j: Json): (Json, bool)
    requires SpansInOrder(env)
    decreases j, 1
  {
    match j
    case Str(s) => (match MaskLeaf(env, s) case Some(t) => (Str(t), true) case None => (j, false))
    case Arr(items) => var (r, hit) := MaskItems(env, items); (Arr(r), hit)
    case Obj(fields) => var (r, hit) := MaskFields(env, fields); (Obj(r), hit)
    case _ => (j, false)
  }

  function MaskItems(env: Env, items: seq<Json>): (seq<Json>, bool)
    requires SpansInOrder(env)
    decreases items, 0
  {
    if items == [] then ([], false)
    else
      var (first, a) := MaskJson(env, items[0]);
      var (rest, b) := MaskItems(env, items[1..]);
      ([first] + rest, a || b)
  }

  function MaskFields(env: Env, fields: seq<Field>): (seq<Field>, bool)
    requires SpansInOrder(env)
    decreases fields, 0
  {
    if fields == [] then ([], false)
    else
      var (first, a) := MaskJson(env, fields[0].value);
      var (rest, b) := MaskFields(env, fields[1..]);
      ([Field(fields[0].key, first)] + rest, a || b)
  }

  /** The string leaves from left to right; keys are not leaves. */
  function Leaves(j: Json): seq<string>
    decreases j, 1
  {
    match j
    case Str(s) => [s]
    case Arr(items) => ItemLeaves(items)
    case Obj(fields) => FieldLeaves(fields)
    case _ => []
  }

  function ItemLeaves(items: seq<Json>): seq<string>
    decreases items, 0
  {
    if items == [] then [] else Leaves(items[0]) + ItemLeaves(items[1..])
  }

  function FieldLeaves(fields: seq<Field>): seq<string>
    decreases fields, 0
  {
    if fields == [] then [] else Leaves(fields[0].value) + FieldLeaves(fields[1..])
  }

  /** The document with every string leaf blanked. */
  function Blank(j: Json): Json
    decreases j, 1
  {
    match j
    case Str(_) => Str("")
    case Arr(items) => Arr(BlankItems(items))
    case Obj(fields) => Obj(BlankFields(fields))
    case _ => j
  }

  function BlankItems(items: seq<Json>): seq<Json>
    decreases items, 0
  {
    if items == [] then [] else [Blank(items[0])] + BlankItems(items[1..])
  }

  function BlankFields(fields: seq<Field>): seq<Field>
    decreases fields, 0
  {
    if fields == [] then [] else [Field(fields[0].key, Blank(fields[0].value))] + BlankFields(fields[1..])
  }

  function MaskLeaves(env: Env, ls: seq<string>): (seq<string>, bool)
    requires SpansInOrder(env)
  {
    if ls == [] then ([], false)
    else
      var (first, a) := MaskOne(env, ls[0]);
      var (rest, b) := MaskLeaves(env, ls[1..]);
      ([first] + rest, a || b)
  }

  function MaskOne(env: Env, s: string): (string, bool)
    requires SpansInOrder(env)
  {
    match MaskLeaf(env, s)
    case Some(t) => (t, true)
    case None => (s, false)
  }

  lemma {:induction false} MaskLeavesAppend(env: Env, a: seq<string>, b: seq<string>)
    requires SpansInOrder(env)
    ensures var (ra, ha) := MaskLeaves(env, a); var (rb, hb) := MaskLeaves(env, b);
            MaskLeaves(env, a + b) == (ra + rb, ha || hb)
    decreases |a|
  {
    hide MaskOne, SpansInOrder;
    if a == [] {
      assert a + b == b;
      assert [] + MaskLeaves(env, b).0 == MaskLeaves(env, b).0;
    } else {
      MaskLeavesAppend(env, a[1..], b);
      assert (a + b)[1..] == a[1..] + b;
      var (ra, _) := MaskLeaves(env, a[1..]);
      var (rb, _) := MaskLeaves(env, b);
      var first := MaskOne(env, a[0]).0;
      assert [first] + (ra + rb) == [first] + ra + rb;
    }
  }

  /** Masking a document changes string leaves only: keys, numbers, nesting and
      order stay, the leaves are those of the original masked one by one, and
      the document counts as changed exactly when some leaf was masked. */
  lemma {:induction false} MaskJsonLeaves(env: Env, j: Json)
    requires SpansInOrder(env)
    ensures var (k, hit) := MaskJson(env, j);
            Blank(k) == Blank(j) && (Leaves(k), hit) == MaskLeaves(env, Leaves(j))
    decreases j, 1
  {
    hide MaskLeaf, SpansInOrder;
    match j
    case Str(s) =>
      assert [s][1..] == [] && forall t: string :: [t] + [] == [t];
    case Arr(items) => MaskItemsLeaves(env, items);
    case Obj(fields) => MaskFieldsLeaves(env, fields);
    case _ =>
  }

  lemma {:induction false} MaskItemsLeaves(env: Env, items: seq<Json>)
    requires SpansInOrder(env)
    ensures var (r, hit) := MaskItems(env, items);
            BlankItems(r) == BlankItems(items) && (ItemLeaves(r), hit) == MaskLeaves(env, ItemLeaves(items))
    decreases items, 0
  {
    hide MaskLeaf, SpansInOrder;
    if items != [] {
      MaskJsonLeaves(env, items[0]);
      MaskItemsLeaves(env, items[1..]);
      MaskLeavesAppend(env, Leaves(items[0]), ItemLeaves(items[1..]));
      assert MaskItems(env, items).0[1..] == MaskItems(env, items[1..]).0;
    }
  }

  lemma {:induction false} MaskFieldsLeaves(env: Env, fields: seq<Field>)
    requires SpansInOrder(env)
    ensures var (r, hit) := MaskFields(env, fields);
            BlankFields(r) == BlankFields(fields) && (FieldLeaves(r), hit) == MaskLeaves(env, FieldLeaves(fields))
    decreases fields, 0
  {
    hide MaskLeaf, SpansInOrder;
    if fields != [] {
      MaskJsonLeaves(env, fields[0].value);
      MaskFieldsLeaves(env, fields[1..]);
      MaskLeavesAppend(env, Leaves(fields[0].value), FieldLeaves(fields[1..]));
      assert MaskFields(env, fields).0[1..] == MaskFields(env, fields[1..]).0;
    }
  }

  // ---- One cell ----

  datatype Cell = Kept | Replaced(value: bytes)

  /** The sentinel written when a `json` rule covers a value that is no JSON. */
  const MASK_FAILED: string := "MASKED"

  function MaskDocument(env: Env, val: bytes, j: Json): Cell
    requires SpansInOrder(env)
  {
    var (k, hit) := MaskJson(env, j);
    var text := env.encode(env.printJson(k));
    if hit && text != val then Replaced(text) else Kept
  }

  function MaskExplicit(env: Env, strategy: string, val: bytes): Cell
    requires SpansInOrder(env)
  {
    if strategy == "json" then
      match env.decode(val)
      case None => Replaced(env.encode(MASK_FAILED))
      case Some(s) =>
        match env.parseJson(s)
        case None => Replaced(env.encode(MASK_FAILED))
        case Some(j) => MaskDocument(env, val, j)
    else if strategy == "hash" then Replaced(env.encode(env.hash(val)))
    else Replaced(env.encode(env.fake(strategy, env.seed(val))))
  }

  function ArrayMasker(env: Env): ArrayMask.Masker {
    (s: string) =>
      match env.scan(s)
      case Some(strategy) => Some(env.fake(strategy, env.seed(env.encode(s))))
      case None => None
  }

  predicate Enclosed(s: string, open: char, close: char) {
    s != "" && s[0] == open && s[|s| - 1] == close
  }

  function MaskText(env: Env, val: bytes, s: string): Cell
    requires SpansInOrder(env)
  {
    match env.scan(s)
    case Some(strategy) => Replaced(env.encode(env.fake(strategy, env.seed(val))))
    case None =>
      match MaskSpans(env, s)
      case Some(t) => Replaced(env.encode(t))
      case None => Kept
  }

  function MaskHeuristic(env: Env, val: bytes, s: string): Cell
    requires SpansInOrder(env)
  {
    var trimmed := Trim(s);
    if Enclosed(trimmed, '{', '}') || Enclosed(trimmed, '[', ']') then
      match env.parseJson(s)
      case Some(j) => MaskDocument(env, val, j)
      case None =>
        var masked := ArrayMask.MaskArray(ArrayMasker(env), s);
        if Enclosed(trimmed, '{', '}') && masked.Some? then Replaced(env.encode(masked.value)) else MaskText(env, val, s)
    else MaskText(env, val, s)
  }

  function MaskCell(env: Env, strategy: Option<string>, val: bytes): Cell
    requires SpansInOrder(env)
  {
    if strategy.Some? then MaskExplicit(env, strategy.value, val)
    else if !env.heuristicsEnabled then Kept
    else
      match env.decode(val)
      case None => Kept
      case Some(s) => MaskHeuristic(env, val, s)
  }

  /** Under an explicit rule the original is let through only when the rule asks
      for JSON masking, the value is JSON, and either no string leaf in it is
      sensitive or the masked document prints as the very same bytes. */
  lemma ExplicitRuleFailsClosed(env: Env, strategy: string, val: bytes)
    requires SpansInOrder(env)
    ensures MaskCell(env, Some(strategy), val) == Kept <==>
            && strategy == "json" && env.decode(val).Some? && env.parseJson(env.decode(val).value).Some?
            && var j := env.parseJson(env.decode(val).value).value;
               !MaskLeaves(env, Leaves(j)).1 || env.encode(env.printJson(MaskJson(env, j).0)) == val
  {
    hide MaskJson, Leaves, MaskLeaves, SpansInOrder;
    if strategy == "json" && env.decode(val).Some? && env.parseJson(env.decode(val).value).Some? {
      MaskJsonLeaves(env, env.parseJson(env.decode(val).value).value);
    }
  }

  /** Under any other explicit rule nothing of the value gets through but what
      the keyed hash or the keyed seed says of it, and the cell is always replaced. */
  lemma MaskedThroughSeedOnly(env: Env, strategy: string, v1: bytes, v2: bytes)
    requires SpansInOrder(env) && strategy != "json"
    requires if strategy == "hash" then env.hash(v1) == env.hash(v2) else env.seed(v1) == env.seed(v2)
    ensures MaskCell(env, Some(strategy), v1) == MaskCell(env, Some(strategy), v2) != Kept
  {
    hide SpansInOrder;
  }

  /** The whole text matches no pattern and nothing in it looks like an address
      or, once addresses are replaced, like a telephone number. */
  predicate PlainText(env: Env, s: string)
    requires SpansInOrder(env)
  {
    var masked := Assemble(s, env.emailSpans(s), 0, FakeFor(env, "email"));
    env.scan(s).None? && env.phoneSpans(masked) == [] && masked == s
  }

  /** No element of a PostgreSQL array matches a pattern. */
  predicate PlainArray(env: Env, s: string) {
    ArrayMask.IsArray(s) ==>
      var es := ArrayMask.Split(s[1..|s| - 1]);
      forall i | 0 <= i < |es| :: env.scan(ArrayMask.CleanValue(es[i])).None?
  }

  /** In a column without a rule a cell is kept if and only if the heuristics are
      off, or it is not text, or it is JSON in which no string is sensitive (or that
      prints alike), or it is other text that shows nothing, element by element if
      it is an array and as a whole. */
  lemma UnruledCellKept(env: Env, val: bytes)
    requires SpansInOrder(env)
    ensures MaskCell(env, None, val) == Kept <==>
            || !env.heuristicsEnabled || env.decode(val).None?
            || (var s := env.decode(val).value;
                var braces := Enclosed(Trim(s), '{', '}');
                if (braces || Enclosed(Trim(s), '[', ']')) && env.parseJson(s).Some?
                then var j := env.parseJson(s).value;
                     !MaskLeaves(env, Leaves(j)).1 || env.encode(env.printJson(MaskJson(env, j).0)) == val
                else (braces ==> PlainArray(env, s)) && PlainText(env, s))
  {
    hide MaskJson, Leaves, MaskLeaves, SpansInOrder, Trim, Assemble, ArrayMask.Split, ArrayMask.CleanValue, ArrayMask.MaskElements,
      ArrayMask.IsArray, ArrayMask.Join;
    if env.heuristicsEnabled && env.decode(val).Some? {
      var s := env.decode(val).value;
      if env.parseJson(s).Some? {
        MaskJsonLeaves(env, env.parseJson(s).value);
      }
      PlainArrayKept(env, s);
      hide ArrayMask.MaskArray, PlainArray;
    }
  }

  lemma PlainArrayKept(env: Env, s: string)
    ensures ArrayMask.MaskArray(ArrayMasker(env), s).None? <==> PlainArray(env, s)
  {
    hide ArrayMask.Split, ArrayMask.CleanValue, ArrayMask.MaskElements, ArrayMask.Join;
    if ArrayMask.IsArray(s) {
      NoneMasked(env, ArrayMask.Split(s[1..|s| - 1]));
    }
  }

  lemma {:induction false} NoneMasked(env: Env, es: seq<string>)
    ensures !ArrayMask.SomeMasked(ArrayMasker(env), es)
            <==> forall i | 0 <= i < |es| :: env.scan(ArrayMask.CleanValue(es[i])).None?
  {
    hide ArrayMask.CleanValue;
    var m := ArrayMasker(env);
    assert forall s :: m(s).None? <==> env.scan(s).None?;
  }
}
