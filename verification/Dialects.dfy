/** What a string literal is in the SQL dialect of the server, and when the
    redactor, which reads both dialects alike, hides exactly those. */
module Dialects {
  import opened Redact
  import Text

  /** MySQL runs what is in a block comment that starts with `!`, or skips it,
      mostly by a version number: `runs` decides by the text after the `!`. */
  datatype Dialect = MySql(runs: string -> bool) | Postgres

  /** The parts of a statement. A string knows whether a closing quote ends it and
      whether a backslash escapes in it. Identifiers in quotes and comments are
      verbatim text. */
  datatype Lexeme =
    | Other(c: char)
    | Verbatim(text: string)
    | Str(text: string, closed: bool, escapes: bool)
    | Dollar(text: string)

  /** Where a character stands: in PostgreSQL at the start of a word, inside one, or
      after a lone E, which makes the string that follows an escape string; in
      MySQL perhaps inside a block comment that is run. */
  datatype Context = Start | Word | AfterE | Running

  // ---- Extents ----

  /** What follows the quoted text whose inside starts at `s`, and whether it was
      closed; a doubled quote stands for itself. */
  function QuotedRest(s: string, quote: char, escapes: bool, escaped: bool): (r: (string, bool))
    ensures |r.0| <= |s| && (r.1 ==> |r.0| < |s|)
    decreases |s|
  {
    if s == "" then ("", false)
    else if escaped then QuotedRest(s[1..], quote, escapes, false)
    else if escapes && s[0] == '\\' then QuotedRest(s[1..], quote, escapes, true)
    else if s[0] == quote then
      if |s| > 1 && s[1] == quote then QuotedRest(s[2..], quote, escapes, false) else (s[1..], true)
    else QuotedRest(s[1..], quote, escapes, false)
  }

  /** A line comment goes up to the end of the line: in PostgreSQL a line feed or a
      carriage return, in MySQL a line feed or a zero character. */
  predicate EndsLine(d: Dialect, c: char) {
    c == '\n' || c == (if d.MySql? then '\0' else '\r')
  }

  function LineRest(d: Dialect, s: string): (rest: string)
    ensures |rest| <= |s|
  {
    if s == "" || EndsLine(d, s[0]) then s else LineRest(d, s[1..])
  }

  /** What follows a block comment, with others inside it up to `levels` deep. */
  function BlockRest(s: string, depth: nat, levels: nat): (rest: string)
    ensures |rest| <= |s|
    decreases |s|
  {
    if |s| < 2 then ""
    else if s[0] == '*' && s[1] == '/' then
      if depth == 0 then s[2..] else BlockRest(s[2..], depth - 1, levels)
    else if depth < levels && s[0] == '/' && s[1] == '*' then BlockRest(s[2..], depth + 1, levels)
    else BlockRest(s[1..], depth, levels)
  }

  predicate IsLetter(c: char) {
    'a' <= c <= 'z' || 'A' <= c <= 'Z' || c == '_' || c as int >= 0x80
  }

  predicate IsDigit(c: char) {
    '0' <= c <= '9'
  }

  function TagLength(s: string): (n: nat)
    ensures n <= |s|
  {
    if s != "" && (IsLetter(s[0]) || IsDigit(s[0])) then 1 + TagLength(s[1..]) else 0
  }

  /** The opening delimiter of a dollar-quoted string, or nothing. */
  function Delimiter(s: string): (t: string)
    ensures |t| <= |s| && (t != "" ==> |t| >= 2)
  {
    if s == "" || s[0] != '$' then ""
    else
      var n := TagLength(s[1..]);
      if 1 + n < |s| && s[1 + n] == '$' && !(n > 0 && IsDigit(s[1])) then s[..n + 2] else ""
  }

  function DollarRest(s: string, delimiter: string): (rest: string)
    ensures |rest| <= |s|
  {
    if s == "" then "" else if delimiter <= s then s[|delimiter|..] else DollarRest(s[1..], delimiter)
  }

  /** `rest` is the end of `s`. */
  predicate Ends(s: string, rest: string) {
    |rest| <= |s| && rest == s[|s| - |rest|..]
  }

  lemma EndsLater(s: string, n: nat, rest: string)
    requires n <= |s| && Ends(s[n..], rest)
    ensures Ends(s, rest)
  {
    assert s[n..][|s| - n - |rest|..] == s[|s| - |rest|..];
  }

  lemma {:induction false} QuotedRestEnds(s: string, quote: char, escapes: bool, escaped: bool)
    ensures Ends(s, QuotedRest(s, quote, escapes, escaped).0)
    decreases |s|
  {
    hide Ends;
    var rest := QuotedRest(s, quote, escapes, escaped).0;
    if s == "" {
      assert Ends(s, rest) by { EndsAll(s, 0); }
    } else if !escaped && escapes && s[0] == '\\' {
      QuotedRestEnds(s[1..], quote, escapes, true);
      EndsLater(s, 1, rest);
    } else if !escaped && s[0] == quote {
      if |s| > 1 && s[1] == quote {
        QuotedRestEnds(s[2..], quote, escapes, false);
        EndsLater(s, 2, rest);
      } else {
        EndsAll(s, 1);
      }
    } else {
      QuotedRestEnds(s[1..], quote, escapes, false);
      EndsLater(s, 1, rest);
    }
  }

  lemma EndsAll(s: string, n: nat)
    requires n <= |s|
    ensures Ends(s, s[n..])
  {
  }

  lemma {:induction false} LineRestEnds(d: Dialect, s: string)
    ensures Ends(s, LineRest(d, s))
  {
    if s == "" || EndsLine(d, s[0]) {
    } else {
      LineRestEnds(d, s[1..]);
    }
  }

  lemma {:induction false} BlockRestEnds(s: string, depth: nat, levels: nat)
    ensures Ends(s, BlockRest(s, depth, levels))
    decreases |s|
  {
    hide Ends;
    var rest := BlockRest(s, depth, levels);
    if |s| < 2 {
      assert s[|s|..] == "";
      EndsAll(s, |s|);
    } else if s[0] == '*' && s[1] == '/' {
      if depth == 0 {
        EndsAll(s, 2);
      } else {
        BlockRestEnds(s[2..], depth - 1, levels);
        EndsLater(s, 2, rest);
      }
    } else if depth < levels && s[0] == '/' && s[1] == '*' {
      BlockRestEnds(s[2..], depth + 1, levels);
      EndsLater(s, 2, rest);
    } else {
      BlockRestEnds(s[1..], depth, levels);
      EndsLater(s, 1, rest);
    }
  }

  // ---- The dialects ----

  predicate QuotesString(d: Dialect, c: char) {
    c == '\'' || (d.MySql? && c == '"')
  }

  predicate QuotesName(d: Dialect, c: char) {
    if d.MySql? then c == '`' else c == '"'
  }

  /** Two hyphens; MySQL wants a blank or control character, or nothing, after
      them. MySQL also has `#`. */
  predicate StartsLine(d: Dialect, s: string) {
    || (d.MySql? && s != "" && s[0] == '#')
    || (|s| > 1 && s[0] == '-' && s[1] == '-' &&
        (d.Postgres? || |s| == 2 || s[2] as int <= 0x20 || s[2] as int == 0x7f))
  }

  predicate StartsBlock(s: string) {
    |s| > 1 && s[0] == '/' && s[1] == '*'
  }

  predicate StartsConditional(d: Dialect, s: string) {
    d.MySql? && |s| > 2 && s[0] == '/' && s[1] == '*' && s[2] == '!'
  }

  /** A block comment whose inside the server runs. */
  predicate StartsRun(d: Dialect, s: string) {
    StartsConditional(d, s) && d.runs(s[3..])
  }

  predicate ClosesRun(s: string, ctx: Context) {
    ctx.Running? && |s| > 1 && s[0] == '*' && s[1] == '/'
  }

  /** What follows a block comment: in PostgreSQL they nest, in MySQL only inside a
      conditional one that is skipped, and one deep. An optimizer hint is a
      comment. */
  function CommentRest(d: Dialect, s: string): (rest: string)
    requires StartsBlock(s)
    ensures |rest| < |s|
  {
    if d.Postgres? then BlockRest(s[2..], 0, |s|)
    else if StartsConditional(d, s) then BlockRest(s[3..], 0, 1)
    else BlockRest(s[2..], 0, 0)
  }

  /** What follows verbatim text at the front, if there is any. Of a block that is
      run only its two ends are verbatim. */
  function VerbatimRest(d: Dialect, s: string, ctx: Context): (rest: string)
    requires s != ""
    ensures |rest| <= |s|
  {
    if QuotesName(d, s[0]) then QuotedRest(s[1..], s[0], false, false).0
    else if StartsLine(d, s) then LineRest(d, s[1..])
    else if StartsRun(d, s) then s[3..]
    else if StartsBlock(s) then CommentRest(d, s)
    else if ClosesRun(s, ctx) then s[2..]
    else s
  }

  lemma VerbatimRestEnds(d: Dialect, s: string, ctx: Context)
    requires s != ""
    ensures Ends(s, VerbatimRest(d, s, ctx))
  {
    hide QuotedRest, LineRest, BlockRest, Ends;
    var rest := VerbatimRest(d, s, ctx);
    if QuotesName(d, s[0]) {
      QuotedRestEnds(s[1..], s[0], false, false);
      EndsLater(s, 1, rest);
    } else if StartsLine(d, s) {
      LineRestEnds(d, s[1..]);
      EndsLater(s, 1, rest);
    } else if StartsRun(d, s) {
      EndsAll(s, 3);
    } else if StartsBlock(s) {
      if d.Postgres? {
        BlockRestEnds(s[2..], 0, |s|);
        EndsLater(s, 2, rest);
      } else if StartsConditional(d, s) {
        BlockRestEnds(s[3..], 0, 1);
        EndsLater(s, 3, rest);
      } else {
        BlockRestEnds(s[2..], 0, 0);
        EndsLater(s, 2, rest);
      }
    } else if ClosesRun(s, ctx) {
      EndsAll(s, 2);
    } else {
      EndsAll(s, 0);
      assert s[0..] == s;
    }
  }

  /** Where one stands after a whole string, name or comment. */
  function Beyond(ctx: Context): Context {
    if ctx.Running? then Running else Start
  }

  function Following(ctx: Context, c: char): Context {
    if ctx.Running? then Running
    else if ctx.Word? || ctx.AfterE? then (if IsLetter(c) || IsDigit(c) || c == '$' then Word else Start)
    else if c in {'e', 'E'} then AfterE
    else if IsLetter(c) then Word
    else Start
  }

  /** The first lexeme, what follows it, and where that stands. */
  function FirstLexeme(d: Dialect, s: string, ctx: Context): (r: (Lexeme, string, Context))
    requires s != ""
    ensures |r.1| < |s|
  {
    if QuotesString(d, s[0]) then
      var escapes := d.MySql? || ctx.AfterE?;
      var (rest, closed) := QuotedRest(s[1..], s[0], escapes, false);
      (Str(s[..|s| - |rest|], closed, escapes), rest, Beyond(ctx))
    else
      var rest := VerbatimRest(d, s, ctx);
      var delimiter := if d.Postgres? && !ctx.Word? && !ctx.AfterE? then Delimiter(s) else "";
      if |rest| < |s| then
        var next := if StartsRun(d, s) then Running else if ClosesRun(s, ctx) then Start else Beyond(ctx);
        (Verbatim(s[..|s| - |rest|]), rest, next)
      else if delimiter != "" then
        var after := DollarRest(s[|delimiter|..], delimiter);
        (Dollar(s[..|s| - |after|]), after, Beyond(ctx))
      else (Other(s[0]), s[1..], Following(ctx, s[0]))
  }

  function Lex(d: Dialect, s: string, ctx: Context): seq<Lexeme>
    decreases |s|
  {
    if s == "" then []
    else
      var (x, rest, next) := FirstLexeme(d, s, ctx);
      [x] + Lex(d, rest, next)
  }

  // ---- When the redactor agrees ----

  /** A quote after an odd number of backslashes; `odd` says that so many came before. */
  predicate HasEscapedQuote(text: string, quote: char, odd: bool) {
    text != "" &&
    ((odd && text[0] == quote) || HasEscapedQuote(text[1..], quote, !odd && text[0] == '\\'))
  }

  /** Strings in which a backslash escapes, or none escapes a quote; verbatim text
      without a quote that would open a string; no dollar quoting. */
  predicate Harmless(d: Dialect, x: Lexeme) {
    match x
    case Other(_) => true
    case Verbatim(text) => forall c | c in text :: !QuotesString(d, c)
    case Str(text, _, escapes) => text != "" && (escapes || !HasEscapedQuote(text[1..], text[0], false))
    case Dollar(_) => false
  }

  predicate AllHarmless(d: Dialect, xs: seq<Lexeme>) {
    forall x | x in xs :: Harmless(d, x)
  }

  /** A statement cut into what is shown and what is hidden. */
  datatype Piece = Shown(c: char) | Hidden(text: string, closed: bool) | Dollared(text: string)

  /** The pieces the redactor cuts it into. */
  function Cut(s: string, doubleQuoted: bool): seq<Piece>
    decreases |s|
  {
    if s == "" then []
    else if Opens(s[0], doubleQuoted) then
      var (rest, closed) := QuotedRest(s[1..], s[0], true, false);
      [Hidden(s[..|s| - |rest|], closed)] + Cut(rest, doubleQuoted)
    else [Piece.Shown(s[0])] + Cut(s[1..], doubleQuoted)
  }

  function AllShown(text: string): seq<Piece> {
    if text == "" then [] else [Piece.Shown(text[0])] + AllShown(text[1..])
  }

  /** The pieces it ought to be cut into. */
  function PiecesOf(xs: seq<Lexeme>): seq<Piece> {
    if xs == [] then []
    else
      (match xs[0]
       case Other(c) => [Piece.Shown(c)]
       case Verbatim(text) => AllShown(text)
       case Str(text, closed, _) => [Hidden(text, closed)]
       case Dollar(text) => [Dollared(text)])
      + PiecesOf(xs[1..])
  }

  /** The redactor one quote behind the dialect never catches up. */
  lemma {:induction false} BehindByAQuote(s: string, quote: char)
    requires quote != '\\'
    ensures QuotedRest([quote] + s, quote, true, false) != QuotedRest(s, quote, false, false)
    decreases |s|
  {
    var t := [quote] + s;
    assert t[1..] == s;
    if s != "" && s[0] == quote {
      assert t[2..] == s[1..];
      if |s| > 1 && s[1] == quote {
        BehindByAQuote(s[2..], quote);
        assert s[1..] == [quote] + s[2..];
      }
    }
  }

  lemma EscapedQuoteMisread(s: string, quote: char)
    requires quote != '\\' && s != "" && s[0] == quote
    ensures QuotedRest(s, quote, true, true) != QuotedRest(s, quote, false, false)
  {
    if |s| > 1 && s[1] == quote {
      BehindByAQuote(s[2..], quote);
      assert s[1..] == [quote] + s[2..];
    }
  }

  /** The same for the quoted text whose inside starts at `s`, where a backslash
      is no escape. */
  predicate EscapesQuote(s: string, quote: char, odd: bool)
    decreases |s|
  {
    s != "" &&
    if s[0] == quote then odd || (|s| > 1 && s[1] == quote && EscapesQuote(s[2..], quote, false))
    else EscapesQuote(s[1..], quote, !odd && s[0] == '\\')
  }

  lemma {:induction false} ReadAlikeUnlessEscaped(s: string, quote: char, escaped: bool)
    requires quote != '\\'
    ensures QuotedRest(s, quote, true, escaped) == QuotedRest(s, quote, false, false) <==> !EscapesQuote(s, quote, escaped)
    decreases |s|
  {
    if s != "" {
      if s[0] != quote {
        ReadAlikeUnlessEscaped(s[1..], quote, !escaped && s[0] == '\\');
      } else if escaped {
        EscapedQuoteMisread(s, quote);
      } else if |s| > 1 && s[1] == quote {
        ReadAlikeUnlessEscaped(s[2..], quote, false);
      }
    }
  }

  lemma {:induction false} EscapedInText(s: string, quote: char, odd: bool)
    requires quote != '\\'
    ensures EscapesQuote(s, quote, odd) <==>
            HasEscapedQuote(s[..|s| - |QuotedRest(s, quote, false, false).0|], quote, odd)
    decreases |s|
  {
    if s != "" {
      var rest := QuotedRest(s, quote, false, false).0;
      var text := s[..|s| - |rest|];
      assert text != "" && text[0] == s[0];
      if s[0] != quote {
        assert text[1..] == s[1..][..|s[1..]| - |rest|];
        EscapedInText(s[1..], quote, !odd && s[0] == '\\');
      } else if |s| > 1 && s[1] == quote {
        assert text[1..][1..] == s[2..][..|s[2..]| - |rest|] && text[1] == quote;
        EscapedInText(s[2..], quote, false);
      } else {
        assert text[1..] == "";
      }
    }
  }

  /** A string in which a backslash is no escape ends where the redactor thinks, and
      is closed if it thinks so, exactly when no quote in it is escaped. */
  lemma StringReadAlike(s: string, quote: char, escaped: bool)
    requires quote != '\\'
    ensures var there := QuotedRest(s, quote, false, false);
            QuotedRest(s, quote, true, escaped) == there <==> !HasEscapedQuote(s[..|s| - |there.0|], quote, escaped)
  {
    hide QuotedRest, EscapesQuote, HasEscapedQuote;
    ReadAlikeUnlessEscaped(s, quote, escaped);
    EscapedInText(s, quote, escaped);
  }

  lemma {:induction false} TextShown(text: string, rest: string, doubleQuoted: bool)
    requires forall c | c in text :: !Opens(c, doubleQuoted)
    ensures Cut(text + rest, doubleQuoted) == AllShown(text) + Cut(rest, doubleQuoted)
    decreases |text|
  {
    hide QuotedRest, Opens;
    if text == "" {
      assert text + rest == rest && AllShown(text) + Cut(rest, doubleQuoted) == Cut(rest, doubleQuoted);
    } else {
      assert (text + rest)[1..] == text[1..] + rest && (text + rest)[0] == text[0];
      assert text[0] in text && forall c | c in text[1..] :: c in text;
      TextShown(text[1..], rest, doubleQuoted);
      var tail := AllShown(text[1..]);
      assert [Piece.Shown(text[0])] + (tail + Cut(rest, doubleQuoted)) == [Piece.Shown(text[0])] + tail + Cut(rest, doubleQuoted);
    }
  }

  lemma {:induction false} TextHidden(text: string, rest: string, doubleQuoted: bool, more: seq<Piece>)
    requires exists c | c in text :: Opens(c, doubleQuoted)
    ensures Cut(text + rest, doubleQuoted) != AllShown(text) + more
    decreases |text|
  {
    hide QuotedRest, Opens;
    var cut, shown := Cut(text + rest, doubleQuoted), AllShown(text) + more;
    assert (text + rest)[1..] == text[1..] + rest && (text + rest)[0] == text[0];
    assert shown[0] == Piece.Shown(text[0]);
    if Opens(text[0], doubleQuoted) {
      assert cut[0].Hidden?;
    } else {
      assert forall c :: c in text <==> c == text[0] || c in text[1..];
      TextHidden(text[1..], rest, doubleQuoted, more);
      assert shown[1..] == AllShown(text[1..]) + more;
      assert cut[1..] == Cut(text[1..] + rest, doubleQuoted);
    }
  }

  lemma PiecesSplit(x: Lexeme, xs: seq<Lexeme>)
    ensures PiecesOf([x] + xs) == PiecesOf([x]) + PiecesOf(xs)
    ensures x.Other? ==> PiecesOf([x]) == [Piece.Shown(x.c)]
    ensures x.Verbatim? ==> PiecesOf([x]) == AllShown(x.text)
    ensures x.Str? ==> PiecesOf([x]) == [Hidden(x.text, x.closed)]
    ensures x.Dollar? ==> PiecesOf([x]) == [Dollared(x.text)]
  {
    assert ([x] + xs)[1..] == xs && [x][1..] == [];
    assert forall ps: seq<Piece> :: ps + [] == ps;
  }

  /** Whether the redactor's cut of `s` and what it ought to be agree beyond the first lexeme. */
  predicate Agrees(d: Dialect, rest: string, more: seq<Lexeme>) {
    Cut(rest, d.MySql?) == PiecesOf(more)
  }

  /** The redactor cuts a statement where the server's dialect does if and only if
      every part of it is harmless. */
  lemma {:induction false} ReadAlike(d: Dialect, s: string, ctx: Context)
    ensures Agrees(d, s, Lex(d, s, ctx)) <==> AllHarmless(d, Lex(d, s, ctx))
    decreases |s|
  {
    if s != "" {
      var (x, rest, next) := FirstLexeme(d, s, ctx);
      var more := Lex(d, rest, next);
      FirstLexemeRead(d, s, ctx);
      hide FirstLexeme, Agrees, Harmless;
      assert forall y :: y in [x] + more <==> y == x || y in more;
      ReadAlike(d, rest, next);
    }
  }

  lemma FirstLexemeRead(d: Dialect, s: string, ctx: Context)
    requires s != ""
    ensures var (x, rest, next) := FirstLexeme(d, s, ctx);
            forall more :: Agrees(d, s, [x] + more) <==> Harmless(d, x) && Agrees(d, rest, more)
  {
    var (x, rest, next) := FirstLexeme(d, s, ctx);
    hide FirstLexeme, Agrees, Harmless;
    forall more ensures Agrees(d, s, [x] + more) <==> Harmless(d, x) && Agrees(d, rest, more) {
      LexemeRead(d, s, ctx, more);
    }
  }

  lemma LexemeRead(d: Dialect, s: string, ctx: Context, more: seq<Lexeme>)
    requires s != ""
    ensures var (x, rest, next) := FirstLexeme(d, s, ctx);
            Agrees(d, s, [x] + more) <==> Harmless(d, x) && Agrees(d, rest, more)
  {
    var (x, rest, next) := FirstLexeme(d, s, ctx);
    if QuotesString(d, s[0]) {
      StringRead(d, s, ctx, more);
    } else if x.Verbatim? {
      VerbatimRead(d, s, ctx, more);
    } else {
      hide QuotedRest, VerbatimRest, Delimiter, DollarRest;
      PiecesSplit(x, more);
      hide PiecesOf;
      var tail := Cut(s[1..], d.MySql?);
      assert Cut(s, d.MySql?) == [Piece.Shown(s[0])] + tail;
      if x.Other? {
        assert x == Other(s[0]) && rest == s[1..];
        SamePrefix([Piece.Shown(s[0])], tail, PiecesOf(more));
      } else {
        assert ([Piece.Shown(s[0])] + tail)[0] != ([Dollared(x.text)] + PiecesOf(more))[0];
      }
    }
  }

  lemma VerbatimRead(d: Dialect, s: string, ctx: Context, more: seq<Lexeme>)
    requires s != "" && FirstLexeme(d, s, ctx).0.Verbatim?
    ensures var (x, rest, next) := FirstLexeme(d, s, ctx);
            Agrees(d, s, [x] + more) <==> Harmless(d, x) && Agrees(d, rest, more)
  {
    var (x, rest, next) := FirstLexeme(d, s, ctx);
    VerbatimRestEnds(d, s, ctx);
    assert s == x.text + rest;
    hide QuotedRest, VerbatimRest, Delimiter, DollarRest, FirstLexeme, Cut;
    PiecesSplit(x, more);
    hide PiecesOf;
    if Harmless(d, x) {
      TextShown(x.text, rest, d.MySql?);
      SamePrefix(AllShown(x.text), Cut(rest, d.MySql?), PiecesOf(more));
    } else {
      TextHidden(x.text, rest, d.MySql?, PiecesOf(more));
    }
  }

  lemma StringRead(d: Dialect, s: string, ctx: Context, more: seq<Lexeme>)
    requires s != "" && QuotesString(d, s[0])
    ensures var (x, rest, next) := FirstLexeme(d, s, ctx);
            Agrees(d, s, [x] + more) <==> Harmless(d, x) && Agrees(d, rest, more)
  {
    var (x, rest, next) := FirstLexeme(d, s, ctx);
    StringHarmless(d, s, ctx);
    QuotedRestEnds(s[1..], s[0], d.MySql? || ctx.AfterE?, false);
    EndsLater(s, 1, rest);
    hide QuotedRest, FirstLexeme, Harmless;
    PiecesSplit(x, more);
    hide PiecesOf;
    CutString(d, s, x, rest, PiecesOf(more));
  }

  lemma SamePrefix(p: seq<Piece>, a: seq<Piece>, b: seq<Piece>)
    ensures p + a == p + b <==> a == b
  {
    assert (p + a)[|p|..] == a && (p + b)[|p|..] == b;
  }

  lemma StringHarmless(d: Dialect, s: string, ctx: Context)
    requires s != "" && QuotesString(d, s[0])
    ensures var (x, rest, _) := FirstLexeme(d, s, ctx);
            && x.Str? && x.text == s[..|s| - |rest|]
            && (Harmless(d, x) <==> QuotedRest(s[1..], s[0], true, false) == (rest, x.closed))
  {
    hide HasEscapedQuote, QuotedRest;
    var (x, rest, _) := FirstLexeme(d, s, ctx);
    assert x.text[0] == s[0] && x.text[1..] == s[1..][..|s[1..]| - |rest|];
    StringReadAlike(s[1..], s[0], false);
  }

  lemma CutString(d: Dialect, s: string, x: Lexeme, rest: string, more: seq<Piece>)
    requires s != "" && QuotesString(d, s[0]) && |rest| < |s| && Ends(s, rest) && x.Str? && x.text == s[..|s| - |rest|]
    ensures var here := QuotedRest(s[1..], s[0], true, false);
            Cut(s, d.MySql?) == [Hidden(x.text, x.closed)] + more
            <==> here == (rest, x.closed) && Cut(rest, d.MySql?) == more
  {
    var (r, c) := QuotedRest(s[1..], s[0], true, false);
    QuotedRestEnds(s[1..], s[0], true, false);
    EndsLater(s, 1, r);
    hide QuotedRest;
    var first := Hidden(s[..|s| - |r|], c);
    assert Cut(s, d.MySql?) == [first] + Cut(r, d.MySql?);
    SamePrefix([first], Cut(r, d.MySql?), more);
    if Cut(s, d.MySql?) == [Hidden(x.text, x.closed)] + more {
      assert Cut(s, d.MySql?)[0] == first && ([Hidden(x.text, x.closed)] + more)[0] == Hidden(x.text, x.closed);
      assert |s[..|s| - |r|]| == |x.text|;
    }
  }

  // ---- What is logged ----

  function RenderPiece(p: Piece): string {
    match p
    case Shown(c) => [c]
    case Hidden(text, _) => if text == "" then "" else [text[0], '?', text[0]]
    case Dollared(_) => "$?$"
  }

  function RenderPieces(ps: seq<Piece>): string {
    if ps == [] then "" else RenderPiece(ps[0]) + RenderPieces(ps[1..])
  }

  lemma {:induction false} SkipIsRest(s: string, quote: char, escaped: bool)
    ensures SkipLiteral(s, quote, escaped) == QuotedRest(s, quote, true, escaped).0
    decreases |s|
  {
    if s == "" {
    } else if !escaped && s[0] == '\\' {
      SkipIsRest(s[1..], quote, true);
    } else if !escaped && s[0] == quote && |s| > 1 && s[1] == quote {
      SkipIsRest(s[2..], quote, false);
    } else {
      SkipIsRest(s[1..], quote, false);
    }
  }

  lemma {:induction false} RedactedPieces(s: string, doubleQuoted: bool)
    ensures Redacted(s, doubleQuoted) == RenderPieces(Cut(s, doubleQuoted))
    decreases |s|
  {
    hide SkipLiteral, QuotedRest, Redacted;
    if s == "" {
      assert Redacted(s, doubleQuoted) == "" by { RedactedNothing(doubleQuoted); }
    } else if Opens(s[0], doubleQuoted) {
      RedactedLiteral(s, doubleQuoted);
      SkipIsRest(s[1..], s[0], false);
      var (rest, closed) := QuotedRest(s[1..], s[0], true, false);
      RedactedPieces(rest, doubleQuoted);
      assert Cut(s, doubleQuoted)[1..] == Cut(rest, doubleQuoted);
    } else {
      RedactedPlain(s, doubleQuoted);
      RedactedPieces(s[1..], doubleQuoted);
      assert Cut(s, doubleQuoted)[1..] == Cut(s[1..], doubleQuoted);
    }
  }

  lemma RedactedNothing(doubleQuoted: bool)
    ensures Redacted("", doubleQuoted) == ""
  {
  }

  /** Where every part is harmless the log shows the statement with each of the
      dialect's own strings as quote, question mark, quote. */
  lemma HarmlessHidden(d: Dialect, s: string)
    requires AllHarmless(d, Lex(d, s, Start))
    ensures Redacted(s, d.MySql?) == RenderPieces(PiecesOf(Lex(d, s, Start)))
  {
    hide Lex, Cut, PiecesOf, RenderPieces, AllHarmless;
    ReadAlike(d, s, Start);
    RedactedPieces(s, d.MySql?);
  }

  predicate SameButStrings(xs: seq<Lexeme>, ys: seq<Lexeme>) {
    && |xs| == |ys|
    && forall i | 0 <= i < |xs| ::
         xs[i] == ys[i] || (xs[i].Str? && ys[i].Str? && xs[i].text != "" && ys[i].text != "" && xs[i].text[0] == ys[i].text[0])
  }

  /** Statements that differ only inside the dialect's own strings are logged
      alike, as long as all parts of both are harmless. */
  lemma StringsDoNotShow(d: Dialect, s: string, t: string)
    requires AllHarmless(d, Lex(d, s, Start)) && AllHarmless(d, Lex(d, t, Start))
    requires SameButStrings(Lex(d, s, Start), Lex(d, t, Start))
    ensures Redacted(s, d.MySql?) == Redacted(t, d.MySql?)
  {
    hide Lex, AllHarmless, PiecesOf, RenderPieces;
    HarmlessHidden(d, s);
    HarmlessHidden(d, t);
    RenderedAlike(Lex(d, s, Start), Lex(d, t, Start));
  }

  lemma {:induction false} RenderAppend(a: seq<Piece>, b: seq<Piece>)
    ensures RenderPieces(a + b) == RenderPieces(a) + RenderPieces(b)
    decreases |a|
  {
    hide RenderPiece;
    if a == [] {
      assert a + b == b;
    } else {
      var rest := a[1..];
      RenderAppend(rest, b);
      var ab := a + b;
      assert ab[0] == a[0] && ab[1..] == rest + b;
      hide RenderPieces;
      Text.Associative(RenderPiece(a[0]), RenderPieces(rest), RenderPieces(b));
    }
  }

  lemma {:induction false} RenderedAlike(xs: seq<Lexeme>, ys: seq<Lexeme>)
    requires SameButStrings(xs, ys)
    ensures RenderPieces(PiecesOf(xs)) == RenderPieces(PiecesOf(ys))
    decreases |xs|
  {
    if xs == [] {
      assert xs == ys;
    } else {
      RenderedAlike(xs[1..], ys[1..]);
      assert xs == [xs[0]] + xs[1..] && ys == [ys[0]] + ys[1..];
      PiecesSplit(xs[0], xs[1..]);
      PiecesSplit(ys[0], ys[1..]);
      hide PiecesOf;
      if xs[0] != ys[0] {
        var p, q := Hidden(xs[0].text, xs[0].closed), Hidden(ys[0].text, ys[0].closed);
        assert [p][1..] == [] && [q][1..] == [] && RenderPiece(p) == RenderPiece(q);
        assert RenderPieces([p]) == RenderPieces([q]);
      }
      hide RenderPieces;
      RenderAppend(PiecesOf([xs[0]]), PiecesOf(xs[1..]));
      RenderAppend(PiecesOf([ys[0]]), PiecesOf(ys[1..]));
    }
  }

  // ---- Statements whose strings show ----

  /** Text without quotes, backslashes or dollar signs. */
  predicate Simple(x: string) {
    x != "" && forall c | c in x :: c !in {'\'', '"', '\\', '$'}
  }

  lemma {:induction false} SimpleQuoted(x: string, quote: char, escapes: bool)
    requires quote in {'\'', '"'} && forall c | c in x :: c !in {'\'', '"', '\\'}
    ensures QuotedRest(x + [quote], quote, escapes, false) == ("", true)
  {
    if x == "" {
      assert x + [quote] == [quote];
    } else {
      assert (x + [quote])[0] == x[0] && x[0] in x && forall c | c in x[1..] :: c in x;
      assert (x + [quote])[1..] == x[1..] + [quote];
      SimpleQuoted(x[1..], quote, escapes);
    }
  }

  /** What the redactor makes of simple text and a last quote. */
  lemma SimpleShown(x: string, doubleQuoted: bool)
    requires Simple(x)
    ensures Redacted(x + "'", doubleQuoted) == x + "'?'"
  {
    hide QuotedRest;
    TextShown(x, "'", doubleQuoted);
    RedactedPieces(x + "'", doubleQuoted);
    RenderAppend(AllShown(x), Cut("'", doubleQuoted));
    ShownAsIs(x);
    LoneQuote(doubleQuoted);
  }

  lemma LoneQuote(doubleQuoted: bool)
    ensures RenderPieces(Cut("'", doubleQuoted)) == "'?'"
  {
    var p := Hidden("'", false);
    assert "'"[1..] == "" && "'"[..1] == "'";
    assert Cut("", doubleQuoted) == [];
    assert Cut("'", doubleQuoted) == [p];
    assert RenderPiece(p) == "'?'" && [p][1..] == [];
  }

  lemma {:induction false} ShownAsIs(x: string)
    ensures RenderPieces(AllShown(x)) == x
  {
    if x != "" {
      ShownAsIs(x[1..]);
      assert AllShown(x)[1..] == AllShown(x[1..]);
    }
  }

  lemma OneString(d: Dialect, x: string)
    requires Simple(x)
    ensures Lex(d, "'" + x + "'", Start) == [Str("'" + x + "'", true, d.MySql?)]
  {
    var s := "'" + x + "'";
    assert s[1..] == x + ['\''] && s[..|s|] == s;
    SimpleQuoted(x, '\'', d.MySql?);
    hide QuotedRest;
    assert Lex(d, "", Start) == [];
  }

  lemma EqualsString(d: Dialect, x: string)
    requires Simple(x)
    ensures Lex(d, "='" + x + "'", Start) == [Other('='), Str("'" + x + "'", true, d.MySql?)]
  {
    var s := "='" + x + "'";
    assert s[1..] == "'" + x + "'" && s[0] == '=';
    OneString(d, x);
    assert VerbatimRest(d, s, Start) == s && Delimiter(s) == "";
    hide QuotedRest, VerbatimRest;
  }

  lemma SkipsEquals(x: string, quote: char)
    requires Simple(x) && quote == '\''
    ensures SkipLiteral("='" + x + "'", quote, false) == x + "'"
  {
    var t, u := "='" + x + "'", x + "'";
    assert t[0] == '=' && t[1..] == "'" + u && ("'" + u)[1..] == u && u[0] == x[0] && x[0] in x;
    assert SkipLiteral("'" + u, quote, false) == u;
  }

  const BACKSLASH: string := "'\\'"

  lemma BackslashRead(t: string)
    requires t != "" && t[0] == '='
    ensures Lex(Postgres, BACKSLASH + t, Start) == [Str(BACKSLASH, true, false)] + Lex(Postgres, t, Start)
  {
    var s := BACKSLASH + t;
    var s1, s2 := s[1..], s[2..];
    assert s1[1..] == s2 && s2[1..] == t && s[..3] == BACKSLASH && s1[0] == '\\' && s2[0] == '\'';
    assert QuotedRest(s2, '\'', false, false) == (t, true);
    assert QuotedRest(s1, '\'', false, false) == (t, true);
    hide QuotedRest;
  }

  lemma BackslashRedacted(t: string)
    requires t != "" && t[0] == '='
    ensures Redacted(BACKSLASH + t, false) == "'?'" + Redacted(SkipLiteral(t, '\'', false), false)
  {
    var s := BACKSLASH + t;
    var s1, s2 := s[1..], s[2..];
    assert s1[1..] == s2 && s2[1..] == t && s1[0] == '\\';
    assert SkipLiteral(s2, '\'', true) == SkipLiteral(t, '\'', false);
    assert SkipLiteral(s1, '\'', false) == SkipLiteral(t, '\'', false);
    hide SkipLiteral, Redacted;
    RedactedLiteral(s, false);
  }

  /** In PostgreSQL a backslash in a plain string is no escape: the inside of the
      next string is logged, whatever it is. */
  lemma BackslashShows(x: string)
    requires Simple(x)
    ensures var s := BACKSLASH + ("='" + x + "'");
            && Lex(Postgres, s, Start) == [Str(BACKSLASH, true, false), Other('='), Str("'" + x + "'", true, false)]
            && Redacted(s, false) == "'?'" + (x + "'?'")
  {
    hide Lex, SkipLiteral, Redacted, Simple;
    BackslashRead("='" + x + "'");
    EqualsString(Postgres, x);
    BackslashRedacted("='" + x + "'");
    SkipsEquals(x, '\'');
    SimpleShown(x, false);
  }

  function NamedApostrophe(d: Dialect): (name: string)
    ensures |name| == 3
  {
    if d.MySql? then "`'`" else "\"'\""
  }

  lemma NameRead(d: Dialect, t: string)
    requires t != "" && t[0] == '='
    ensures Lex(d, NamedApostrophe(d) + t, Start) == [Verbatim(NamedApostrophe(d))] + Lex(d, t, Start)
  {
    var name := NamedApostrophe(d);
    var s := name + t;
    var s1, s2 := s[1..], s[2..];
    assert s1[1..] == s2 && s2[1..] == t && s[..3] == name && s1[0] == '\'' && s2[0] == name[0];
    assert QuotedRest(s2, name[0], false, false) == (t, true);
    assert QuotedRest(s1, name[0], false, false) == (t, true);
    hide QuotedRest;
    assert VerbatimRest(d, s, Start) == t;
    hide VerbatimRest, Delimiter;
  }

  lemma NameRedacted(d: Dialect, t: string)
    requires t != "" && t[0] == '='
    ensures Redacted(NamedApostrophe(d) + t, d.MySql?)
            == NamedApostrophe(d)[..1] + "'?'" + Redacted(SkipLiteral(t, '\'', false), d.MySql?)
  {
    var s := NamedApostrophe(d) + t;
    var s1, s2 := s[1..], s[2..];
    assert s1[1..] == s2 && s2[1..] == t;
    assert SkipLiteral(s2, '\'', false) == SkipLiteral(t, '\'', false);
    assert s[0] == NamedApostrophe(d)[0] && s1[0] == '\'' && NamedApostrophe(d)[..1] == [s[0]];
    hide SkipLiteral, Redacted;
    RedactedPlain(s, d.MySql?);
    RedactedLiteral(s1, d.MySql?);
    hide NamedApostrophe;
    Text.Associative([s[0]], ['\'', '?', '\''], Redacted(SkipLiteral(s2, '\'', false), d.MySql?));
  }

  /** An apostrophe in a quoted name does the same, in both dialects. */
  lemma QuoteInNameShows(d: Dialect, x: string)
    requires Simple(x)
    ensures var name := NamedApostrophe(d);
            var s := name + ("='" + x + "'");
            && Lex(d, s, Start) == [Verbatim(name), Other('='), Str("'" + x + "'", true, d.MySql?)]
            && Redacted(s, d.MySql?) == name[..1] + "'?'" + (x + "'?'")
  {
    hide Lex, SkipLiteral, Redacted, NamedApostrophe, Simple;
    NameRead(d, "='" + x + "'");
    EqualsString(d, x);
    NameRedacted(d, "='" + x + "'");
    SkipsEquals(x, '\'');
    SimpleShown(x, d.MySql?);
  }

  /** How a comment starts: any block, or one that a MySQL server skips although
      another would run it. */
  predicate OpensComment(d: Dialect, open: string, t: string) {
    open == "/*" || (open == "/*!" && d.MySql? && !d.runs("'*/" + t))
  }

  lemma CommentEnds(t: string, levels: nat)
    ensures BlockRest("'*/" + t, 0, levels) == t
  {
    var inside, s1 := "'*/" + t, "*/" + t;
    assert inside[1..] == s1 && s1[2..] == t;
    assert BlockRest(s1, 0, levels) == t;
  }

  lemma CommentRead(d: Dialect, open: string, t: string)
    requires OpensComment(d, open, t)
    ensures Lex(d, open + ("'*/" + t), Start) == [Verbatim(open + "'*/")] + Lex(d, t, Start)
  {
    var inside := "'*/" + t;
    var s := open + inside;
    assert s[|open|..] == inside;
    CommentEnds(t, if d.Postgres? then |s| else if open == "/*!" then 1 else 0);
    hide BlockRest, QuotedRest;
    assert s[0] == '/' && s[1] == '*' && s[2] == (if open == "/*" then '\'' else '!');
    assert VerbatimRest(d, s, Start) == t;
    assert s[..|s| - |t|] == open + "'*/";
    hide VerbatimRest, QuotedRest, Delimiter, DollarRest;
  }

  /** Text without an opening quote is logged as it is. */
  lemma PlainPrefix(p: string, s: string, doubleQuoted: bool)
    requires forall c | c in p :: !Opens(c, doubleQuoted)
    ensures Redacted(p + s, doubleQuoted) == p + Redacted(s, doubleQuoted)
  {
    hide Redacted, Cut, Opens;
    TextShown(p, s, doubleQuoted);
    RedactedPieces(p + s, doubleQuoted);
    RedactedPieces(s, doubleQuoted);
    RenderAppend(AllShown(p), Cut(s, doubleQuoted));
    ShownAsIs(p);
  }

  lemma CommentRedacted(open: string, t: string, doubleQuoted: bool)
    requires open in {"/*", "/*!"} && t != "" && t[0] == '='
    ensures Redacted(open + ("'*/" + t), doubleQuoted) == open + ("'?'" + Redacted(SkipLiteral(t, '\'', false), doubleQuoted))
  {
    var inside := "'*/" + t;
    var s1, s2 := "*/" + t, "/" + t;
    assert inside[1..] == s1 && s1[1..] == s2 && s2[1..] == t;
    assert SkipLiteral(s2, '\'', false) == SkipLiteral(t, '\'', false);
    assert SkipLiteral(s1, '\'', false) == SkipLiteral(t, '\'', false);
    hide SkipLiteral;
    RedactedLiteral(inside, doubleQuoted);
    hide Redacted;
    PlainPrefix(open, inside, doubleQuoted);
  }

  /** So does an apostrophe in a comment, of whatever kind. */
  lemma QuoteInCommentShows(d: Dialect, open: string, x: string)
    requires Simple(x) && OpensComment(d, open, "='" + x + "'")
    ensures var s := open + ("'*/" + ("='" + x + "'"));
            && Lex(d, s, Start) == [Verbatim(open + "'*/"), Other('='), Str("'" + x + "'", true, d.MySql?)]
            && Redacted(s, d.MySql?) == open + ("'?'" + (x + "'?'"))
  {
    var t := "='" + x + "'";
    assert open in {"/*", "/*!"} && t[0] == '=';
    hide Lex, SkipLiteral, Redacted, Simple, OpensComment;
    CommentRead(d, open, t);
    EqualsString(d, x);
    CommentRedacted(open, t, d.MySql?);
    SkipsEquals(x, '\'');
    SimpleShown(x, d.MySql?);
  }

  /** A dollar-quoted string is logged as it is. */
  lemma DollarShows(x: string)
    requires Simple(x)
    ensures var s := "$$" + x + "$$"; Lex(Postgres, s, Start) == [Dollar(s)] && Redacted(s, false) == s
  {
    hide Lex, Redacted;
    DollarRead(x);
    NothingHidden("$$" + x + "$$");
  }

  lemma DollarRead(x: string)
    requires Simple(x)
    ensures var s := "$$" + x + "$$"; Lex(Postgres, s, Start) == [Dollar(s)]
  {
    var s := "$$" + x + "$$";
    assert Delimiter(s) == "$$" by {
      assert s[1..][0] == '$';
    }
    assert s[2..] == x + "$$" && s[..|s|] == s;
    DollarCloses(x);
    assert VerbatimRest(Postgres, s, Start) == s;
    assert Lex(Postgres, "", Start) == [];
    hide QuotedRest, DollarRest, Delimiter, VerbatimRest;
  }

  lemma NothingHidden(s: string)
    requires '\'' !in s
    ensures Redacted(s, false) == s
  {
    hide Redacted, Cut;
    TextShown(s, "", false);
    assert s + "" == s;
    RedactedPieces(s, false);
    ShownAsIs(s);
    assert Cut("", false) == [] by { CutNothing(); }
    assert AllShown(s) + [] == AllShown(s);
  }

  lemma CutNothing()
    ensures Cut("", false) == []
  {
  }

  lemma {:induction false} DollarCloses(x: string)
    requires forall c | c in x :: c != '$'
    ensures DollarRest(x + "$$", "$$") == ""
  {
    var s := x + "$$";
    if x == "" {
      assert s == "$$" && s[2..] == "";
    } else {
      assert s[0] == x[0] && x[0] in x && s[1..] == x[1..] + "$$" && forall c | c in x[1..] :: c in x;
      DollarCloses(x[1..]);
    }
  }
}
