/** Redaction of string literals in logged SQL. */
module Redact {
  import Text

  /** A statement as the redactor sees it: plain characters and literals. */
  datatype Token = Plain(c: char) | Literal(quote: char)

  predicate Opens(c: char, doubleQuoted: bool) {
    c == '\'' || (doubleQuoted && c == '"')
  }

  /** What follows the literal whose inside starts at `s`: up to the first quote
      that is neither escaped nor doubled, or to the end. */
  function SkipLiteral(s: string, quote: char, escaped: bool): (rest: string)
    ensures |rest| <= |s|
    decreases |s|
  {
    if s == "" then ""
    else if escaped then SkipLiteral(s[1..], quote, false)
    else if s[0] == '\\' then SkipLiteral(s[1..], quote, true)
    else if s[0] == quote then
      if |s| > 1 && s[1] == quote then SkipLiteral(s[2..], quote, false) else s[1..]
    else SkipLiteral(s[1..], quote, false)
  }

  function Tokens(s: string, doubleQuoted: bool): seq<Token>
    decreases |s|
  {
    if s == "" then []
    else if Opens(s[0], doubleQuoted) then [Literal(s[0])] + Tokens(SkipLiteral(s[1..], s[0], false), doubleQuoted)
    else [Plain(s[0])] + Tokens(s[1..], doubleQuoted)
  }

  function Render(ts: seq<Token>): string {
    if ts == [] then "" else Shown(ts[0]) + Render(ts[1..])
  }

  function Shown(t: Token): string {
    match t
    case Plain(c) => [c]
    case Literal(q) => [q, '?', q]
  }

  function Redacted(s: string, doubleQuoted: bool): string {
    Render(Tokens(s, doubleQuoted))
  }

  method SkipToEnd(inside: string, quote: char) returns (rest: string)
    ensures rest == SkipLiteral(inside, quote, false)
  {
    rest := inside;
    var escaped := false;
    while rest != ""
      invariant SkipLiteral(rest, quote, escaped) == SkipLiteral(inside, quote, false)
      decreases |rest|
    {
      var n := rest[0];
      rest := rest[1..];
      if escaped {
        escaped := false;
      } else if n == '\\' {
        escaped := true;
      } else if n == quote {
        if rest != "" && rest[0] == quote {
          rest := rest[1..];
        } else {
          return;
        }
      }
    }
  }

  lemma RedactedLiteral(s: string, doubleQuoted: bool)
    requires s != "" && Opens(s[0], doubleQuoted)
    ensures Redacted(s, doubleQuoted) == [s[0], '?', s[0]] + Redacted(SkipLiteral(s[1..], s[0], false), doubleQuoted)
  {
    hide SkipLiteral;
    var ts := Tokens(SkipLiteral(s[1..], s[0], false), doubleQuoted);
    assert ([Literal(s[0])] + ts)[1..] == ts;
  }

  lemma RedactedPlain(s: string, doubleQuoted: bool)
    requires s != "" && !Opens(s[0], doubleQuoted)
    ensures Redacted(s, doubleQuoted) == [s[0]] + Redacted(s[1..], doubleQuoted)
  {
    var ts := Tokens(s[1..], doubleQuoted);
    assert ([Plain(s[0])] + ts)[1..] == ts;
  }

  method RedactSqlLiterals(sql: string, doubleQuoted: bool) returns (out: string)
    ensures out == Redacted(sql, doubleQuoted)
  {
    out := "";
    var rest := sql;
    assert Redacted("", doubleQuoted) == "";
    hide Redacted, SkipLiteral, Opens;
    while rest != ""
      invariant out + Redacted(rest, doubleQuoted) == Redacted(sql, doubleQuoted)
      decreases |rest|
    {
      var c := rest[0];
      if Opens(c, doubleQuoted) {
        RedactedLiteral(rest, doubleQuoted);
        rest := rest[1..];
        ghost var before := out;
        out := out + [c];
        out := out + ['?'];
        out := out + [c];
        assert out == before + [c, '?', c];
        rest := SkipToEnd(rest, c);
        Text.Associative(before, [c, '?', c], Redacted(rest, doubleQuoted));
      } else {
        RedactedPlain(rest, doubleQuoted);
        rest := rest[1..];
        Text.Associative(out, [c], Redacted(rest, doubleQuoted));
        out := out + [c];
      }
    }
  }

  // ---- Idempotence ----

  /** Token lists that come from a statement: plain tokens open no literal and
      no two literals with the same quote touch. */
  predicate Proper(ts: seq<Token>, doubleQuoted: bool) {
    ts == [] ||
    (&& (match ts[0]
         case Plain(c) => !Opens(c, doubleQuoted)
         case Literal(q) => Opens(q, doubleQuoted) && (|ts| > 1 ==> ts[1] != Literal(q)))
     && Proper(ts[1..], doubleQuoted))
  }

  lemma {:induction false} SkippedStart(s: string, quote: char, escaped: bool)
    requires quote != '\\'
    ensures var rest := SkipLiteral(s, quote, escaped); rest == "" || rest[0] != quote
    decreases |s|
  {
    if s == "" {
    } else if escaped {
      SkippedStart(s[1..], quote, false);
    } else if s[0] == '\\' {
      SkippedStart(s[1..], quote, true);
    } else if s[0] == quote {
      if |s| > 1 && s[1] == quote {
        SkippedStart(s[2..], quote, false);
      }
    } else {
      SkippedStart(s[1..], quote, false);
    }
  }

  lemma {:induction false} TokensProper(s: string, doubleQuoted: bool)
    ensures Proper(Tokens(s, doubleQuoted), doubleQuoted)
    decreases |s|
  {
    if s != "" {
      if Opens(s[0], doubleQuoted) {
        var rest := SkipLiteral(s[1..], s[0], false);
        SkippedStart(s[1..], s[0], false);
        TokensProper(rest, doubleQuoted);
      } else {
        TokensProper(s[1..], doubleQuoted);
      }
    }
  }

  lemma RenderStart(ts: seq<Token>, quote: char)
    requires ts != [] ==> ts[0] != Literal(quote) && ts[0] != Plain(quote)
    ensures Render(ts) == "" || Render(ts)[0] != quote
  {
  }

  /** A literal is read as one token, whatever is inside it. */
  lemma LiteralRead(quote: char, body: string, after: string, doubleQuoted: bool)
    requires Opens(quote, doubleQuoted) && LiteralBody(body, quote, false)
    requires after == "" || after[0] != quote
    ensures Tokens([quote] + body + [quote] + after, doubleQuoted) == [Literal(quote)] + Tokens(after, doubleQuoted)
  {
    hide SkipLiteral, LiteralBody;
    var s := [quote] + body + [quote] + after;
    assert s[1..] == body + [quote] + after;
    SkipsBody(body, quote, false, after);
  }

  lemma ShownLiteral(q: char, rest: string)
    ensures [q, '?', q] + rest == [q] + "?" + [q] + rest
  {
  }

  lemma {:induction false} TokensOfRender(ts: seq<Token>, doubleQuoted: bool)
    requires Proper(ts, doubleQuoted)
    ensures Tokens(Render(ts), doubleQuoted) == ts
  {
    hide SkipLiteral;
    if ts != [] {
      var rest := Render(ts[1..]);
      TokensOfRender(ts[1..], doubleQuoted);
      match ts[0]
      case Plain(c) =>
        assert Render(ts)[1..] == rest;
      case Literal(q) =>
        RenderStart(ts[1..], q);
        assert "?"[1..] == "" && LiteralBody("?", q, false);
        LiteralRead(q, "?", rest, doubleQuoted);
        assert Render(ts) == [q, '?', q] + rest;
        hide Render, Tokens;
        ShownLiteral(q, rest);
    }
  }

  /** Redacting what is already redacted changes nothing. */
  lemma RedactIdempotent(s: string, doubleQuoted: bool)
    ensures Redacted(Redacted(s, doubleQuoted), doubleQuoted) == Redacted(s, doubleQuoted)
  {
    TokensProper(s, doubleQuoted);
    TokensOfRender(Tokens(s, doubleQuoted), doubleQuoted);
  }

  // ---- Non-interference ----

  /** The inside of a literal that does not end early: every quote in it is
      escaped or doubled, and it ends on no open escape. */
  predicate LiteralBody(b: string, quote: char, escaped: bool)
    decreases |b|
  {
    if b == "" then !escaped
    else if escaped then LiteralBody(b[1..], quote, false)
    else if b[0] == '\\' then LiteralBody(b[1..], quote, true)
    else if b[0] == quote then |b| > 1 && b[1] == quote && LiteralBody(b[2..], quote, false)
    else LiteralBody(b[1..], quote, false)
  }

  lemma {:induction false} SkipsBody(b: string, quote: char, escaped: bool, after: string)
    requires LiteralBody(b, quote, escaped) && quote != '\\'
    requires after == "" || after[0] != quote
    ensures SkipLiteral(b + [quote] + after, quote, escaped) == after
    decreases |b|
  {
    var s := b + [quote] + after;
    if b == "" {
      assert s[1..] == after;
    } else {
      assert s[1..] == b[1..] + [quote] + after;
      if escaped {
        SkipsBody(b[1..], quote, false, after);
      } else if b[0] == '\\' {
        SkipsBody(b[1..], quote, true, after);
      } else if b[0] == quote {
        assert s[2..] == b[2..] + [quote] + after;
        SkipsBody(b[2..], quote, false, after);
      } else {
        SkipsBody(b[1..], quote, false, after);
      }
    }
  }

  /** Where a scan of the statement is: outside literals, inside one, or just
      after a quote that closes it unless the same quote follows. */
  datatype Place = Outside | Inside(quote: char, escaped: bool) | MaybeClosed(quote: char)

  function Move(at: Place, c: char, doubleQuoted: bool): Place {
    match at
    case Inside(q, escaped) =>
      if escaped then Inside(q, false)
      else if c == '\\' then Inside(q, true)
      else if c == q then MaybeClosed(q)
      else at
    case MaybeClosed(q) =>
      if c == q then Inside(q, false) else if Opens(c, doubleQuoted) then Inside(c, false) else Outside
    case Outside => if Opens(c, doubleQuoted) then Inside(c, false) else Outside
  }

  function Scan(at: Place, p: string, doubleQuoted: bool): Place
    decreases |p|
  {
    if p == "" then at else Scan(Move(at, p[0], doubleQuoted), p[1..], doubleQuoted)
  }

  /** Every literal is closed when `next` comes. */
  predicate Closed(at: Place, next: char) {
    at.Outside? || (at.MaybeClosed? && at.quote != next)
  }

  predicate Complete(p: string, doubleQuoted: bool, next: char) {
    Closed(Scan(Outside, p, doubleQuoted), next)
  }

  lemma {:induction false} SkipAppend(b: string, quote: char, escaped: bool, doubleQuoted: bool, s: string)
    requires s != "" && quote != '\\' && Closed(Scan(Inside(quote, escaped), b, doubleQuoted), s[0])
    ensures var rest := SkipLiteral(b, quote, escaped);
            SkipLiteral(b + s, quote, escaped) == rest + s && Complete(rest, doubleQuoted, s[0])
    decreases |b|
  {
    if b != "" {
      assert (b + s)[1..] == b[1..] + s;
      if escaped {
        SkipAppend(b[1..], quote, false, doubleQuoted, s);
      } else if b[0] == '\\' {
        SkipAppend(b[1..], quote, true, doubleQuoted, s);
      } else if b[0] == quote {
        assert Scan(Inside(quote, escaped), b, doubleQuoted) == Scan(MaybeClosed(quote), b[1..], doubleQuoted);
        if |b| > 1 {
          var more := b[1..];
          assert Scan(MaybeClosed(quote), more, doubleQuoted)
              == Scan(Move(MaybeClosed(quote), more[0], doubleQuoted), more[1..], doubleQuoted);
          assert (b + s)[2..] == b[2..] + s && more[1..] == b[2..];
          if b[1] == quote {
            SkipAppend(b[2..], quote, false, doubleQuoted, s);
          } else {
            assert Scan(Outside, more, doubleQuoted)
                == Scan(Move(Outside, more[0], doubleQuoted), more[1..], doubleQuoted);
          }
        }
      } else {
        SkipAppend(b[1..], quote, false, doubleQuoted, s);
      }
    }
  }

  lemma {:induction false} TokensAppend(p: string, doubleQuoted: bool, s: string)
    requires s != "" && Complete(p, doubleQuoted, s[0])
    ensures Tokens(p + s, doubleQuoted) == Tokens(p, doubleQuoted) + Tokens(s, doubleQuoted)
    decreases |p|
  {
    if p == "" {
      assert p + s == s;
    } else {
      assert (p + s)[1..] == p[1..] + s;
      if Opens(p[0], doubleQuoted) {
        SkipAppend(p[1..], p[0], false, doubleQuoted, s);
        TokensAppend(SkipLiteral(p[1..], p[0], false), doubleQuoted, s);
      } else {
        TokensAppend(p[1..], doubleQuoted, s);
      }
    }
  }

  /** Statements that differ only inside a literal, as the redactor reads literals,
      are logged alike. */
  lemma LiteralsDoNotShow(p: string, quote: char, b1: string, b2: string, after: string, doubleQuoted: bool)
    requires Opens(quote, doubleQuoted) && Complete(p, doubleQuoted, quote)
    requires LiteralBody(b1, quote, false) && LiteralBody(b2, quote, false)
    requires after == "" || after[0] != quote
    ensures Redacted(p + ([quote] + b1 + [quote] + after), doubleQuoted)
         == Redacted(p + ([quote] + b2 + [quote] + after), doubleQuoted)
  {
    hide LiteralBody, Complete, Render, Opens;
    TokensAppend(p, doubleQuoted, [quote] + b1 + [quote] + after);
    TokensAppend(p, doubleQuoted, [quote] + b2 + [quote] + after);
    LiteralRead(quote, b1, after, doubleQuoted);
    LiteralRead(quote, b2, after, doubleQuoted);
    hide Tokens;
  }

  /** No quote in the text ends the literal. */
  predicate NeverEnds(s: string, quote: char, escaped: bool)
    decreases |s|
  {
    if s == "" then true
    else if escaped then NeverEnds(s[1..], quote, false)
    else if s[0] == '\\' then NeverEnds(s[1..], quote, true)
    else if s[0] == quote then |s| > 1 && s[1] == quote && NeverEnds(s[2..], quote, false)
    else NeverEnds(s[1..], quote, false)
  }

  lemma {:induction false} SkipsAll(s: string, quote: char, escaped: bool)
    requires NeverEnds(s, quote, escaped)
    ensures SkipLiteral(s, quote, escaped) == ""
    decreases |s|
  {
    if s == "" {
    } else if escaped {
      SkipsAll(s[1..], quote, false);
    } else if s[0] == '\\' {
      SkipsAll(s[1..], quote, true);
    } else if s[0] == quote {
      SkipsAll(s[2..], quote, false);
    } else {
      SkipsAll(s[1..], quote, false);
    }
  }

  lemma {:induction false} RenderAppend(a: seq<Token>, b: seq<Token>)
    ensures Render(a + b) == Render(a) + Render(b)
  {
    hide Shown;
    if a == [] {
      assert a + b == b;
    } else {
      var rest := a[1..];
      RenderAppend(rest, b);
      var ab := a + b;
      assert ab[0] == a[0] && ab[1..] == rest + b;
      hide Render;
      Text.Associative(Shown(a[0]), Render(rest), Render(b));
    }
  }

  /** What the redactor reads as an unterminated literal swallows the rest. */
  lemma UnterminatedSwallows(p: string, quote: char, tail: string, doubleQuoted: bool)
    requires Opens(quote, doubleQuoted) && Complete(p, doubleQuoted, quote) && NeverEnds(tail, quote, false)
    ensures Redacted(p + ([quote] + tail), doubleQuoted) == Redacted(p, doubleQuoted) + [quote, '?', quote]
  {
    var s := [quote] + tail;
    TokensAppend(p, doubleQuoted, s);
    assert s[1..] == tail;
    SkipsAll(tail, quote, false);
    assert Tokens(s, doubleQuoted) == [Literal(quote)];
    RenderAppend(Tokens(p, doubleQuoted), [Literal(quote)]);
    assert [Literal(quote)][1..] == [];
    assert Render([Literal(quote)]) == [quote, '?', quote];
  }
}
