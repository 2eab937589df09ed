/** Tokens of SQL text, with the spaces before them, and a lexer that recovers the tokens. */
module SqlText {
  datatype Token = Ident(name: string) | Word(text: string) | Sym(text: string) | Quoted(text: string) | Mark(c: char) | Junk

  /** A token and the number of spaces before it. */
  datatype Spaced = Spaced(spaces: nat, token: Token)

  predicate Letter(c: char) {
    'a' <= c <= 'z'
  }

  predicate SymChar(c: char) {
    c == '<' || c == '=' || c == '>'
  }

  /** ( ) , ? and everything else that stands alone. */
  predicate MarkChar(c: char) {
    !Letter(c) && !SymChar(c) && c != ' ' && c != '`' && c != '\''
  }

  predicate All(s: string, p: char -> bool) {
    forall i :: 0 <= i < |s| ==> p(s[i])
  }

  predicate Free(s: string, c: char) {
    forall i :: 0 <= i < |s| ==> s[i] != c
  }

  predicate GoodToken(t: Token) {
    match t
    case Ident(name) => Free(name, '`')
    case Word(text) => text != "" && All(text, Letter)
    case Sym(text) => text != "" && All(text, SymChar)
    case Quoted(text) => Free(text, '\'')
    case Mark(c) => MarkChar(c)
    case Junk => false
  }

  function TokenText(t: Token): string {
    match t
    case Ident(name) => "`" + name + "`"
    case Word(text) => text
    case Sym(text) => text
    case Quoted(text) => "'" + text + "'"
    case Mark(c) => [c]
    case Junk => ""
  }

  function Spaces(n: nat): string {
    if n == 0 then "" else " " + Spaces(n - 1)
  }

  function ShowOne(t: Spaced): string {
    Spaces(t.spaces) + TokenText(t.token)
  }

  function Show(ts: seq<Spaced>): string {
    if ts == [] then "" else ShowOne(ts[0]) + Show(ts[1..])
  }

  function Tokens(ts: seq<Spaced>): seq<Token> {
    if ts == [] then [] else [ts[0].token] + Tokens(ts[1..])
  }

  // The lexer.

  /** How many characters from the front satisfy p. */
  function RunLength(s: string, p: char -> bool): (n: nat)
    ensures n <= |s| && (forall i :: 0 <= i < n ==> p(s[i])) && (n < |s| ==> !p(s[n]))
  {
    if s == "" || !p(s[0]) then 0 else 1 + RunLength(s[1..], p)
  }

  function Until(s: string, c: char): (n: nat)
    ensures n <= |s| && (forall i :: 0 <= i < n ==> s[i] != c) && (n < |s| ==> s[n] == c)
  {
    if s == "" || s[0] == c then 0 else 1 + Until(s[1..], c)
  }

  function Lex(s: string): seq<Token>
    decreases |s|
  {
    if s == "" then []
    else if s[0] == ' ' then Lex(s[1..])
    else if s[0] == '`' || s[0] == '\'' then
      var n := Until(s[1..], s[0]);
      if n == |s| - 1 then [Junk]
      else [if s[0] == '`' then Ident(s[1..][..n]) else Quoted(s[1..][..n])] + Lex(s[1..][n + 1..])
    else if Letter(s[0]) then
      var n := RunLength(s, Letter);
      [Word(s[..n])] + Lex(s[n..])
    else if SymChar(s[0]) then
      var n := RunLength(s, SymChar);
      [Sym(s[..n])] + Lex(s[n..])
    else [Mark(s[0])] + Lex(s[1..])
  }

  /** A word or symbol must not run into another one. */
  predicate Apart(t: Token, rest: string) {
    && (t.Word? && rest != "" ==> !Letter(rest[0]))
    && (t.Sym? && rest != "" ==> !SymChar(rest[0]))
  }

  lemma RunLengthIs(a: string, rest: string, p: char -> bool)
    requires All(a, p) && (rest != "" ==> !p(rest[0]))
    ensures RunLength(a + rest, p) == |a|
  {
    var s := a + rest;
    assert forall i :: 0 <= i < |a| ==> s[i] == a[i];
    assert rest != "" ==> s[|a|] == rest[0];
  }

  lemma UntilIs(a: string, c: char, rest: string)
    requires Free(a, c)
    ensures Until(a + [c] + rest, c) == |a|
  {
    var s := a + [c] + rest;
    assert s[|a|] == c && forall i :: 0 <= i < |a| ==> s[i] == a[i];
  }

  lemma LexQuote(q: char, a: string, rest: string)
    requires (q == '`' || q == '\'') && Free(a, q)
    ensures Lex([q] + a + [q] + rest) == [if q == '`' then Ident(a) else Quoted(a)] + Lex(rest)
  {
    var s := [q] + a + [q] + rest;
    assert s[1..] == a + [q] + rest;
    UntilIs(a, q, rest);
    assert (a + [q] + rest)[..|a|] == a && (a + [q] + rest)[|a| + 1..] == rest;
    hide Until;
  }

  lemma LexRun(a: string, rest: string)
    requires a != "" && (All(a, Letter) || All(a, SymChar))
    requires Apart(if Letter(a[0]) then Word(a) else Sym(a), rest)
    ensures Lex(a + rest) == [if Letter(a[0]) then Word(a) else Sym(a)] + Lex(rest)
  {
    var s := a + rest;
    RunLengthIs(a, rest, if Letter(a[0]) then Letter else SymChar);
    assert s[..|a|] == a && s[|a|..] == rest && s[0] == a[0];
    hide RunLength;
  }

  /** One token from the front of the text. */
  lemma LexToken(t: Token, rest: string)
    requires GoodToken(t) && Apart(t, rest)
    ensures Lex(TokenText(t) + rest) == [t] + Lex(rest)
  {
    match t
    case Ident(name) =>
      LexQuote('`', name, rest);
      assert "`" + name + "`" + rest == ['`'] + name + ['`'] + rest;
    case Quoted(text) =>
      LexQuote('\'', text, rest);
      assert "'" + text + "'" + rest == ['\''] + text + ['\''] + rest;
    case Word(text) =>
      LexRun(text, rest);
    case Sym(text) =>
      assert SymChar(text[0]);
      LexRun(text, rest);
    case Mark(c) =>
      assert ([c] + rest)[1..] == rest;
  }

  lemma {:induction false} LexSpaces(n: nat, rest: string)
    ensures Lex(Spaces(n) + rest) == Lex(rest)
  {
    if n > 0 {
      LexSpaces(n - 1, rest);
      assert (Spaces(n) + rest)[1..] == Spaces(n - 1) + rest;
    } else {
      assert "" + rest == rest;
    }
  }

  /** Well-formed tokens, and where there is no space between two, the second stands alone. */
  ghost predicate Separate(ts: seq<Spaced>) {
    && (forall i :: 0 <= i < |ts| ==> GoodToken(ts[i].token))
    && (forall i :: 0 < i < |ts| ==> ts[i].spaces > 0 || ts[i].token.Mark? || ts[i - 1].token.Mark?)
  }

  lemma ShowStart(ts: seq<Spaced>, t: Token)
    requires Separate(ts) && GoodToken(t) && (ts != [] ==> ts[0].spaces > 0 || ts[0].token.Mark? || t.Mark?)
    ensures Apart(t, Show(ts))
  {
    if ts != [] {
      if ts[0].spaces > 0 {
        assert Show(ts)[0] == ' ';
      } else {
        assert Show(ts)[0] == TokenText(ts[0].token)[0];
      }
    }
  }

  /** Lexing what was shown gives the tokens back. */
  lemma {:induction false} LexShow(ts: seq<Spaced>)
    requires Separate(ts)
    ensures Lex(Show(ts)) == Tokens(ts)
  {
    if ts != [] {
      var t, rest := ts[0], ts[1..];
      assert forall i :: 0 <= i < |rest| ==> rest[i] == ts[i + 1];
      LexShow(rest);
      ShowStart(rest, t.token);
      LexToken(t.token, Show(rest));
      LexSpaces(t.spaces, TokenText(t.token) + Show(rest));
      assert Spaces(t.spaces) + TokenText(t.token) + Show(rest) == Spaces(t.spaces) + (TokenText(t.token) + Show(rest));
    }
  }

  lemma Associate(x: string, y: string, z: string)
    ensures x + (y + z) == (x + y) + z
  {
  }

  lemma ShowCons(t: Spaced, ts: seq<Spaced>)
    ensures Show([t] + ts) == ShowOne(t) + Show(ts)
  {
    assert ([t] + ts)[1..] == ts;
    hide ShowOne;
  }

  lemma ShowNil()
    ensures Show([]) == ""
  {
  }

  lemma {:induction false} ShowAppend(a: seq<Spaced>, b: seq<Spaced>)
    ensures Show(a + b) == Show(a) + Show(b)
  {
    hide *;
    if a == [] {
      assert a + b == b;
      ShowNil();
    } else {
      var rest := a[1..];
      ShowAppend(rest, b);
      assert a == [a[0]] + rest && a + b == [a[0]] + (rest + b);
      ShowCons(a[0], rest);
      ShowCons(a[0], rest + b);
      Associate(ShowOne(a[0]), Show(rest), Show(b));
    }
  }

  lemma {:induction false} TokensAppend(a: seq<Spaced>, b: seq<Spaced>)
    ensures Tokens(a + b) == Tokens(a) + Tokens(b)
  {
    if a == [] {
      assert a + b == b;
    } else {
      TokensAppend(a[1..], b);
      assert (a + b)[1..] == a[1..] + b;
    }
  }
}
