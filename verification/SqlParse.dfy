/** Reading a WHERE clause back: precedence of and over or, parentheses, and arguments bound in order. */
module SqlParse {
  import opened Strconv
  import opened Conditions
  import opened SqlText
  import opened SqlWhere
  import opened SqlMeaning

  // The tokens of a clause.

  function W(text: string): Spaced {
    Spaced(1, Word(text))
  }

  function M(c: char): Spaced {
    Spaced(0, Mark(c))
  }

  function Hole(): Spaced {
    Spaced(1, Mark('?'))
  }

  /** ?,?,...,? */
  function HoleList(n: nat): seq<Spaced>
    requires n >= 1
  {
    if n == 1 then [M('?')] else HoleList(n - 1) + [M(','), M('?')]
  }

  function OpTokens(op: Op, n: nat): seq<Spaced>
    requires ArityOk(op, n)
  {
    match op
    case Eq => [Spaced(1, Sym("=")), Hole()]
    case NotEq => [Spaced(1, Sym("<>")), Hole()]
    case Lt => [Spaced(1, Sym("<")), Hole()]
    case Lte => [Spaced(1, Sym("<=")), Hole()]
    case Gt => [Spaced(1, Sym(">")), Hole()]
    case Gte => [Spaced(1, Sym(">=")), Hole()]
    case IsNull => [W("is"), W("null")]
    case IsNotNull => [W("is"), W("not"), W("null")]
    case Between => [W("between"), Hole(), W("and"), Hole()]
    case NotBetween => [W("not"), W("between"), Hole(), W("and"), Hole()]
    case In => [W("in"), M('(')] + HoleList(n) + [M(')')]
    case NotIn => [W("not"), W("in"), M('(')] + HoleList(n) + [M(')')]
    case Like => [W("like"), W("concat"), M('('), Spaced(0, Quoted("%")), M(','), M('?'), M(','), Spaced(0, Quoted("%")), M(')')]
    case NotLike =>
      [W("not"), W("like"), W("concat"), M('('), Spaced(0, Quoted("%")), M(','), M('?'), M(','), Spaced(0, Quoted("%")), M(')')]
  }

  predicate GoodTerm(t: Term)
    decreases t
  {
    match t
    case Test(op, key, args) => ArityOk(op, |args|) && Free(key, '`')
    case Any(alts) => alts != [] && GoodAlts(alts)
  }

  predicate GoodTerms(ts: seq<Term>)
    decreases ts
  {
    forall i :: 0 <= i < |ts| ==> GoodTerm(ts[i])
  }

  function TermTokens(t: Term): seq<Spaced>
    requires GoodTerm(t)
    decreases t
  {
    match t
    case Test(op, key, args) => [Spaced(1, Ident(key))] + OpTokens(op, |args|)
    case Any(alts) => [Spaced(1, Mark('('))] + AltsTokens(alts) + [Spaced(1, Mark(')'))]
  }

  predicate GoodAlts(alts: seq<Alt>)
    decreases alts
  {
    forall i :: 0 <= i < |alts| ==> alts[i].terms != [] && GoodTerms(alts[i].terms)
  }

  /** Trimming leaves a space before each or. */
  function AltsTokens(alts: seq<Alt>): seq<Spaced>
    requires GoodAlts(alts)
    decreases alts
  {
    if alts == [] then []
    else
      var n := |alts| - 1;
      (if n == 0 then [] else AltsTokens(alts[..n]) + [Spaced(2, Word("or"))]) + ConjTokens(alts[n].terms)
  }

  function ConjTokens(ts: seq<Term>): seq<Spaced>
    requires GoodTerms(ts)
    decreases ts
  {
    if ts == [] then []
    else
      var n := |ts| - 1;
      (if n == 0 then [] else ConjTokens(ts[..n]) + [W("and")]) + TermTokens(ts[n])
  }

  // The text is these tokens.

  lemma {:induction false} MarksText(n: nat)
    requires n >= 1
    ensures |Marks(n)| == 2 * n && Marks(n)[..2 * n - 1] == Show(HoleList(n))
  {
    MarksLength(n);
    if n > 1 {
      MarksText(n - 1);
      ShowAppend(HoleList(n - 1), [M(','), M('?')]);
      assert Show([M(','), M('?')]) == ",?";
      MarksLength(n - 1);
      assert Marks(n - 1) == Marks(n - 1)[..2 * (n - 1) - 1] + ",";
    }
  }

  lemma ShowPair(a: Spaced, b: Spaced)
    ensures Show([a, b]) == ShowOne(a) + ShowOne(b)
  {
    assert [a, b] == [a] + [b] && [b] == [b] + [];
    ShowCons(a, [b]);
    ShowCons(b, []);
    ShowNil();
    hide Show, ShowOne;
  }

  lemma ShowThree(a: Spaced, b: Spaced, c: Spaced)
    ensures Show([a, b, c]) == ShowOne(a) + ShowOne(b) + ShowOne(c)
  {
    assert [a, b, c] == [a] + [b, c];
    ShowCons(a, [b, c]);
    ShowPair(b, c);
    hide Show, ShowOne;
  }

  lemma WordText(w: string)
    ensures ShowOne(W(w)) == " " + w && ShowOne(Hole()) == " ?"
  {
    assert Spaces(1) == " ";
  }

  lemma MarkText(c: char)
    ensures ShowOne(M(c)) == [c]
  {
    assert Spaces(0) == "";
  }

  lemma LikeParts()
    ensures Show([W("like"), W("concat"), M('(')]) == " like concat("
    ensures Show([Spaced(0, Quoted("%")), M(','), M('?')]) == "'%',?"
    ensures Show([M(','), Spaced(0, Quoted("%")), M(')')]) == ",'%')"
  {
    var q := Spaced(0, Quoted("%"));
    assert ShowOne(q) == "'%'" by { assert Spaces(0) == ""; }
    hide *;
    LikeStart();
    ShowThree(q, M(','), M('?'));
    ShowThree(M(','), q, M(')'));
    MarkText(',');
    MarkText('?');
    MarkText(')');
  }

  lemma LikeStart()
    ensures Show([W("like"), W("concat"), M('(')]) == " like concat("
  {
    hide *;
    ShowThree(W("like"), W("concat"), M('('));
    WordText("like");
    WordText("concat");
    MarkText('(');
  }

  lemma LikeShow()
    ensures Show(OpTokens(Like, 1)) == " like concat('%',?,'%')"
  {
    var q := Spaced(0, Quoted("%"));
    var a, b, c := [W("like"), W("concat"), M('(')], [q, M(','), M('?')], [M(','), q, M(')')];
    assert OpTokens(Like, 1) == a + (b + c);
    hide *;
    ShowAppend(a, b + c);
    ShowAppend(b, c);
    LikeParts();
    LikeLiteral();
  }

  lemma LikeLiteral()
    ensures " like concat(" + ("'%',?" + ",'%')") == " like concat('%',?,'%')"
  {
  }

  /** " not" before the tokens of the positive operator. */
  lemma NotShow(ts: seq<Spaced>)
    ensures Show([W("not")] + ts) == " not" + Show(ts)
  {
    ShowCons(W("not"), ts);
    WordText("not");
    hide Show, ShowOne;
  }

  lemma InShow(n: nat)
    requires n >= 1
    ensures Show(OpTokens(In, n)) == OpText(In, n)
  {
    var a, c := [W("in"), M('(')], [M(')')];
    assert OpTokens(In, n) == a + HoleList(n) + c && c == c + [];
    InText(n);
    hide *;
    MarksText(n);
    ShowAppend(a + HoleList(n), c);
    ShowAppend(a, HoleList(n));
    ShowPair(W("in"), M('('));
    ShowCons(M(')'), []);
    ShowNil();
    WordText("in");
    MarkText('(');
    MarkText(')');
    InLiteral(Show(HoleList(n)));
  }

  lemma InText(n: nat)
    requires n >= 1
    ensures |Marks(n)| == 2 * n && OpText(In, n) == " in(" + Marks(n)[..2 * n - 1] + ")"
  {
    MarksLength(n);
    hide Marks;
  }

  lemma InLiteral(s: string)
    ensures ((" " + "in") + ['(']) + s + (([')']) + "") == " in(" + s + ")"
  {
  }

  lemma BetweenShow()
    ensures Show(OpTokens(Between, 2)) == " between ? and ?"
  {
    var a, b := [W("between"), Hole()], [W("and"), Hole()];
    assert OpTokens(Between, 2) == a + b;
    hide *;
    ShowAppend(a, b);
    ShowPair(W("between"), Hole());
    ShowPair(W("and"), Hole());
    WordText("between");
    WordText("and");
    BetweenLiteral();
  }

  lemma BetweenLiteral()
    ensures (" " + "between" + " ?") + (" " + "and" + " ?") == " between ? and ?"
  {
  }

  lemma CompareShow(sym: string)
    ensures Show([Spaced(1, Sym(sym)), Hole()]) == " " + sym + " ?"
  {
    ShowPair(Spaced(1, Sym(sym)), Hole());
    WordText(sym);
    assert ShowOne(Spaced(1, Sym(sym))) == " " + sym by { assert Spaces(1) == " "; }
    hide Show, ShowOne;
  }

  lemma NullShow()
    ensures Show([W("is"), W("null")]) == " is null" && Show([W("is"), W("not"), W("null")]) == " is not null"
  {
    ShowPair(W("is"), W("null"));
    ShowThree(W("is"), W("not"), W("null"));
    WordText("is");
    WordText("null");
    WordText("not");
    hide Show, ShowOne;
  }

  lemma OpShow(op: Op, n: nat)
    requires ArityOk(op, n)
    ensures OpText(op, n) == Show(OpTokens(op, n))
  {
    match op
    case Eq => CompareShow("=");
    case NotEq => CompareShow("<>");
    case Lt => CompareShow("<");
    case Lte => CompareShow("<=");
    case Gt => CompareShow(">");
    case Gte => CompareShow(">=");
    case IsNull => NullShow();
    case IsNotNull => NullShow();
    case Between => BetweenShow();
    case In => InShow(n);
    case Like => LikeShow();
    case _ => NegatedShow(op, n);
  }

  function Positive(op: Op): Op {
    match op
    case NotBetween => Between
    case NotIn => In
    case NotLike => Like
    case _ => op
  }

  lemma NegatedShow(op: Op, n: nat)
    requires ArityOk(op, n) && (op.NotBetween? || op.NotIn? || op.NotLike?)
    ensures OpText(op, n) == Show(OpTokens(op, n))
  {
    NegatedTokens(op, n);
    NegatedText(op, n);
    hide *;
    match op {
      case NotBetween => BetweenShow();
      case NotIn => InShow(n);
      case _ => LikeShow();
    }
    PositiveText(op, n);
    NotShow(OpTokens(Positive(op), n));
  }

  lemma PositiveText(op: Op, n: nat)
    ensures op.NotBetween? ==> Positive(op) == Between && OpText(Between, 2) == " between ? and ?" && (ArityOk(op, n) ==> n == 2)
    ensures op.NotIn? ==> Positive(op) == In
    ensures op.NotLike? ==> Positive(op) == Like && OpText(Like, 1) == " like concat('%',?,'%')" && (ArityOk(op, n) ==> n == 1)
  {
  }

  lemma NegatedTokens(op: Op, n: nat)
    requires ArityOk(op, n) && (op.NotBetween? || op.NotIn? || op.NotLike?)
    ensures ArityOk(Positive(op), n) && OpTokens(op, n) == [W("not")] + OpTokens(Positive(op), n)
  {
    hide HoleList;
  }

  lemma NegatedText(op: Op, n: nat)
    requires ArityOk(op, n) && (op.NotBetween? || op.NotIn? || op.NotLike?)
    ensures ArityOk(Positive(op), n) && OpText(op, n) == " not" + OpText(Positive(op), n)
  {
    MarksLength(n);
    hide Marks;
  }

  // The whole clause.

  /** Keys are written between backquotes and must not contain one. */
  predicate PlainKeys(c: Cond)
    decreases c
  {
    match c
    case Leaf(op, key, args) => Free(key, '`')
    case InDate(_, _, _) => true
    case Or(branches) => forall i :: 0 <= i < |branches| && branches[i].Sub? ==> AllPlainKeys(branches[i].conds)
  }

  predicate AllPlainKeys(cs: seq<Cond>)
    decreases cs
  {
    forall i :: 0 <= i < |cs| ==> PlainKeys(cs[i])
  }

  function TermArgs(t: Term): seq<Value>
    decreases t
  {
    match t
    case Test(op, key, args) => args
    case Any(alts) => AltsArgs(alts)
  }

  function AltsArgs(alts: seq<Alt>): seq<Value>
    decreases alts
  {
    if alts == [] then [] else AltsArgs(alts[..|alts| - 1]) + ConjArgs(alts[|alts| - 1].terms)
  }

  function ConjArgs(ts: seq<Term>): seq<Value>
    decreases ts
  {
    if ts == [] then [] else ConjArgs(ts[..|ts| - 1]) + TermArgs(ts[|ts| - 1])
  }

  function ClauseText(ts: seq<Term>): string
    requires GoodTerms(ts)
  {
    if ts == [] then "" else Show(ConjTokens(ts)) + " and"
  }

  function OrText(alts: seq<Alt>): string
    requires GoodAlts(alts)
  {
    if alts == [] then "" else Show(AltsTokens(alts)) + " " + " or"
  }

  ghost predicate ReadsAs(b: Built, m: Meant) {
    && (b.Panic? <==> m.Empty?)
    && (m.Means? ==> GoodTerms(m.terms) && b == Built(ClauseText(m.terms), ConjArgs(m.terms)))
  }

  lemma LeafShow(op: Op, key: string, n: nat)
    requires ArityOk(op, n)
    ensures CondKey(key) + OpText(op, n) == Show([Spaced(1, Ident(key))] + OpTokens(op, n))
  {
    OpShow(op, n);
    ShowCons(Spaced(1, Ident(key)), OpTokens(op, n));
    assert ShowOne(Spaced(1, Ident(key))) == CondKey(key) by {
      assert Spaces(1) == " ";
      assert " " + ("`" + key + "`") == " `" + key + "`";
    }
    hide OpText, OpTokens, Show, ShowOne, CondKey;
  }

  lemma SingleConj(t: Term)
    requires GoodTerm(t)
    ensures GoodTerms([t]) && ConjTokens([t]) == TermTokens(t) && ConjArgs([t]) == TermArgs(t)
  {
    assert [t][..0] == [];
    hide TermTokens;
  }

  lemma LeafMeaning(c: Cond)
    requires c.Leaf? && WellFormed(c) && PlainKeys(c)
    ensures ReadsAs(CondText(c), CondMeaning(c))
  {
    var t := Test(c.op, c.key, c.args);
    SingleConj(t);
    LeafShow(c.op, c.key, |c.args|);
    assert TermTokens(t) == [Spaced(1, Ident(c.key))] + OpTokens(c.op, |c.args|);
    hide OpTokens, OpText, Show, CondKey, ConjTokens, TermTokens;
  }

  lemma DropSuffix(s: string, suffix: string)
    ensures (s + suffix)[..|s + suffix| - |suffix|] == s
  {
  }

  lemma AltsSnoc(alts: seq<Alt>, terms: seq<Term>)
    requires GoodAlts(alts) && GoodTerms(terms) && terms != []
    ensures GoodAlts(alts + [Alt(terms)])
    ensures AltsTokens(alts + [Alt(terms)]) ==
            (if alts == [] then [] else AltsTokens(alts) + [Spaced(2, Word("or"))]) + ConjTokens(terms)
  {
    var more := alts + [Alt(terms)];
    assert GoodAlts(more);
    assert more[..|alts|] == alts;
    hide ConjTokens;
  }

  lemma ChoppedClause(terms: seq<Term>)
    requires GoodTerms(terms) && terms != []
    ensures |ClauseText(terms)| >= 3
    ensures ClauseText(terms)[..|ClauseText(terms)| - 3] == Show(ConjTokens(terms)) + " "
  {
    hide *;
    ClauseTextIs(terms);
    DropSuffix(Show(ConjTokens(terms)) + " ", "and");
    assert Show(ConjTokens(terms)) + " and" == Show(ConjTokens(terms)) + " " + "and";
  }

  /** One more alternative, the spaces as trimming leaves them. */
  lemma OrTextStep(alts: seq<Alt>, terms: seq<Term>)
    requires GoodAlts(alts) && GoodTerms(terms) && terms != []
    ensures GoodAlts(alts + [Alt(terms)])
    ensures |ClauseText(terms)| >= 3
    ensures OrText(alts) + ClauseText(terms)[..|ClauseText(terms)| - 3] + " or" == OrText(alts + [Alt(terms)])
  {
    hide *;
    AltsSnoc(alts, terms);
    ChoppedClause(terms);
    OrTextIs(alts);
    OrTextIs(alts + [Alt(terms)]);
    if alts == [] {
      FirstAlternative(ConjTokens(terms));
    } else {
      NextAlternative(AltsTokens(alts), ConjTokens(terms));
    }
  }

  lemma FirstAlternative(c: seq<Spaced>)
    ensures "" + (Show(c) + " ") + " or" == Show([] + c) + " " + " or"
  {
    hide *;
    assert [] + c == c;
  }

  lemma NextAlternative(a: seq<Spaced>, c: seq<Spaced>)
    ensures (Show(a) + " " + " or") + (Show(c) + " ") + " or" == Show(a + [Spaced(2, Word("or"))] + c) + " " + " or"
  {
    hide *;
    OrTokenText();
    ShowAppend(a + [Spaced(2, Word("or"))], c);
    ShowAppend(a, [Spaced(2, Word("or"))]);
    OrArith(Show(a), Show(c));
  }

  lemma OrArith(a: string, c: string)
    ensures (a + " " + " or") + (c + " ") + " or" == ((a + "  or") + c) + " " + " or"
  {
  }

  lemma OrTokenText()
    ensures Show([Spaced(2, Word("or"))]) == "  or"
  {
    ShowCons(Spaced(2, Word("or")), []);
    assert [Spaced(2, Word("or"))] + [] == [Spaced(2, Word("or"))];
    assert Spaces(2) == "  ";
    ShowNil();
    hide Show;
  }

  lemma OrTextIs(alts: seq<Alt>)
    requires GoodAlts(alts)
    ensures OrText(alts) == if alts == [] then "" else Show(AltsTokens(alts)) + " " + " or"
  {
    hide Show, AltsTokens;
  }

  lemma ClauseTextIs(ts: seq<Term>)
    requires GoodTerms(ts)
    ensures ClauseText(ts) == if ts == [] then "" else Show(ConjTokens(ts)) + " and"
  {
    hide Show, ConjTokens;
  }

  /** An Or in parentheses. */
  lemma GroupText(alts: seq<Alt>)
    requires GoodAlts(alts) && alts != []
    ensures GoodTerm(Any(alts)) && |OrText(alts)| >= 3
    ensures " (" + OrText(alts)[..|OrText(alts)| - 3] + ") and" == ClauseText([Any(alts)])
  {
    var t := Any(alts);
    SingleConj(t);
    var a := AltsTokens(alts);
    var open, close := Spaced(1, Mark('(')), Spaced(1, Mark(')'));
    assert TermTokens(t) == [open] + a + [close];
    assert ShowOne(open) == " (" && ShowOne(close) == " )" by { assert Spaces(1) == " "; }
    hide *;
    OrTextIs(alts);
    ClauseTextIs([t]);
    DropSuffix(Show(a) + " ", " or");
    assert [open] + a + [close] == [open] + (a + [close]) && [close] == [close] + [];
    ShowCons(open, a + [close]);
    ShowAppend(a, [close]);
    ShowCons(close, []);
    ShowNil();
    GroupArith(Show(a));
  }

  lemma GroupArith(a: string)
    ensures " (" + (a + " ") + ") and" == (" (" + (a + (" )" + ""))) + " and"
  {
  }

  /** Clauses one after another. */
  lemma ClauseStep(ts: seq<Term>, more: seq<Term>)
    requires GoodTerms(ts) && GoodTerms(more) && |more| <= 1
    ensures GoodTerms(ts + more)
    ensures ClauseText(ts) + ClauseText(more) == ClauseText(ts + more)
    ensures ConjArgs(ts) + ConjArgs(more) == ConjArgs(ts + more)
  {
    assert GoodTerms(ts + more);
    if more == [] {
      assert ts + more == ts;
      assert ClauseText(ts) + "" == ClauseText(ts);
    } else {
      SingleConj(more[0]);
      assert more == [more[0]];
      if ts == [] {
        assert ts + more == more;
      } else {
        ClauseSnoc(ts, more[0]);
      }
    }
  }

  lemma ClauseSnoc(ts: seq<Term>, t: Term)
    requires GoodTerms(ts) && GoodTerm(t) && ts != []
    ensures GoodTerms(ts + [t]) && GoodTerms([t])
    ensures ClauseText(ts) + ClauseText([t]) == ClauseText(ts + [t])
    ensures ConjArgs(ts + [t]) == ConjArgs(ts) + TermArgs(t)
  {
    var all := ts + [t];
    assert GoodTerms(all) && GoodTerms([t]);
    assert all[..|ts|] == ts && all[|ts|] == t;
    assert ConjTokens(all) == ConjTokens(ts) + [W("and")] + TermTokens(t);
    SingleConj(t);
    hide *;
    ClauseTextIs(ts);
    ClauseTextIs([t]);
    ClauseTextIs(all);
    ShowAppend(ConjTokens(ts) + [W("and")], TermTokens(t));
    ShowAppend(ConjTokens(ts), [W("and")]);
    AndText();
    Associate(Show(ConjTokens(ts)) + " and", Show(TermTokens(t)), " and");
  }

  lemma AndText()
    ensures Show([W("and")]) == " and"
  {
    assert [W("and")] + [] == [W("and")];
    ShowCons(W("and"), []);
    WordText("and");
    ShowNil();
    hide Show, ShowOne;
  }

  /** The text of any list of conditions is the clause of what it means, and it panics just where there is no meaning. */
  lemma {:induction false} CondsTextMeans(cs: seq<Cond>)
    requires AllWellFormed(cs) && AllPlainKeys(cs)
    ensures ReadsAs(CondsText(cs), CondsMeaning(cs))
    decreases cs, 0
  {
    if cs != [] {
      var n := |cs| - 1;
      CondsTextMeans(cs[..n]);
      CondTextMeans(cs[n]);
      CondsUnfold(cs);
      hide CondsText, CondsMeaning, CondText, CondMeaning;
      var (before, last) := (CondsMeaning(cs[..n]), CondMeaning(cs[n]));
      if before.Means? && last.Means? {
        ClauseStep(before.terms, last.terms);
      }
    }
  }

  lemma CondsUnfold(cs: seq<Cond>)
    requires AllWellFormed(cs) && cs != []
    ensures var (b, t) := (CondsText(cs[..|cs| - 1]), CondText(cs[|cs| - 1]));
            CondsText(cs) == if b.Panic? || t.Panic? then Panic else Built(b.text + t.text, b.args + t.args)
    ensures var (b, t) := (CondsMeaning(cs[..|cs| - 1]), CondMeaning(cs[|cs| - 1]));
            CondsMeaning(cs) == if b.Empty? || t.Empty? then Empty else Means(b.terms + t.terms)
    ensures CondMeaning(cs[|cs| - 1]).Means? ==> |CondMeaning(cs[|cs| - 1]).terms| <= 1
  {
    hide CondText;
  }

  lemma {:induction false} CondTextMeans(c: Cond)
    requires WellFormed(c) && PlainKeys(c)
    ensures ReadsAs(CondText(c), CondMeaning(c))
    decreases c, if c.Or? then |c.branches| + 1 else 0
  {
    match c
    case Leaf(op, key, args) => LeafMeaning(c);
    case InDate(_, _, _) =>
    case Or(branches) =>
      BranchesTextMean(c, |branches|);
      var alts := AltsMeaning(c, |branches|);
      if alts.Some? && alts.value != [] {
        GroupText(alts.value);
        SingleConj(Any(alts.value));
      }
      hide BranchesText, AltsMeaning, ConjTokens, Show;
  }

  ghost predicate AltsReadAs(b: Built, m: Option<seq<Alt>>) {
    && (b.Panic? <==> m.None?)
    && (m.Some? ==> GoodAlts(m.value) && b == Built(OrText(m.value), AltsArgs(m.value)))
  }

  lemma {:induction false} BranchesTextMean(c: Cond, n: nat)
    requires WellFormed(c) && PlainKeys(c) && c.Or? && n <= |c.branches|
    ensures AltsReadAs(BranchesText(c, n), AltsMeaning(c, n))
    decreases c, n
  {
    if n > 0 {
      BranchesTextMean(c, n - 1);
      var last := c.branches[n - 1];
      if last.Sub? {
        CondsTextMeans(last.conds);
        BranchesUnfold(c, n);
        hide *;
        OneMoreBranch(BranchesText(c, n - 1), AltsMeaning(c, n - 1), CondsText(last.conds), CondsMeaning(last.conds));
      }
      hide CondsText, CondsMeaning, AltsReadAs;
    }
  }

  lemma OneMoreBranch(b: Built, before: Option<seq<Alt>>, t: Built, m: Meant)
    requires AltsReadAs(b, before) && ReadsAs(t, m)
    ensures AltsReadAs(if b.Panic? || t.Panic? || |t.text| < 3 then Panic
                       else Built(b.text + t.text[..|t.text| - 3] + " or", b.args + t.args),
                       if before.None? || m.Empty? || m.terms == [] then None else Some(before.value + [Alt(m.terms)]))
  {
    if before.Some? && m.Means? {
      if m.terms == [] {
        assert ClauseText(m.terms) == "";
      } else {
        OrTextStep(before.value, m.terms);
        AltsArgsSnoc(before.value, m.terms);
      }
    }
    hide GoodAlts, GoodTerms, OrText, ClauseText, AltsArgs, ConjArgs;
  }

  lemma AltsArgsSnoc(alts: seq<Alt>, terms: seq<Term>)
    ensures AltsArgs(alts + [Alt(terms)]) == AltsArgs(alts) + ConjArgs(terms)
  {
    assert (alts + [Alt(terms)])[..|alts|] == alts;
  }

  lemma BranchesUnfold(c: Cond, n: nat)
    requires WellFormed(c) && c.Or? && 0 < n <= |c.branches| && c.branches[n - 1].Sub?
    ensures var (b, t) := (BranchesText(c, n - 1), CondsText(c.branches[n - 1].conds));
            BranchesText(c, n) == if b.Panic? || t.Panic? || |t.text| < 3 then Panic
                                  else Built(b.text + t.text[..|t.text| - 3] + " or", b.args + t.args)
    ensures var (before, m) := (AltsMeaning(c, n - 1), CondsMeaning(c.branches[n - 1].conds));
            AltsMeaning(c, n) == if before.None? || m.Empty? || m.terms == [] then None else Some(before.value + [Alt(m.terms)])
  {
    hide CondsText, CondsMeaning;
  }
}
