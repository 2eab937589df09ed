/** A reader of WHERE clauses, and the proof that it recovers the conditions and the binding of every argument. */
module SqlQuery {
  import opened Strconv
  import opened Conditions
  import opened SqlText
  import opened SqlWhere
  import opened SqlMeaning
  import opened SqlParse

  /** A value read, and the tokens and arguments left. */
  datatype Read<T> = Fail | Done(value: T, rest: seq<Token>, args: seq<Value>)

  datatype OpRead = NoOp | OpRead(op: Op, holes: nat, rest: seq<Token>)

  predicate Starts(ts: seq<Token>, t: Token) {
    ts != [] && ts[0] == t
  }

  /** ?,?,...,? */
  function ReadHoles(ts: seq<Token>): (r: (nat, seq<Token>))
    ensures |r.1| <= |ts|
    decreases |ts|
  {
    if !Starts(ts, Mark('?')) then (0, ts)
    else if |ts| >= 2 && ts[1] == Mark(',') then
      var r := ReadHoles(ts[2..]);
      (r.0 + 1, r.1)
    else (1, ts[1..])
  }

  const LIKE_HEAD: seq<Token> := [Word("concat"), Mark('('), Quoted("%"), Mark(','), Mark('?'), Mark(','), Quoted("%"), Mark(')')]

  function Compare(sym: string): Option<Op> {
    if sym == "=" then Some(Eq) else if sym == "<>" then Some(NotEq)
    else if sym == "<" then Some(Lt) else if sym == "<=" then Some(Lte)
    else if sym == ">" then Some(Gt) else if sym == ">=" then Some(Gte)
    else None
  }

  /** The operators that a "not" can stand before. */
  function ReadPositive(ts: seq<Token>): (r: OpRead)
    ensures r.OpRead? ==> |r.rest| <= |ts|
  {
    if Starts(ts, Word("between")) then
      if |ts| >= 4 && ts[1..4] == [Mark('?'), Word("and"), Mark('?')] then OpRead(Between, 2, ts[4..]) else NoOp
    else if Starts(ts, Word("in")) then
      if |ts| >= 2 && ts[1] == Mark('(') then
        var (n, rest) := ReadHoles(ts[2..]);
        if n >= 1 && Starts(rest, Mark(')')) then OpRead(In, n, rest[1..]) else NoOp
      else NoOp
    else if Starts(ts, Word("like")) then
      if |ts| >= 9 && ts[1..9] == LIKE_HEAD then OpRead(Like, 1, ts[9..]) else NoOp
    else NoOp
  }

  function Negated(op: Op): Op {
    match op
    case Between => NotBetween
    case In => NotIn
    case _ => NotLike
  }

  function ReadOp(ts: seq<Token>): (r: OpRead)
    ensures r.OpRead? ==> |r.rest| <= |ts|
  {
    if ts == [] then NoOp
    else if ts[0].Sym? then
      var op := Compare(ts[0].text);
      if op.Some? && |ts| >= 2 && ts[1] == Mark('?') then OpRead(op.value, 1, ts[2..]) else NoOp
    else if ts[0] == Word("is") then
      if |ts| >= 2 && ts[1] == Word("null") then OpRead(IsNull, 0, ts[2..])
      else if |ts| >= 3 && ts[1] == Word("not") && ts[2] == Word("null") then OpRead(IsNotNull, 0, ts[3..])
      else NoOp
    else if ts[0] == Word("not") then
      var r := ReadPositive(ts[1..]);
      if r.NoOp? then NoOp else OpRead(Negated(r.op), r.holes, r.rest)
    else ReadPositive(ts)
  }

  /** A test takes as many arguments as it has question marks. */
  function ReadTest(key: string, ts: seq<Token>, args: seq<Value>): (r: Read<Term>)
    ensures r.Done? ==> |r.rest| <= |ts|
  {
    var o := ReadOp(ts);
    if o.NoOp? || o.holes > |args| then Fail else Done(Test(o.op, key, args[..o.holes]), o.rest, args[o.holes..])
  }

  function ReadFactor(ts: seq<Token>, args: seq<Value>): (r: Read<Term>)
    ensures r.Done? ==> |r.rest| < |ts|
    decreases |ts|, 0
  {
    if ts == [] then Fail
    else if ts[0].Ident? then ReadTest(ts[0].name, ts[1..], args)
    else if ts[0] == Mark('(') then
      var r := ReadAlts(ts[1..], args);
      if r.Fail? || !Starts(r.rest, Mark(')')) then Fail else Done(Any(r.value), r.rest[1..], r.args)
    else Fail
  }

  /** and binds tighter than or. */
  function ReadConj(ts: seq<Token>, args: seq<Value>): (r: Read<seq<Term>>)
    ensures r.Done? ==> |r.rest| < |ts|
    decreases |ts|, 1
  {
    var f := ReadFactor(ts, args);
    if f.Fail? then Fail
    else if Starts(f.rest, Word("and")) then
      var r := ReadConj(f.rest[1..], f.args);
      if r.Fail? then Fail else Done([f.value] + r.value, r.rest, r.args)
    else Done([f.value], f.rest, f.args)
  }

  function ReadAlts(ts: seq<Token>, args: seq<Value>): (r: Read<seq<Alt>>)
    ensures r.Done? ==> |r.rest| < |ts|
    decreases |ts|, 2
  {
    var c := ReadConj(ts, args);
    if c.Fail? then Fail
    else if Starts(c.rest, Word("or")) then
      var r := ReadAlts(c.rest[1..], c.args);
      if r.Fail? then Fail else Done([Alt(c.value)] + r.value, r.rest, r.args)
    else Done([Alt(c.value)], c.rest, c.args)
  }

  /** A whole clause: "where", a condition, every argument used. */
  function ReadWhere(sql: string, args: seq<Value>): Option<seq<Alt>> {
    var ts := Lex(sql);
    if !Starts(ts, Word("where")) then None
    else
      var r := ReadAlts(ts[1..], args);
      if r.Done? && r.rest == [] && r.args == [] then Some(r.value) else None
  }

  /** What callers make of a non-empty text: three characters off, and one more. */
  function Where(text: string): string
    requires |text| >= 3
  {
    var s := "where" + text[..|text| - 3];
    s[..|s| - 1]
  }

  // Operators are read back.

  lemma {:induction false} HolesRead(n: nat, rest: seq<Token>)
    requires n >= 1 && !Starts(rest, Mark(','))
    ensures ReadHoles(Tokens(HoleList(n)) + rest) == (n, rest)
  {
    if n == 1 {
      assert Tokens([M('?')]) == [Mark('?')];
      assert ([Mark('?')] + rest)[1..] == rest;
    } else {
      HoleListFront(n);
      HolesRead(n - 1, rest);
      var ts := Tokens(HoleList(n)) + rest;
      assert ts[2..] == Tokens(HoleList(n - 1)) + rest;
    }
  }

  lemma {:induction false} HoleListFront(n: nat)
    requires n >= 2
    ensures Tokens(HoleList(n)) == [Mark('?'), Mark(',')] + Tokens(HoleList(n - 1))
  {
    TokensAppend(HoleList(n - 1), [M(','), M('?')]);
    assert Tokens([M(','), M('?')]) == [Mark(','), Mark('?')];
    if n == 2 {
      assert Tokens([M('?')]) == [Mark('?')];
    } else {
      HoleListFront(n - 1);
      TokensAppend(HoleList(n - 2), [M(','), M('?')]);
    }
  }

  /** The tokens of an operator without their spaces. */
  function Plain(op: Op, n: nat): seq<Token>
    requires ArityOk(op, n)
  {
    match op
    case Eq => [Sym("="), Mark('?')]
    case NotEq => [Sym("<>"), Mark('?')]
    case Lt => [Sym("<"), Mark('?')]
    case Lte => [Sym("<="), Mark('?')]
    case Gt => [Sym(">"), Mark('?')]
    case Gte => [Sym(">="), Mark('?')]
    case IsNull => [Word("is"), Word("null")]
    case IsNotNull => [Word("is"), Word("not"), Word("null")]
    case Between => [Word("between"), Mark('?'), Word("and"), Mark('?')]
    case NotBetween => [Word("not"), Word("between"), Mark('?'), Word("and"), Mark('?')]
    case In => [Word("in"), Mark('(')] + Tokens(HoleList(n)) + [Mark(')')]
    case NotIn => [Word("not"), Word("in"), Mark('(')] + Tokens(HoleList(n)) + [Mark(')')]
    case Like => [Word("like")] + LIKE_HEAD
    case NotLike => [Word("not"), Word("like")] + LIKE_HEAD
  }

  lemma TokensCons(t: Spaced, ts: seq<Spaced>)
    ensures Tokens([t] + ts) == [t.token] + Tokens(ts)
  {
    assert ([t] + ts)[1..] == ts;
  }

  lemma TokensTwo(a: Spaced, b: Spaced)
    ensures Tokens([a, b]) == [a.token, b.token]
  {
    assert [a, b] == [a] + [b];
    TokensCons(a, [b]);
  }

  lemma TokensThree(a: Spaced, b: Spaced, c: Spaced)
    ensures Tokens([a, b, c]) == [a.token, b.token, c.token]
  {
    assert [a, b, c] == [a] + [b, c];
    TokensCons(a, [b, c]);
    TokensTwo(b, c);
  }

  lemma LikeTokens()
    ensures Tokens(OpTokens(Like, 1)) == Plain(Like, 1)
  {
    var q := Spaced(0, Quoted("%"));
    var a, b, c := [W("like"), W("concat"), M('(')], [q, M(','), M('?')], [M(','), q, M(')')];
    assert OpTokens(Like, 1) == a + b + c;
    var x, y, z := [Word("like"), Word("concat"), Mark('(')], [Quoted("%"), Mark(','), Mark('?')], [Mark(','), Quoted("%"), Mark(')')];
    assert Plain(Like, 1) == x + y + z;
    assert W("like").token == x[0] && W("concat").token == x[1] && M('(').token == x[2];
    assert M(',').token == y[1] && M('?').token == y[2] && M(')').token == z[2];
    hide *;
    TokensAppend(a + b, c);
    TokensAppend(a, b);
    TokensThree(W("like"), W("concat"), M('('));
    TokensThree(q, M(','), M('?'));
    TokensThree(M(','), q, M(')'));
  }

  lemma InTokens(n: nat)
    requires n >= 1
    ensures Tokens(OpTokens(In, n)) == Plain(In, n)
  {
    var a, c := [W("in"), M('(')], [M(')')];
    assert OpTokens(In, n) == a + HoleList(n) + c;
    TokensAppend(a + HoleList(n), c);
    TokensAppend(a, HoleList(n));
    TokensTwo(W("in"), M('('));
    assert Tokens(c) == [Mark(')')];
    hide Tokens, HoleList;
  }

  lemma NegatedPlain(op: Op, n: nat)
    requires ArityOk(op, n) && (op.NotBetween? || op.NotIn? || op.NotLike?)
    ensures ArityOk(Positive(op), n) && Plain(op, n) == [Word("not")] + Plain(Positive(op), n)
  {
    hide Tokens, HoleList;
  }

  lemma PositivePlain(op: Op, n: nat)
    requires ArityOk(op, n) && (op.Between? || op.In? || op.Like?)
    ensures Tokens(OpTokens(op, n)) == Plain(op, n)
  {
    if op.Between? {
      assert OpTokens(op, n) == [W("between"), Hole()] + [W("and"), Hole()];
      TokensAppend([W("between"), Hole()], [W("and"), Hole()]);
      TokensTwo(W("between"), Hole());
      TokensTwo(W("and"), Hole());
    } else if op.In? {
      InTokens(n);
    } else {
      LikeTokens();
    }
  }

  lemma SimplePlain(op: Op, n: nat)
    requires ArityOk(op, n) && !op.NotBetween? && !op.NotIn? && !op.NotLike? && !op.Between? && !op.In? && !op.Like?
    ensures Tokens(OpTokens(op, n)) == Plain(op, n)
  {
    if op.IsNull? {
      TokensTwo(W("is"), W("null"));
    } else if op.IsNotNull? {
      TokensThree(W("is"), W("not"), W("null"));
    } else {
      TokensTwo(OpTokens(op, n)[0], Hole());
    }
  }

  lemma OpPlain(op: Op, n: nat)
    requires ArityOk(op, n)
    ensures Tokens(OpTokens(op, n)) == Plain(op, n)
  {
    if op.NotBetween? || op.NotIn? || op.NotLike? {
      NegatedTokens(op, n);
      NegatedPlain(op, n);
      PositiveOp(op);
      PositivePlain(Positive(op), n);
      TokensCons(W("not"), OpTokens(Positive(op), n));
      hide *;
    } else if op.Between? || op.In? || op.Like? {
      PositivePlain(op, n);
    } else {
      SimplePlain(op, n);
    }
  }

  lemma PositiveOp(op: Op)
    requires op.NotBetween? || op.NotIn? || op.NotLike?
    ensures Positive(op).Between? || Positive(op).In? || Positive(op).Like?
  {
  }

  /** Every operator is read as itself. */
  lemma OpIsRead(op: Op, n: nat, rest: seq<Token>)
    requires ArityOk(op, n)
    ensures ReadOp(Plain(op, n) + rest) == OpRead(op, n, rest)
  {
    if op.NotBetween? || op.NotIn? || op.NotLike? {
      NegatedPlain(op, n);
      PositiveIsRead(Positive(op), n, rest);
      NegatedIsRead(op, n, rest);
    } else if op.Between? || op.In? || op.Like? {
      PositiveIsRead(op, n, rest);
      PositiveFirst(op, n, rest);
    } else {
      SimpleIsRead(op, n, rest);
    }
  }

  lemma SimpleIsRead(op: Op, n: nat, rest: seq<Token>)
    requires ArityOk(op, n) && !op.NotBetween? && !op.NotIn? && !op.NotLike? && !op.Between? && !op.In? && !op.Like?
    ensures ReadOp(Plain(op, n) + rest) == OpRead(op, n, rest)
  {
    var ts := Plain(op, n) + rest;
    assert ts[|Plain(op, n)|..] == rest;
    hide ReadPositive;
  }

  lemma PositiveFirst(op: Op, n: nat, rest: seq<Token>)
    requires ArityOk(op, n) && (op.Between? || op.In? || op.Like?)
    ensures ReadOp(Plain(op, n) + rest) == ReadPositive(Plain(op, n) + rest)
  {
    hide ReadPositive, Tokens;
  }

  lemma NegatedIsRead(op: Op, n: nat, rest: seq<Token>)
    requires ArityOk(op, n) && (op.NotBetween? || op.NotIn? || op.NotLike?)
    requires ArityOk(Positive(op), n) && Plain(op, n) == [Word("not")] + Plain(Positive(op), n)
    requires ReadPositive(Plain(Positive(op), n) + rest) == OpRead(Positive(op), n, rest)
    ensures ReadOp(Plain(op, n) + rest) == OpRead(op, n, rest)
  {
    var ts := Plain(op, n) + rest;
    assert ts[1..] == Plain(Positive(op), n) + rest;
    hide ReadPositive, Plain;
  }

  lemma PositiveIsRead(op: Op, n: nat, rest: seq<Token>)
    requires ArityOk(op, n) && (op.Between? || op.In? || op.Like?)
    ensures ReadPositive(Plain(op, n) + rest) == OpRead(op, n, rest)
  {
    if op.Between? {
      BetweenIsRead(rest);
    } else if op.In? {
      InIsRead(n, rest);
    } else {
      LikeIsRead(rest);
    }
    hide ReadPositive, Plain;
  }

  lemma BetweenIsRead(rest: seq<Token>)
    ensures ReadPositive(Plain(Between, 2) + rest) == OpRead(Between, 2, rest)
  {
    var ts := Plain(Between, 2) + rest;
    assert ts[1..4] == [Mark('?'), Word("and"), Mark('?')] && ts[4..] == rest;
  }

  lemma InIsRead(n: nat, rest: seq<Token>)
    requires n >= 1
    ensures ReadPositive(Plain(In, n) + rest) == OpRead(In, n, rest)
  {
    var ts := Plain(In, n) + rest;
    HolesRead(n, [Mark(')')] + rest);
    assert ts[2..] == Tokens(HoleList(n)) + ([Mark(')')] + rest);
    assert ([Mark(')')] + rest)[1..] == rest;
    hide HoleList, Tokens, ReadHoles;
  }

  lemma LikeIsRead(rest: seq<Token>)
    ensures ReadPositive(Plain(Like, 1) + rest) == OpRead(Like, 1, rest)
  {
    var ts := Plain(Like, 1) + rest;
    assert ts[1..9] == LIKE_HEAD && ts[9..] == rest;
  }

  // Terms are read back.

  lemma TestIsRead(op: Op, key: string, taken: seq<Value>, rest: seq<Token>, more: seq<Value>)
    requires ArityOk(op, |taken|)
    ensures ReadFactor([Ident(key)] + Tokens(OpTokens(op, |taken|)) + rest, taken + more) == Done(Test(op, key, taken), rest, more)
  {
    hide ReadOp, Plain, Tokens, OpTokens, ReadAlts;
    var ts := [Ident(key)] + Tokens(OpTokens(op, |taken|)) + rest;
    OpPlain(op, |taken|);
    OpIsRead(op, |taken|, rest);
    assert ts[1..] == Tokens(OpTokens(op, |taken|)) + rest;
    assert (taken + more)[..|taken|] == taken && (taken + more)[|taken|..] == more;
  }

  lemma ConjEnd(ts: seq<Term>, t: Term)
    requires GoodTerms(ts) && GoodTerm(t) && ts != []
    ensures GoodTerms(ts + [t])
    ensures ConjTokens(ts + [t]) == ConjTokens(ts) + [W("and")] + TermTokens(t)
    ensures ConjArgs(ts + [t]) == ConjArgs(ts) + TermArgs(t)
  {
    assert GoodTerms(ts + [t]);
    assert (ts + [t])[..|ts|] == ts;
    hide TermTokens, TermArgs;
  }

  lemma {:induction false} ConjFront(t: Term, ts: seq<Term>)
    requires GoodTerm(t) && GoodTerms(ts) && ts != []
    ensures GoodTerms([t] + ts)
    ensures ConjTokens([t] + ts) == TermTokens(t) + [W("and")] + ConjTokens(ts)
    ensures ConjArgs([t] + ts) == TermArgs(t) + ConjArgs(ts)
    decreases |ts|
  {
    var n := |ts| - 1;
    var rest, last := ts[..n], ts[n];
    assert GoodTerms(rest) && GoodTerm(last) && ts == rest + [last];
    hide *;
    SingleConj(t);
    SingleConj(last);
    if n == 0 {
      assert rest == [] && ts == [last] && [t] + ts == [t] + [last];
      ConjEnd([t], last);
    } else {
      ConjFront(t, rest);
      ConjEnd(rest, last);
      ConjEnd([t] + rest, last);
      assert [t] + ts == [t] + rest + [last];
      Concat4(TermTokens(t) + [W("and")], ConjTokens(rest), [W("and")], TermTokens(last));
      Concat3(ConjTokens(rest), [W("and")], TermTokens(last));
      Concat3(TermArgs(t), ConjArgs(rest), TermArgs(last));
    }
  }

  lemma AltsEnd(alts: seq<Alt>, a: Alt)
    requires GoodAlts(alts) && a.terms != [] && GoodTerms(a.terms) && alts != []
    ensures GoodAlts(alts + [a])
    ensures AltsTokens(alts + [a]) == AltsTokens(alts) + [Spaced(2, Word("or"))] + ConjTokens(a.terms)
    ensures AltsArgs(alts + [a]) == AltsArgs(alts) + ConjArgs(a.terms)
  {
    assert GoodAlts(alts + [a]);
    assert (alts + [a])[..|alts|] == alts;
    hide ConjTokens, ConjArgs;
  }

  lemma {:induction false} AltsFront(a: Alt, alts: seq<Alt>)
    requires a.terms != [] && GoodTerms(a.terms) && GoodAlts(alts) && alts != []
    ensures GoodAlts([a] + alts)
    ensures AltsTokens([a] + alts) == ConjTokens(a.terms) + [Spaced(2, Word("or"))] + AltsTokens(alts)
    ensures AltsArgs([a] + alts) == ConjArgs(a.terms) + AltsArgs(alts)
    decreases |alts|
  {
    var n := |alts| - 1;
    var rest, last := alts[..n], alts[n];
    assert GoodAlts(rest) && last.terms != [] && GoodTerms(last.terms) && alts == rest + [last];
    var or := [Spaced(2, Word("or"))];
    hide *;
    SingleAlt(a);
    SingleAlt(last);
    if n == 0 {
      assert rest == [] && alts == [last] && [a] + alts == [a] + [last];
      AltsEnd([a], last);
    } else {
      AltsFront(a, rest);
      AltsEnd(rest, last);
      AltsEnd([a] + rest, last);
      assert [a] + alts == [a] + rest + [last];
      Concat4(ConjTokens(a.terms) + or, AltsTokens(rest), or, ConjTokens(last.terms));
      Concat3(AltsTokens(rest), or, ConjTokens(last.terms));
      Concat3(ConjArgs(a.terms), AltsArgs(rest), ConjArgs(last.terms));
    }
  }

  lemma SingleAlt(a: Alt)
    requires a.terms != [] && GoodTerms(a.terms)
    ensures GoodAlts([a]) && AltsTokens([a]) == ConjTokens(a.terms) && AltsArgs([a]) == ConjArgs(a.terms)
  {
    assert [a][..0] == [];
    hide ConjTokens, ConjArgs;
  }

  ghost predicate Ends(rest: seq<Token>) {
    !Starts(rest, Word("and")) && !Starts(rest, Word("or"))
  }

  /** What ReadFactor makes of any parenthesised group. */
  lemma GroupIsRead(alts: seq<Alt>, ts: seq<Token>, args: seq<Value>, rest: seq<Token>, more: seq<Value>)
    requires ReadAlts(ts + ([Mark(')')] + rest), args) == Done(alts, [Mark(')')] + rest, more)
    ensures ReadFactor([Mark('(')] + ts + [Mark(')')] + rest, args) == Done(Any(alts), rest, more)
  {
    var all := [Mark('(')] + ts + [Mark(')')] + rest;
    assert all[1..] == ts + ([Mark(')')] + rest);
    assert ([Mark(')')] + rest)[1..] == rest;
    hide ReadAlts, ReadTest;
  }

  lemma {:induction false} TermIsRead(t: Term, rest: seq<Token>, more: seq<Value>)
    requires GoodTerm(t)
    ensures ReadFactor(Tokens(TermTokens(t)) + rest, TermArgs(t) + more) == Done(t, rest, more)
    decreases t, 0
  {
    match t
    case Test(op, key, args) =>
      TokensCons(Spaced(1, Ident(key)), OpTokens(op, |args|));
      TestIsRead(op, key, args, rest, more);
      hide OpTokens, Tokens, ReadFactor;
    case Any(alts) =>
      var close := [Mark(')')] + rest;
      AltsAreRead(alts, close, more);
      GroupTokens(alts);
      GroupIsRead(alts, Tokens(AltsTokens(alts)), AltsArgs(alts) + more, rest, more);
      hide AltsTokens, Tokens, ReadFactor, ReadAlts;
  }

  lemma GroupTokens(alts: seq<Alt>)
    requires GoodAlts(alts) && alts != []
    ensures Tokens(TermTokens(Any(alts))) == [Mark('(')] + Tokens(AltsTokens(alts)) + [Mark(')')]
  {
    var open, close := Spaced(1, Mark('(')), Spaced(1, Mark(')'));
    assert TermTokens(Any(alts)) == [open] + (AltsTokens(alts) + [close]);
    TokensCons(open, AltsTokens(alts) + [close]);
    TokensAppend(AltsTokens(alts), [close]);
    assert Tokens([close]) == [Mark(')')];
    hide Tokens, AltsTokens;
  }

  lemma {:induction false} ConjIsRead(ts: seq<Term>, rest: seq<Token>, more: seq<Value>)
    requires GoodTerms(ts) && ts != [] && !Starts(rest, Word("and"))
    ensures ReadConj(Tokens(ConjTokens(ts)) + rest, ConjArgs(ts) + more) == Done(ts, rest, more)
    decreases ts, 1
  {
    var t, tail := ts[0], ts[1..];
    assert ts == [t] + tail;
    SingleConj(t);
    if tail == [] {
      assert ts == [t];
      TermIsRead(t, rest, more);
      LastRead(t, rest, more);
    } else {
      assert GoodTerms(tail);
      ConjIsRead(tail, rest, more);
      var after := [Word("and")] + (Tokens(ConjTokens(tail)) + rest);
      TermIsRead(t, after, ConjArgs(tail) + more);
      NextRead(t, tail, rest, more);
    }
  }

  lemma LastRead(t: Term, rest: seq<Token>, more: seq<Value>)
    requires GoodTerm(t) && !Starts(rest, Word("and"))
    requires ReadFactor(Tokens(TermTokens(t)) + rest, TermArgs(t) + more) == Done(t, rest, more)
    ensures ReadConj(Tokens(TermTokens(t)) + rest, TermArgs(t) + more) == Done([t], rest, more)
  {
    hide ReadFactor, Tokens, TermTokens, TermArgs;
  }

  lemma NextRead(t: Term, tail: seq<Term>, rest: seq<Token>, more: seq<Value>)
    requires GoodTerm(t) && GoodTerms(tail) && tail != []
    requires ReadConj(Tokens(ConjTokens(tail)) + rest, ConjArgs(tail) + more) == Done(tail, rest, more)
    requires var after := [Word("and")] + (Tokens(ConjTokens(tail)) + rest);
             ReadFactor(Tokens(TermTokens(t)) + after, TermArgs(t) + (ConjArgs(tail) + more)) == Done(t, after, ConjArgs(tail) + more)
    ensures GoodTerms([t] + tail)
    ensures ReadConj(Tokens(ConjTokens([t] + tail)) + rest, ConjArgs([t] + tail) + more) == Done([t] + tail, rest, more)
  {
    hide *;
    ConjFront(t, tail);
    ConjTokensFront(t, tail);
    ReadNext(t, tail, Tokens(TermTokens(t)), Tokens(ConjTokens(tail)) + rest, TermArgs(t) + (ConjArgs(tail) + more),
             ConjArgs(tail) + more, rest, more);
    Concat4(Tokens(TermTokens(t)), [Word("and")], Tokens(ConjTokens(tail)), rest);
    Concat3(TermArgs(t), ConjArgs(tail), more);
  }

  lemma ConjTokensFront(t: Term, tail: seq<Term>)
    requires GoodTerm(t) && GoodTerms(tail) && tail != []
    ensures GoodTerms([t] + tail)
    ensures Tokens(ConjTokens([t] + tail)) == Tokens(TermTokens(t)) + [Word("and")] + Tokens(ConjTokens(tail))
  {
    hide *;
    ConjFront(t, tail);
    TokensAppend(TermTokens(t) + [W("and")], ConjTokens(tail));
    TokensAppend(TermTokens(t), [W("and")]);
    WordToken("and");
  }

  lemma WordToken(w: string)
    ensures Tokens([W(w)]) == [Word(w)] && Tokens([Spaced(2, Word(w))]) == [Word(w)]
  {
  }

  lemma Concat4<T>(a: seq<T>, b: seq<T>, c: seq<T>, d: seq<T>)
    ensures a + b + c + d == a + (b + (c + d))
  {
  }

  lemma Concat3<T>(a: seq<T>, b: seq<T>, c: seq<T>)
    ensures a + b + c == a + (b + c)
  {
  }

  lemma ReadNext(t: Term, tail: seq<Term>, front: seq<Token>, back: seq<Token>, args: seq<Value>, left: seq<Value>,
                 rest: seq<Token>, more: seq<Value>)
    requires ReadFactor(front + ([Word("and")] + back), args) == Done(t, [Word("and")] + back, left)
    requires ReadConj(back, left) == Done(tail, rest, more)
    ensures ReadConj(front + ([Word("and")] + back), args) == Done([t] + tail, rest, more)
  {
    assert ([Word("and")] + back)[1..] == back;
    hide ReadFactor;
  }

  lemma {:induction false} AltsAreRead(alts: seq<Alt>, rest: seq<Token>, more: seq<Value>)
    requires GoodAlts(alts) && alts != [] && Ends(rest)
    ensures ReadAlts(Tokens(AltsTokens(alts)) + rest, AltsArgs(alts) + more) == Done(alts, rest, more)
    decreases alts, 2
  {
    var a, tail := alts[0], alts[1..];
    assert alts == [a] + tail;
    SingleAlt(a);
    if tail == [] {
      assert alts == [a];
      ConjIsRead(a.terms, rest, more);
      LastAlt(a, rest, more);
    } else {
      assert GoodAlts(tail);
      AltsAreRead(tail, rest, more);
      var after := [Word("or")] + (Tokens(AltsTokens(tail)) + rest);
      ConjIsRead(a.terms, after, AltsArgs(tail) + more);
      NextAlt(a, tail, rest, more);
    }
  }

  lemma LastAlt(a: Alt, rest: seq<Token>, more: seq<Value>)
    requires GoodTerms(a.terms) && Ends(rest)
    requires ReadConj(Tokens(ConjTokens(a.terms)) + rest, ConjArgs(a.terms) + more) == Done(a.terms, rest, more)
    ensures ReadAlts(Tokens(ConjTokens(a.terms)) + rest, ConjArgs(a.terms) + more) == Done([a], rest, more)
  {
    hide ReadConj, Tokens, ConjTokens, ConjArgs;
  }

  lemma NextAlt(a: Alt, tail: seq<Alt>, rest: seq<Token>, more: seq<Value>)
    requires a.terms != [] && GoodTerms(a.terms) && GoodAlts(tail) && tail != []
    requires ReadAlts(Tokens(AltsTokens(tail)) + rest, AltsArgs(tail) + more) == Done(tail, rest, more)
    requires var after := [Word("or")] + (Tokens(AltsTokens(tail)) + rest);
             ReadConj(Tokens(ConjTokens(a.terms)) + after, ConjArgs(a.terms) + (AltsArgs(tail) + more))
             == Done(a.terms, after, AltsArgs(tail) + more)
    ensures GoodAlts([a] + tail)
    ensures ReadAlts(Tokens(AltsTokens([a] + tail)) + rest, AltsArgs([a] + tail) + more) == Done([a] + tail, rest, more)
  {
    hide *;
    SingleAlt(a);
    AltsFront(a, tail);
    AltsTokensFront(a, tail);
    ReadNextAlt(a, tail, Tokens(ConjTokens(a.terms)), Tokens(AltsTokens(tail)) + rest,
                ConjArgs(a.terms) + (AltsArgs(tail) + more), AltsArgs(tail) + more, rest, more);
    Concat4(Tokens(ConjTokens(a.terms)), [Word("or")], Tokens(AltsTokens(tail)), rest);
    Concat3(ConjArgs(a.terms), AltsArgs(tail), more);
  }

  lemma AltsTokensFront(a: Alt, tail: seq<Alt>)
    requires a.terms != [] && GoodTerms(a.terms) && GoodAlts(tail) && tail != []
    ensures GoodAlts([a] + tail)
    ensures Tokens(AltsTokens([a] + tail)) == Tokens(ConjTokens(a.terms)) + [Word("or")] + Tokens(AltsTokens(tail))
  {
    hide *;
    SingleAlt(a);
    AltsFront(a, tail);
    TokensAppend(ConjTokens(a.terms) + [Spaced(2, Word("or"))], AltsTokens(tail));
    TokensAppend(ConjTokens(a.terms), [Spaced(2, Word("or"))]);
    WordToken("or");
  }

  lemma ReadNextAlt(a: Alt, tail: seq<Alt>, front: seq<Token>, back: seq<Token>, args: seq<Value>, left: seq<Value>,
                    rest: seq<Token>, more: seq<Value>)
    requires ReadConj(front + ([Word("or")] + back), args) == Done(a.terms, [Word("or")] + back, left)
    requires ReadAlts(back, left) == Done(tail, rest, more)
    ensures ReadAlts(front + ([Word("or")] + back), args) == Done([a] + tail, rest, more)
  {
    assert ([Word("or")] + back)[1..] == back;
    hide ReadConj;
  }

  // From text to tokens.

  /** Separate, and with a space in front, so that it can follow anything. */
  ghost predicate Tidy(ts: seq<Spaced>) {
    Separate(ts) && (ts != [] ==> ts[0].spaces > 0)
  }

  lemma SeparateAppend(a: seq<Spaced>, b: seq<Spaced>)
    requires Separate(a) && Tidy(b)
    ensures Separate(a + b)
  {
    var all := a + b;
    forall i | 0 < i < |all|
      ensures all[i].spaces > 0 || all[i].token.Mark? || all[i - 1].token.Mark?
    {
      if i < |a| {
        assert a[i].spaces > 0 || a[i].token.Mark? || a[i - 1].token.Mark?;
      } else if i > |a| {
        assert b[i - |a|].spaces > 0 || b[i - |a|].token.Mark? || b[i - |a| - 1].token.Mark?;
      }
    }
  }

  lemma TidyAppend(a: seq<Spaced>, b: seq<Spaced>)
    requires Tidy(a) && Tidy(b)
    ensures Tidy(a + b)
  {
    SeparateAppend(a, b);
    hide Separate;
  }

  lemma TidyOne(t: Spaced)
    requires GoodToken(t.token) && t.spaces > 0
    ensures Tidy([t])
  {
  }

  /** Two parts with a single token between them. */
  lemma TidyJoin(a: seq<Spaced>, t: Spaced, b: seq<Spaced>)
    requires Tidy(a) && Tidy(b) && GoodToken(t.token) && t.spaces > 0
    ensures Tidy(a + [t] + b)
  {
    hide *;
    TidyOne(t);
    TidyAppend(a, [t]);
    TidyAppend(a + [t], b);
  }

  lemma {:induction false} HolesSeparate(n: nat)
    requires n >= 1
    ensures var h := HoleList(n);
            h != [] && forall i :: 0 <= i < |h| ==> h[i].token.Mark? && MarkChar(h[i].token.c)
  {
    if n > 1 {
      HolesSeparate(n - 1);
    }
  }

  lemma InTidy(n: nat)
    requires n >= 1
    ensures Tidy(OpTokens(In, n))
  {
    HolesSeparate(n);
    hide HoleList;
  }

  lemma LikeTidy()
    ensures Tidy(OpTokens(Like, 1))
  {
  }

  lemma BetweenTidy()
    ensures Tidy(OpTokens(Between, 2))
  {
  }

  lemma SimpleTidy(op: Op, n: nat)
    requires ArityOk(op, n) && !op.NotBetween? && !op.NotIn? && !op.NotLike? && !op.Between? && !op.In? && !op.Like?
    ensures Tidy(OpTokens(op, n))
  {
  }

  lemma PositiveTidy(op: Op, n: nat)
    requires ArityOk(op, n) && (op.Between? || op.In? || op.Like?)
    ensures Tidy(OpTokens(op, n))
  {
    hide OpTokens, Tidy;
    if op.Between? {
      BetweenTidy();
    } else if op.In? {
      InTidy(n);
    } else {
      LikeTidy();
    }
  }

  lemma OpTidy(op: Op, n: nat)
    requires ArityOk(op, n)
    ensures Tidy(OpTokens(op, n))
  {
    hide OpTokens, Tidy;
    if op.NotBetween? || op.NotIn? || op.NotLike? {
      NegatedTokens(op, n);
      PositiveOp(op);
      PositiveTidy(Positive(op), n);
      TidyOne(W("not"));
      TidyAppend([W("not")], OpTokens(Positive(op), n));
    } else if op.Between? || op.In? || op.Like? {
      PositiveTidy(op, n);
    } else {
      SimpleTidy(op, n);
    }
  }

  lemma {:induction false} TermTidy(t: Term)
    requires GoodTerm(t)
    ensures Tidy(TermTokens(t))
    decreases t, 0
  {
    hide Tidy, OpTokens, AltsTokens;
    match t
    case Test(op, key, args) =>
      OpTidy(op, |args|);
      TidyOne(Spaced(1, Ident(key)));
      TidyAppend([Spaced(1, Ident(key))], OpTokens(op, |args|));
    case Any(alts) =>
      AltsTidy(alts);
      var close := Spaced(1, Mark(')'));
      TidyOne(Spaced(1, Mark('(')));
      TidyAppend([Spaced(1, Mark('('))], AltsTokens(alts));
      TidyOne(close);
      TidyAppend([Spaced(1, Mark('('))] + AltsTokens(alts), [close]);
  }

  lemma {:induction false} ConjTidy(ts: seq<Term>)
    requires GoodTerms(ts)
    ensures Tidy(ConjTokens(ts))
    decreases ts, 0
  {
    if ts == [] {
    } else {
      hide Tidy, TermTokens;
      var n := |ts| - 1;
      assert GoodTerms(ts[..n]);
      TermTidy(ts[n]);
      hide *;
      if n > 0 {
        ConjTidy(ts[..n]);
        TidyJoin(ConjTokens(ts[..n]), W("and"), TermTokens(ts[n]));
      } else {
        assert [] + TermTokens(ts[n]) == TermTokens(ts[n]);
      }
    }
  }

  lemma {:induction false} AltsTidy(alts: seq<Alt>)
    requires GoodAlts(alts)
    ensures Tidy(AltsTokens(alts))
    decreases alts, 0
  {
    if alts == [] {
    } else {
      var rest, last := alts[..|alts| - 1], alts[|alts| - 1];
      assert GoodAlts(rest) && last.terms != [] && GoodTerms(last.terms) && alts == rest + [last];
      var or := Spaced(2, Word("or"));
      assert GoodToken(or.token);
      hide *;
      ConjTidy(last.terms);
      if rest == [] {
        assert alts == [last];
        SingleAlt(last);
      } else {
        AltsTidy(rest);
        AltsEnd(rest, last);
        TidyJoin(AltsTokens(rest), or, ConjTokens(last.terms));
      }
    }
  }

  /** What the callers' trimming leaves: "where" and the tokens of the conjunction. */
  lemma WhereText(ts: seq<Term>)
    requires GoodTerms(ts) && ts != []
    ensures |ClauseText(ts)| >= 3
    ensures Where(ClauseText(ts)) == Show([Spaced(0, Word("where"))] + ConjTokens(ts))
  {
    assert ShowOne(Spaced(0, Word("where"))) == "where" by { assert Spaces(0) == ""; }
    hide *;
    ChoppedClause(ts);
    ShowCons(Spaced(0, Word("where")), ConjTokens(ts));
    WhereIs(ClauseText(ts), Show(ConjTokens(ts)));
  }

  lemma WhereIs(text: string, s: string)
    requires |text| >= 3 && text[..|text| - 3] == s + " "
    ensures Where(text) == "where" + s
  {
    assert "where" + (s + " ") == ("where" + s) + " ";
    DropSuffix("where" + s, " ");
  }

  lemma ClauseIsRead(ts: seq<Term>)
    requires GoodTerms(ts) && ts != []
    ensures |ClauseText(ts)| >= 3
    ensures ReadWhere(Where(ClauseText(ts)), ConjArgs(ts)) == Some([Alt(ts)])
  {
    hide *;
    var head := Spaced(0, Word("where"));
    WhereText(ts);
    ConjTidy(ts);
    HeadSeparate(ConjTokens(ts));
    LexShow([head] + ConjTokens(ts));
    TokensCons(head, ConjTokens(ts));
    SingleAlt(Alt(ts));
    EndsNil();
    AltsAreRead([Alt(ts)], [], []);
    assert Tokens(ConjTokens(ts)) + [] == Tokens(ConjTokens(ts)) && ConjArgs(ts) + [] == ConjArgs(ts);
    ReadWhereIs(Where(ClauseText(ts)), Tokens(ConjTokens(ts)), ConjArgs(ts), [Alt(ts)]);
  }

  lemma EndsNil()
    ensures Ends([])
  {
  }

  lemma HeadSeparate(ts: seq<Spaced>)
    requires Tidy(ts)
    ensures Separate([Spaced(0, Word("where"))] + ts)
  {
    assert Separate([Spaced(0, Word("where"))]);
    SeparateAppend([Spaced(0, Word("where"))], ts);
    hide Separate;
  }

  lemma ReadWhereIs(sql: string, ts: seq<Token>, args: seq<Value>, alts: seq<Alt>)
    requires Lex(sql) == [Word("where")] + ts && ReadAlts(ts, args) == Done(alts, [], [])
    ensures ReadWhere(sql, args) == Some(alts)
  {
    assert Lex(sql)[1..] == ts;
    hide Lex, ReadAlts;
  }

  /** The clause callers cut out of the text is read back as the conjunction of what the conditions mean, every Or a
      parenthesised disjunction, and every question mark bound to its own argument. */
  lemma WhereMeansConditions(cs: seq<Cond>)
    requires AllWellFormed(cs) && AllPlainKeys(cs)
    ensures CondsText(cs).Panic? <==> CondsMeaning(cs).Empty?
    ensures CondsText(cs).Built? && CondsMeaning(cs).terms == [] ==> CondsText(cs) == Built("", [])
    ensures CondsText(cs).Built? && CondsMeaning(cs).terms != [] ==>
              && |CondsText(cs).text| >= 3
              && ReadWhere(Where(CondsText(cs).text), CondsText(cs).args) == Some([Alt(CondsMeaning(cs).terms)])
  {
    CondsTextMeans(cs);
    hide CondsText, CondsMeaning, ReadWhere, Where;
    if CondsMeaning(cs).Means? && CondsMeaning(cs).terms != [] {
      ClauseIsRead(CondsMeaning(cs).terms);
    }
  }

  /** An alternative with nothing in it. */
  lemma EmptyAlternativePanics()
    ensures var cs := [Or([Sub([])])]; AllWellFormed(cs) && CondsText(cs).Panic?
  {
    var c := Or([Sub([])]);
    assert [c][..0] == [];
    assert BranchesText(c, 1).Panic?;
  }
}
