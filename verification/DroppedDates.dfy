/** What the WHERE clause means when there are date conditions: they are erased, on every level. */
module DroppedDates {
  import opened Conditions
  import opened QueryTruth
  import opened SqlParse
  import opened SqlQuery
  import opened SqlWhere

  function Erased(cs: seq<Cond>): seq<Cond>
    decreases cs, 0
  {
    if cs == [] then [] else Erased(cs[..|cs| - 1]) + ErasedOne(cs[|cs| - 1])
  }

  function ErasedOne(c: Cond): (r: seq<Cond>)
    ensures |r| <= 1
    decreases c, if c.Or? then |c.branches| + 1 else 0
  {
    match c
    case Leaf(_, _, _) => [c]
    case InDate(_, _, _) => []
    case Or(branches) => [Or(ErasedBranches(c, |branches|))]
  }

  function ErasedBranches(c: Cond, n: nat): (r: seq<Branch>)
    requires c.Or? && n <= |c.branches|
    ensures |r| == n
    decreases c, n
  {
    if n == 0 then []
    else
      ErasedBranches(c, n - 1)
      + [match c.branches[n - 1] case Other => Other case Sub(conds) => Sub(Erased(conds))]
  }

  lemma {:induction false} ErasedAt(c: Cond, n: nat, k: nat)
    requires c.Or? && k < n <= |c.branches|
    ensures ErasedBranches(c, n)[k] == match c.branches[k] case Other => Other case Sub(conds) => Sub(Erased(conds))
  {
    if k < n - 1 {
      ErasedAt(c, n - 1, k);
    }
  }

  /** Erasing dates changes neither the text nor the arguments, and leaves none. */
  ghost predicate SameText(cs: seq<Cond>, es: seq<Cond>) {
    && AllWellFormed(cs) && AllWellFormed(es) && NoneDated(es)
    && CondsText(es) == CondsText(cs)
    && (AllPlainKeys(cs) ==> AllPlainKeys(es))
  }

  lemma {:induction false} ErasedText(cs: seq<Cond>)
    requires AllWellFormed(cs)
    ensures SameText(cs, Erased(cs))
    decreases cs, 0
  {
    if cs != [] {
      var n := |cs| - 1;
      ErasedText(cs[..n]);
      ErasedOneText(cs[n]);
      var es, one := Erased(cs[..n]), ErasedOne(cs[n]);
      hide CondText, Erased, ErasedOne, WellFormed, NoDates, PlainKeys;
      Together(cs[..n], es, cs[n], one);
      assert cs[..n] + [cs[n]] == cs;
      assert Erased(cs) == es + one by {
        ErasedIs(cs);
      }
    }
  }

  lemma ErasedIs(cs: seq<Cond>)
    requires cs != []
    ensures Erased(cs) == Erased(cs[..|cs| - 1]) + ErasedOne(cs[|cs| - 1])
  {
  }

  lemma Together(cs: seq<Cond>, es: seq<Cond>, c: Cond, one: seq<Cond>)
    requires SameText(cs, es) && |one| <= 1 && SameText([c], one)
    ensures SameText(cs + [c], es + one)
  {
    SingleText(c);
    SnocAll(cs, c);
    SnocText(cs, c);
    if one == [] {
      assert CondsText(one) == Built("", []);
      hide CondsText, CondText, AllWellFormed, NoneDated, AllPlainKeys;
      assert es + [] == es;
    } else {
      SingleText(one[0]);
      SnocAll(es, one[0]);
      SnocText(es, one[0]);
      assert one == [one[0]];
      hide CondsText, CondText, AllWellFormed, NoneDated, AllPlainKeys;
    }
  }

  lemma SnocAll(cs: seq<Cond>, c: Cond)
    ensures AllWellFormed(cs + [c]) <==> AllWellFormed(cs) && WellFormed(c)
    ensures NoneDated(cs + [c]) <==> NoneDated(cs) && NoDates(c)
    ensures AllPlainKeys(cs + [c]) <==> AllPlainKeys(cs) && PlainKeys(c)
  {
    hide WellFormed, NoDates, PlainKeys;
    var all := cs + [c];
    assert all[|cs|] == c && forall i :: 0 <= i < |cs| ==> all[i] == cs[i];
  }

  lemma SnocText(cs: seq<Cond>, c: Cond)
    requires AllWellFormed(cs) && WellFormed(c)
    ensures AllWellFormed(cs + [c])
    ensures CondsText(cs + [c]) == if CondsText(cs).Panic? || CondText(c).Panic? then Panic
                                   else Built(CondsText(cs).text + CondText(c).text, CondsText(cs).args + CondText(c).args)
  {
    assert (cs + [c])[..|cs|] == cs;
  }

  lemma {:induction false} ErasedOneText(c: Cond)
    requires WellFormed(c)
    ensures SameText([c], ErasedOne(c))
    decreases c, if c.Or? then |c.branches| + 1 else 0
  {
    SingleText(c);
    match c
    case Leaf(_, _, _) =>
    case InDate(_, _, _) =>
    case Or(branches) =>
      ErasedBranchesText(c, |branches|);
      SingleText(Or(ErasedBranches(c, |branches|)));
  }

  lemma SingleText(c: Cond)
    ensures AllWellFormed([c]) == WellFormed(c) && NoneDated([c]) == NoDates(c) && AllPlainKeys([c]) == PlainKeys(c)
    ensures WellFormed(c) ==> CondsText([c]) == CondText(c)
  {
    assert [] + [c] == [c];
    SnocAll([], c);
    hide AllWellFormed, NoneDated, AllPlainKeys, CondText;
    NoConditions();
    if WellFormed(c) {
      SnocText([], c);
    }
  }

  lemma NoConditions()
    ensures AllWellFormed([]) && NoneDated([]) && AllPlainKeys([]) && CondsText([]) == Built("", [])
  {
  }

  lemma {:induction false} ErasedBranchesText(c: Cond, n: nat)
    requires WellFormed(c) && c.Or? && n <= |c.branches|
    ensures var e := Or(ErasedBranches(c, |c.branches|));
            && WellFormed(e) && NoDates(e) && BranchesText(e, n) == BranchesText(c, n) && (PlainKeys(c) ==> PlainKeys(e))
    decreases c, n
  {
    var e := Or(ErasedBranches(c, |c.branches|));
    forall k | 0 <= k < |c.branches|
      ensures e.branches[k].Sub? == c.branches[k].Sub?
      ensures c.branches[k].Sub? ==> SameText(c.branches[k].conds, e.branches[k].conds)
    {
      ErasedAt(c, |c.branches|, k);
      if c.branches[k].Sub? {
        ErasedText(c.branches[k].conds);
      }
    }
    hide Erased, ErasedBranches, CondsText;
    if n > 0 {
      SameBranches(c, e, n);
    }
  }

  lemma {:induction false} SameBranches(c: Cond, e: Cond, n: nat)
    requires WellFormed(c) && WellFormed(e) && c.Or? && e.Or? && n <= |c.branches| == |e.branches|
    requires forall k :: 0 <= k < n ==> e.branches[k].Sub? == c.branches[k].Sub?
    requires forall k :: 0 <= k < n && c.branches[k].Sub? ==> SameText(c.branches[k].conds, e.branches[k].conds)
    ensures BranchesText(e, n) == BranchesText(c, n)
  {
    if n > 0 {
      SameBranches(c, e, n - 1);
    }
  }

  /** The clause that is sent means the conditions without their dates, for every tree: where nothing is left, no clause
      is sent and every row is accepted. */
  lemma ClauseMeansErased(db: Database, row: Row, cs: seq<Cond>)
    requires AllWellFormed(cs) && AllPlainKeys(cs) && CondsText(cs).Built?
    ensures AllWellFormed(Erased(cs))
    ensures CondsText(cs).text == "" ==> CondsTruth(db, row, Erased(cs)).Yes?
    ensures CondsText(cs).text != "" ==>
              && |CondsText(cs).text| >= 3
              && var q := ReadWhere(Where(CondsText(cs).text), CondsText(cs).args);
                 q.Some? && GoodAlts(q.value) && AltsTruth(db, row, q.value) == CondsTruth(db, row, Erased(cs))
  {
    ErasedText(cs);
    if Erased(cs) != [] {
      WhereAccepts(db, row, Erased(cs));
      hide CondsText, Erased, AltsTruth, CondsTruth, ReadWhere, Where;
    }
  }

  const KEPT := Leaf(Eq, "a", [Num(1)])

  const DATED := InDate("t", Num(1), Num(2))

  /** a = 1 and t in [1, 2): the row with a = 1 and t = 5 passes the clause, though not the conditions. */
  lemma DateIgnored(db: Database)
    requires db.less(Num(1), Num(5)) && !db.less(Num(5), Num(1)) && !db.less(Num(5), Num(2))
    ensures var (cs, row) := ([KEPT, DATED], map["a" := Num(1), "t" := Num(5)]);
            && AllWellFormed(cs) && CondsText(cs).Built? && |CondsText(cs).text| >= 3
            && CondsTruth(db, row, cs) == No
            && var q := ReadWhere(Where(CondsText(cs).text), CondsText(cs).args);
               q.Some? && GoodAlts(q.value) && AltsTruth(db, row, q.value) == Yes
  {
    var cs, row := [KEPT, DATED], map["a" := Num(1), "t" := Num(5)];
    assert cs[..1] == [KEPT] && [KEPT][..0] == [];
    assert Erased([KEPT]) == [KEPT] && Erased(cs) == [KEPT];
    assert CondsTruth(db, row, [KEPT]) == Yes && CondsTruth(db, row, cs) == No;
    BuiltHere(cs);
    hide CondsText, Erased, AltsTruth, CondsTruth, ReadWhere, Where;
    ClauseMeansErased(db, row, cs);
  }

  lemma BuiltHere(cs: seq<Cond>)
    requires cs == [KEPT, DATED]
    ensures AllWellFormed(cs) && AllPlainKeys(cs) && CondsText(cs).Built? && CondsText(cs).text != ""
  {
    assert cs[..1] == [KEPT] && [KEPT][..0] == [];
    assert CondsText([KEPT]).Built? && |CondsText([KEPT]).text| > 0;
    hide OpText, CondKey;
  }
}
