/** What a filter document asks for when a name occurs more than once: the last condition under each name, and the last Or. */
module MongoReplaces {
  import opened Conditions
  import opened MongoMatch
  import opened QueryTruth

  /** c leaves something under its name. */
  predicate Writes(c: Cond) {
    (c.Leaf? && Supported(c.op)) || c.InDate?
  }

  function NameOf(c: Cond): string
    requires Writes(c)
  {
    GetKey(c.key)
  }

  function WantFor(c: Cond): Want
    requires Writes(c) && WellFormed(c)
  {
    match c
    case Leaf(op, _, args) => WantOf(op, args)
    case InDate(_, from, to) => DateRange(from, to)
  }

  /** Condition i writes, and none after it under the same name. */
  predicate LastOfName(cs: seq<Cond>, i: nat) {
    i < |cs| && Writes(cs[i]) && forall j :: i < j < |cs| && Writes(cs[j]) ==> NameOf(cs[j]) != NameOf(cs[i])
  }

  predicate LastOr(cs: seq<Cond>, i: nat) {
    i < |cs| && cs[i].Or? && forall j :: i < j < |cs| ==> !cs[j].Or?
  }

  /** The fields hold what the last conditions of each name ask for, and nothing else. */
  ghost predicate HoldsNames(cs: seq<Cond>, fields: map<string, Want>)
    requires AllWellFormed(cs)
  {
    && (forall i: nat :: LastOfName(cs, i) ==> NameOf(cs[i]) in fields && fields[NameOf(cs[i])] == WantFor(cs[i]))
    && (forall name :: name in fields ==> exists i: nat :: LastOfName(cs, i) && NameOf(cs[i]) == name)
  }

  /** And the alternatives are those of the last Or. */
  ghost predicate HoldsOr(cs: seq<Cond>, hasOr: bool, or: seq<Doc>)
    requires AllWellFormed(cs)
  {
    && (hasOr ==> exists i: nat :: LastOr(cs, i))
    && (forall i: nat :: LastOr(cs, i) ==> hasOr && or == Alternatives(cs[i], |cs[i].branches|))
  }

  lemma {:induction false} FieldsHold(cs: seq<Cond>)
    requires AllWellFormed(cs)
    ensures HoldsNames(cs, Fields(cs).fields) && HoldsOr(cs, Fields(cs).hasOr, Fields(cs).or)
  {
    if cs != [] {
      var n := |cs| - 1;
      FieldsHold(cs[..n]);
      assert cs == cs[..n] + [cs[n]];
      FieldsSnoc(cs[..n], cs[n]);
      WrittenIs(Fields(cs[..n]), cs[n]);
      hide Fields, Written, HoldsNames, HoldsOr, Writes, WantFor, NameOf, Alternatives;
      OneMoreName(cs[..n], cs[n], Fields(cs[..n]).fields);
      OneMoreOr(cs[..n], cs[n], Fields(cs[..n]).hasOr, Fields(cs[..n]).or);
    }
  }

  lemma WrittenIs(d: Doc, c: Cond)
    requires d.Doc? && WellFormed(c)
    ensures Written(d, c).fields == if Writes(c) then d.fields[NameOf(c) := WantFor(c)] else d.fields
    ensures Written(d, c).hasOr == (d.hasOr || c.Or?)
    ensures Written(d, c).or == if c.Or? then Alternatives(c, |c.branches|) else d.or
  {
    hide GetKey, WantOf, Alternatives;
  }

  lemma OneMoreName(cs: seq<Cond>, c: Cond, fields: map<string, Want>)
    requires AllWellFormed(cs) && WellFormed(c) && HoldsNames(cs, fields)
    ensures AllWellFormed(cs + [c])
    ensures HoldsNames(cs + [c], if Writes(c) then fields[NameOf(c) := WantFor(c)] else fields)
  {
    var all, fields' := cs + [c], if Writes(c) then fields[NameOf(c) := WantFor(c)] else fields;
    hide GetKey, WellFormed, WantOf, LastOfName, LastOr, Supported, WantFor;
    LastsMove(cs, c);
    forall name | name in fields'
      ensures exists i: nat :: LastOfName(all, i) && NameOf(all[i]) == name
    {
      if Writes(c) && name == NameOf(c) {
        assert LastOfName(all, |cs|) && NameOf(all[|cs|]) == name;
      } else {
        var i: nat :| LastOfName(cs, i) && NameOf(cs[i]) == name;
        LastIn(cs, i);
        assert LastOfName(all, i) && NameOf(all[i]) == name;
      }
    }
    forall i: nat | LastOfName(all, i)
      ensures NameOf(all[i]) in fields' && fields'[NameOf(all[i])] == WantFor(all[i])
    {
      LastIn(all, i);
    }
  }

  lemma LastIn(cs: seq<Cond>, i: nat)
    ensures LastOfName(cs, i) ==> i < |cs| && Writes(cs[i])
    ensures LastOr(cs, i) ==> i < |cs| && cs[i].Or?
  {
  }

  lemma OneMoreOr(cs: seq<Cond>, c: Cond, hasOr: bool, or: seq<Doc>)
    requires AllWellFormed(cs) && WellFormed(c) && HoldsOr(cs, hasOr, or)
    ensures AllWellFormed(cs + [c])
    ensures HoldsOr(cs + [c], hasOr || c.Or?, if c.Or? then Alternatives(c, |c.branches|) else or)
  {
    var all := cs + [c];
    hide WellFormed, LastOfName, LastOr, Alternatives;
    LastsMove(cs, c);
    if hasOr && !c.Or? {
      var i: nat :| LastOr(cs, i);
      LastIn(cs, i);
      assert LastOr(all, i);
    }
    forall i: nat | LastOr(all, i)
      ensures i < |all| && all[i].Or?
    {
      LastIn(all, i);
    }
  }

  /** How one condition more changes which are last. */
  lemma LastsMove(cs: seq<Cond>, c: Cond)
    ensures var all := cs + [c];
            && (forall i: nat :: i < |cs| ==> all[i] == cs[i]) && all[|cs|] == c
            && (forall i: nat :: i < |cs| ==>
                 (LastOfName(all, i) <==> LastOfName(cs, i) && !(Writes(c) && NameOf(c) == NameOf(cs[i]))))
            && (LastOfName(all, |cs|) <==> Writes(c))
            && (forall i: nat :: i < |cs| ==> (LastOr(all, i) <==> LastOr(cs, i) && !c.Or?))
            && (LastOr(all, |cs|) <==> c.Or?)
  {
    hide GetKey, Supported;
  }

  /** For every list of conditions: the document accepts a row exactly if the row meets the last condition under each
      name, and some alternative of the last Or. */
  lemma FieldsAccept(db: Database, row: Row, cs: seq<Cond>)
    requires AllWellFormed(cs)
    ensures Accepts(db, row, Fields(cs)) <==>
            && (forall i: nat :: LastOfName(cs, i) ==> Meets(db, StoredCell(row, NameOf(cs[i])), WantFor(cs[i])))
            && (forall i: nat :: LastOr(cs, i) ==> AnyAccepts(db, row, Alternatives(cs[i], |cs[i].branches|)))
  {
    FieldsHold(cs);
    hide Fields, Meets, LastOfName, LastOr, Alternatives, GetKey, WantOf, Accepts;
    AcceptsIs(db, row, Fields(cs));
  }

  lemma AcceptsIs(db: Database, row: Row, d: Doc)
    requires d.Doc?
    ensures Accepts(db, row, d) <==>
            && (forall name :: name in d.fields ==> Meets(db, StoredCell(row, name), d.fields[name]))
            && (d.hasOr ==> AnyAccepts(db, row, d.or))
  {
  }

  // When the server takes the document at all.

  /** The last Or has alternatives, none of them without conditions, and so on inside them. */
  ghost predicate Filled(cs: seq<Cond>)
    decreases cs
  {
    forall i: nat :: LastOr(cs, i) ==> FilledOr(cs[i])
  }

  ghost predicate FilledOr(c: Cond)
    decreases c
  {
    c.Or? && AnySub(c.branches, |c.branches|) && forall i :: 0 <= i < |c.branches| ==> FilledBranch(c.branches[i])
  }

  ghost predicate FilledBranch(b: Branch)
    decreases b
  {
    b.Sub? ==> b.conds != [] && Filled(b.conds)
  }

  lemma {:induction false} AlternativesFilled(c: Cond, n: nat)
    requires WellFormed(c) && c.Or? && n <= |c.branches|
    ensures Alternatives(c, n) != [] <==> AnySub(c.branches, n)
    ensures AllComplete(Alternatives(c, n)) <==> forall i :: 0 <= i < n ==> FilledBranch(c.branches[i])
    decreases c, n
  {
    hide Complete, Filled, Fields;
    if n > 0 {
      AlternativesFilled(c, n - 1);
      AnySubStep(c.branches, n - 1);
      var last, rest := c.branches[n - 1], Alternatives(c, n - 1);
      if last.Sub? {
        TakenExactly(last.conds);
        assert Alternatives(c, n) == rest + [Match(last.conds)];
        AllCompleteSnoc(rest, Match(last.conds));
      } else {
        assert Alternatives(c, n) == rest + [] == rest;
      }
      hide Alternatives, AnySub, AllComplete;
    }
  }

  /** The server takes the document exactly if the last Or on each level that is sent has alternatives and none is empty. */
  lemma {:induction false} TakenExactly(cs: seq<Cond>)
    requires AllWellFormed(cs)
    ensures Taken(Match(cs)) <==> Filled(cs)
    ensures cs != [] ==> (Complete(Match(cs)) <==> Filled(cs))
    ensures cs == [] ==> !Complete(Match(cs))
    decreases cs
  {
    if cs != [] {
      FieldsHold(cs);
      MatchIs(cs);
      var d := Fields(cs);
      if d.hasOr {
        var i: nat :| LastOr(cs, i);
        AlternativesFilled(cs[i], |cs[i].branches|);
        assert forall j: nat :: LastOr(cs, j) ==> j == i;
      }
      hide Fields, Alternatives;
    }
  }

  // Rows on which the two stores differ for this reason alone.

  const ABOVE := Leaf(Gt, "a", [Num(5)])

  const BELOW := Leaf(Lt, "a", [Num(10)])

  /** a > 5 and a < 10, of a row with a = 1: SQL rejects it, Mongo is asked for the second bound only. */
  lemma FirstBoundLost(db: Database)
    requires db.less(Num(1), Num(10)) && !db.less(Num(5), Num(1))
    ensures var (cs, row) := ([ABOVE, BELOW], map["a" := Num(1)]);
            AllWellFormed(cs) && Accepts(db, row, Match(cs)) && CondsTruth(db, row, cs) == No
  {
    var cs, row := [ABOVE, BELOW], map["a" := Num(1)];
    assert cs[..1] == [ABOVE] && [ABOVE][..0] == [];
    assert LastOfName(cs, 1) && !LastOfName(cs, 0);
    assert CondsTruth(db, row, [ABOVE]) == No;
    MatchIs(cs);
    FieldsAccept(db, row, cs);
    hide Fields, Accepts, Match;
  }

  function Only(n: int): Cond {
    Or([Sub([Leaf(Eq, "a", [Num(n)])])])
  }

  /** (a = 1) and (a = 2), each written as an Or, of a row with a = 2. */
  lemma FirstOrLost(db: Database)
    ensures var (cs, row) := ([Only(1), Only(2)], map["a" := Num(2)]);
            AllWellFormed(cs) && Accepts(db, row, Match(cs)) && CondsTruth(db, row, cs) == No
  {
    var cs, row := [Only(1), Only(2)], map["a" := Num(2)];
    var one, two := [Leaf(Eq, "a", [Num(1)])], [Leaf(Eq, "a", [Num(2)])];
    assert cs[..1] == [Only(1)] && [Only(1)][..0] == [] && one[..0] == [] && two[..0] == [];
    assert AllWellFormed(one) && AllWellFormed(two) && AllWellFormed(cs);
    assert CondsTruth(db, row, one) == No;
    assert CondTruth(db, row, Only(1)) == No;
    assert CondsTruth(db, row, [Only(1)]) == No;
    assert LastOr(cs, 1) && !LastOr(cs, 0);
    assert LastOfName(two, 0) && NameOf(two[0]) == "a";
    MatchIs(two);
    MatchIs(cs);
    FieldsAccept(db, row, two);
    FieldsAccept(db, row, cs);
    assert Alternatives(cs[1], 1)[0] == Match(two);
    hide Fields, Accepts, Match, CondsTruth;
  }
}
