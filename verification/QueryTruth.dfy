/** Which rows a query accepts: conditions directly, and the WHERE clause as it is read back. */
module QueryTruth {
  import opened Conditions
  import opened SqlWhere
  import opened SqlMeaning
  import opened SqlParse
  import opened SqlQuery

  /** A missing column is null. */
  type Row = map<string, Value>

  /** The order of values, SQL's pattern test and Mongo's. */
  datatype Database = Database(less: (Value, Value) -> bool, like: (Value, Value) -> bool, regex: (Value, Value) -> bool)

  function Cell(row: Row, key: string): Value {
    if key in row then row[key] else Null
  }

  function Lift(b: bool): Truth {
    if b then Yes else No
  }

  function Not(t: Truth): Truth {
    match t case Yes => No case No => Yes case Unknown => Unknown
  }

  /** Comparing with null is unknown. */
  function Known(a: Value, b: Value, t: bool): Truth {
    if a.Null? || b.Null? then Unknown else Lift(t)
  }

  function EqualTo(a: Value, b: Value): Truth {
    Known(a, b, a == b)
  }

  function AtLeast(db: Database, a: Value, b: Value): Truth {
    Known(a, b, !db.less(a, b))
  }

  function AtMost(db: Database, a: Value, b: Value): Truth {
    Known(a, b, !db.less(b, a))
  }

  function OneOf(a: Value, vs: seq<Value>): Truth {
    if vs == [] then No else Or3(OneOf(a, vs[..|vs| - 1]), EqualTo(a, vs[|vs| - 1]))
  }

  /** SQL's reading of a test. */
  function TestTruth(db: Database, op: Op, cell: Value, args: seq<Value>): Truth
    requires ArityOk(op, |args|)
  {
    match op
    case Eq => EqualTo(cell, args[0])
    case NotEq => Not(EqualTo(cell, args[0]))
    case Lt => Known(cell, args[0], db.less(cell, args[0]))
    case Lte => AtMost(db, cell, args[0])
    case Gt => Known(cell, args[0], db.less(args[0], cell))
    case Gte => AtLeast(db, cell, args[0])
    case IsNull => Lift(cell.Null?)
    case IsNotNull => Lift(!cell.Null?)
    case Between => And(AtLeast(db, cell, args[0]), AtMost(db, cell, args[1]))
    case NotBetween => Not(And(AtLeast(db, cell, args[0]), AtMost(db, cell, args[1])))
    case In => OneOf(cell, args)
    case NotIn => Not(OneOf(cell, args))
    case Like => Known(cell, args[0], db.like(cell, args[0]))
    case NotLike => Not(Known(cell, args[0], db.like(cell, args[0])))
  }

  // Clauses.

  function TermTruth(db: Database, row: Row, t: Term): Truth
    requires GoodTerm(t)
    decreases t
  {
    match t
    case Test(op, key, args) => TestTruth(db, op, Cell(row, key), args)
    case Any(alts) => AltsTruth(db, row, alts)
  }

  function AltsTruth(db: Database, row: Row, alts: seq<Alt>): Truth
    requires GoodAlts(alts)
    decreases alts
  {
    if alts == [] then No
    else Or3(AltsTruth(db, row, alts[..|alts| - 1]), ConjTruth(db, row, alts[|alts| - 1].terms))
  }

  function ConjTruth(db: Database, row: Row, ts: seq<Term>): Truth
    requires GoodTerms(ts)
    decreases ts
  {
    if ts == [] then Yes
    else And(ConjTruth(db, row, ts[..|ts| - 1]), TermTruth(db, row, ts[|ts| - 1]))
  }

  // Conditions.

  /** From the first date up to, not including, the second. */
  function DateTruth(db: Database, cell: Value, from: Value, to: Value): Truth {
    And(AtLeast(db, cell, from), Known(cell, to, db.less(cell, to)))
  }

  function CondTruth(db: Database, row: Row, c: Cond): Truth
    requires WellFormed(c)
    decreases c, if c.Or? then |c.branches| + 1 else 0
  {
    match c
    case Leaf(op, key, args) => TestTruth(db, op, Cell(row, key), args)
    case InDate(key, from, to) => DateTruth(db, Cell(row, key), from, to)
    case Or(branches) => BranchesTruth(db, row, c, |branches|)
  }

  function BranchesTruth(db: Database, row: Row, c: Cond, n: nat): Truth
    requires WellFormed(c) && c.Or? && n <= |c.branches|
    decreases c, n
  {
    if n == 0 then No
    else
      var before := BranchesTruth(db, row, c, n - 1);
      if c.branches[n - 1].Other? then before else Or3(before, CondsTruth(db, row, c.branches[n - 1].conds))
  }

  function CondsTruth(db: Database, row: Row, cs: seq<Cond>): Truth
    requires AllWellFormed(cs)
    decreases cs, 0
  {
    if cs == [] then Yes else And(CondsTruth(db, row, cs[..|cs| - 1]), CondTruth(db, row, cs[|cs| - 1]))
  }

  /** No InDate anywhere. */
  predicate NoDates(c: Cond)
    decreases c
  {
    match c
    case Leaf(_, _, _) => true
    case InDate(_, _, _) => false
    case Or(branches) => forall i :: 0 <= i < |branches| && branches[i].Sub? ==> NoneDated(branches[i].conds)
  }

  predicate NoneDated(cs: seq<Cond>)
    decreases cs
  {
    forall i :: 0 <= i < |cs| ==> NoDates(cs[i])
  }

  lemma ConjSnoc(db: Database, row: Row, ts: seq<Term>, t: Term)
    requires GoodTerms(ts) && GoodTerm(t)
    ensures GoodTerms(ts + [t])
    ensures ConjTruth(db, row, ts + [t]) == And(ConjTruth(db, row, ts), TermTruth(db, row, t))
  {
    assert (ts + [t])[..|ts|] == ts;
    hide TermTruth;
  }

  lemma AltsSnocTruth(db: Database, row: Row, alts: seq<Alt>, a: Alt)
    requires GoodAlts(alts) && a.terms != [] && GoodTerms(a.terms)
    ensures GoodAlts(alts + [a])
    ensures AltsTruth(db, row, alts + [a]) == Or3(AltsTruth(db, row, alts), ConjTruth(db, row, a.terms))
  {
    assert (alts + [a])[..|alts|] == alts;
    hide ConjTruth;
  }

  /** Conditions without dates mean their terms. */
  lemma {:induction false} MeaningTruth(db: Database, row: Row, cs: seq<Cond>)
    requires AllWellFormed(cs) && AllPlainKeys(cs) && NoneDated(cs) && CondsMeaning(cs).Means?
    ensures GoodTerms(CondsMeaning(cs).terms)
    ensures CondsTruth(db, row, cs) == ConjTruth(db, row, CondsMeaning(cs).terms)
    decreases cs, 0
  {
    if cs != [] {
      var n := |cs| - 1;
      CondsUnfold(cs);
      hide CondsMeaning, CondMeaning, CondTruth, ConjTruth;
      MeaningTruth(db, row, cs[..n]);
      TermMeaning(db, row, cs[n]);
      var before, last := CondsMeaning(cs[..n]).terms, CondMeaning(cs[n]).terms;
      assert last == [last[0]];
      ConjSnoc(db, row, before, last[0]);
    } else {
      assert CondsMeaning(cs) == Means([]);
    }
  }

  lemma {:induction false} TermMeaning(db: Database, row: Row, c: Cond)
    requires WellFormed(c) && PlainKeys(c) && NoDates(c) && CondMeaning(c).Means?
    ensures |CondMeaning(c).terms| == 1 && GoodTerm(CondMeaning(c).terms[0])
    ensures CondTruth(db, row, c) == TermTruth(db, row, CondMeaning(c).terms[0])
    decreases c, if c.Or? then |c.branches| + 1 else 0
  {
    match c
    case Leaf(op, key, args) =>
    case Or(branches) => AltsMeaningTruth(db, row, c, |branches|);
  }

  lemma {:induction false} AltsMeaningTruth(db: Database, row: Row, c: Cond, n: nat)
    requires WellFormed(c) && PlainKeys(c) && NoDates(c) && c.Or? && n <= |c.branches| && AltsMeaning(c, n).Some?
    ensures GoodAlts(AltsMeaning(c, n).value)
    ensures BranchesTruth(db, row, c, n) == AltsTruth(db, row, AltsMeaning(c, n).value)
    decreases c, n
  {
    if n > 0 {
      AltsMeaningTruth(db, row, c, n - 1);
      var last := c.branches[n - 1];
      if last.Sub? {
        BranchesUnfold(c, n);
        MeaningTruth(db, row, last.conds);
        hide AltsMeaning, CondsMeaning, CondsTruth, ConjTruth;
        AltsSnocTruth(db, row, AltsMeaning(c, n - 1).value, Alt(CondsMeaning(last.conds).terms));
      }
    }
  }

  lemma OneAlt(db: Database, row: Row, ts: seq<Term>)
    requires GoodTerms(ts) && ts != []
    ensures GoodAlts([Alt(ts)])
    ensures AltsTruth(db, row, [Alt(ts)]) == ConjTruth(db, row, ts)
  {
    assert [Alt(ts)][..0] == [];
    hide ConjTruth;
  }

  /** Evaluating the clause that callers send is evaluating the conditions, for every row and database. */
  lemma WhereAccepts(db: Database, row: Row, cs: seq<Cond>)
    requires AllWellFormed(cs) && AllPlainKeys(cs) && NoneDated(cs) && cs != []
    requires CondsText(cs).Built?
    ensures |CondsText(cs).text| >= 3
    ensures var q := ReadWhere(Where(CondsText(cs).text), CondsText(cs).args);
            q.Some? && GoodAlts(q.value) && AltsTruth(db, row, q.value) == CondsTruth(db, row, cs)
  {
    hide *;
    WhereMeansConditions(cs);
    PanicOrMeans(cs);
    MeaningTruth(db, row, cs);
    SomeTerms(db, row, cs);
    OneAlt(db, row, CondsMeaning(cs).terms);
  }

  lemma PanicOrMeans(cs: seq<Cond>)
    ensures !CondsMeaning(cs).Empty? ==> CondsMeaning(cs).Means?
  {
  }

  lemma SomeTerms(db: Database, row: Row, cs: seq<Cond>)
    requires AllWellFormed(cs) && AllPlainKeys(cs) && NoneDated(cs) && cs != [] && CondsMeaning(cs).Means?
    ensures CondsMeaning(cs).terms != []
  {
    CondsUnfold(cs);
    hide CondsMeaning, CondMeaning;
    TermMeaning(db, row, cs[|cs| - 1]);
  }
}
