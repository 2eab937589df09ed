/** The same conditions as a Mongo filter document (ormx/sqld/mongo_manager.go), and when it accepts what SQL accepts. */
module MongoMatch {
  import opened Conditions
  import opened SqlWhere
  import opened SqlParse
  import opened SqlQuery
  import opened QueryTruth

  const JID := "id"
  const BID := "_id"

  function GetKey(key: string): string {
    if key == JID then BID else key
  }

  /** What a field of the document asks for. */
  datatype Want =
    | Is(v: Value) | Ne(v: Value) | Below(v: Value) | UpTo(v: Value) | Above(v: Value) | From(v: Value)
    | Range(from: Value, to: Value) | DateRange(from: Value, to: Value)
    | Among(vs: seq<Value>) | Outside(vs: seq<Value>) | Regex(v: Value)

  /** A filter document, with or without an entry "$or"; no document at all for no conditions. */
  datatype Doc = Nil | Doc(fields: map<string, Want>, hasOr: bool, or: seq<Doc>)

  const EMPTY: Doc := Doc(map[], false, [])

  predicate Supported(op: Op) {
    !op.IsNotNull? && !op.NotBetween? && !op.NotLike?
  }

  function WantOf(op: Op, args: seq<Value>): Want
    requires Supported(op) && ArityOk(op, |args|)
  {
    match op
    case Eq => Is(args[0])
    case NotEq => Ne(args[0])
    case Lt => Below(args[0])
    case Lte => UpTo(args[0])
    case Gt => Above(args[0])
    case Gte => From(args[0])
    case IsNull => Is(Null)
    case Between => Range(args[0], args[1])
    case In => Among(args)
    case NotIn => Outside(args)
    case Like => Regex(args[0])
  }

  function Put(d: Doc, key: string, w: Want): Doc
    requires d.Doc?
  {
    d.(fields := d.fields[key := w])
  }

  /** One condition written into the document; what it writes replaces what stood under the same name. */
  function Written(d: Doc, c: Cond): (r: Doc)
    requires d.Doc? && WellFormed(c)
    ensures r.Doc?
    decreases c, if c.Or? then |c.branches| + 1 else 0
  {
    match c
    case Leaf(op, key, args) => if Supported(op) then Put(d, GetKey(key), WantOf(op, args)) else d
    case InDate(key, from, to) => Put(d, GetKey(key), DateRange(from, to))
    case Or(branches) => d.(hasOr := true, or := Alternatives(c, |branches|))
  }

  function Alternatives(c: Cond, n: nat): seq<Doc>
    requires WellFormed(c) && c.Or? && n <= |c.branches|
    decreases c, n
  {
    if n == 0 then []
    else Alternatives(c, n - 1) + if c.branches[n - 1].Other? then [] else [Match(c.branches[n - 1].conds)]
  }

  /** The document after all of cs, starting from none of them. */
  function Fields(cs: seq<Cond>): (r: Doc)
    requires AllWellFormed(cs)
    ensures r.Doc?
    decreases cs, 0
  {
    if cs == [] then EMPTY else Written(Fields(cs[..|cs| - 1]), cs[|cs| - 1])
  }

  function Match(cs: seq<Cond>): Doc
    requires AllWellFormed(cs)
    decreases cs, 1
  {
    if cs == [] then Nil else Fields(cs)
  }

  /** The loop that fills the document. */
  method BuildMongoMatch(conditions: seq<Cond>) returns (query: Doc)
    requires AllWellFormed(conditions)
    ensures query == Match(conditions)
    decreases conditions, 1
  {
    if |conditions| == 0 {
      return Nil;
    }
    query := EMPTY;
    var i := 0;
    while i < |conditions|
      invariant 0 <= i <= |conditions|
      invariant AllWellFormed(conditions[..i]) && query == Fields(conditions[..i])
    {
      var v := conditions[i];
      Prefix(conditions, i);
      if v.Or? {
        var alternatives := BuildAlternatives(v);
        query := query.(hasOr := true, or := alternatives);
      } else if v.InDate? {
        query := Put(query, GetKey(v.key), DateRange(v.from, v.to));
      } else if Supported(v.op) {
        query := Put(query, GetKey(v.key), WantOf(v.op, v.args));
      }
      hide Alternatives, WantOf, Put;
      i := i + 1;
    }
    assert conditions[..i] == conditions;
  }

  method BuildAlternatives(v: Cond) returns (docs: seq<Doc>)
    requires WellFormed(v) && v.Or?
    ensures docs == Alternatives(v, |v.branches|)
    decreases v, 0
  {
    docs := [];
    var i := 0;
    while i < |v.branches|
      invariant 0 <= i <= |v.branches| && docs == Alternatives(v, i)
    {
      match v.branches[i] {
        case Other =>
        case Sub(conds) =>
          var d := BuildMongoMatch(conds);
          docs := docs + [d];
      }
      i := i + 1;
    }
  }

  // What Mongo accepts.

  /** Comparisons other than equality never hold of a null; not-equal and not-in do. */
  predicate Meets(db: Database, cell: Value, w: Want) {
    match w
    case Is(v) => cell == v
    case Ne(v) => cell != v
    case Below(v) => !cell.Null? && db.less(cell, v)
    case UpTo(v) => !cell.Null? && !db.less(v, cell)
    case Above(v) => !cell.Null? && db.less(v, cell)
    case From(v) => !cell.Null? && !db.less(cell, v)
    case Range(a, b) => !cell.Null? && !db.less(cell, a) && !db.less(b, cell)
    case DateRange(a, b) => !cell.Null? && !db.less(cell, a) && db.less(cell, b)
    case Among(vs) => cell in vs
    case Outside(vs) => cell !in vs
    case Regex(v) => !cell.Null? && db.regex(cell, v)
  }

  /** The row as Mongo stores it: the id under its own name, and under no other. */
  function StoredCell(row: Row, name: string): Value {
    if name == BID then Cell(row, JID) else if name == JID then Null else Cell(row, name)
  }

  /** The server takes this document as a filter or an alternative: an "$or" in it has alternatives, each a document. */
  predicate Complete(d: Doc)
    decreases d
  {
    d.Doc? && (d.hasOr ==> d.or != [] && forall i :: 0 <= i < |d.or| ==> Complete(d.or[i]))
  }

  /** As a whole filter no document will do too; as an alternative it is sent as a null, and the query fails. */
  predicate Taken(d: Doc) {
    d.Nil? || Complete(d)
  }

  /** Of a filter the server takes: whether it accepts the row. */
  predicate Accepts(db: Database, row: Row, d: Doc)
    decreases d
  {
    d.Nil? || (
      && (forall k :: k in d.fields ==> Meets(db, StoredCell(row, k), d.fields[k]))
      && (d.hasOr ==> exists i :: 0 <= i < |d.or| && Accepts(db, row, d.or[i])))
  }

  predicate AnyAccepts(db: Database, row: Row, ds: seq<Doc>) {
    exists i :: 0 <= i < |ds| && Accepts(db, row, ds[i])
  }

  // Where the two agree.

  predicate NonNull(vs: seq<Value>) {
    forall i :: 0 <= i < |vs| ==> !vs[i].Null?
  }

  /** A test both stores support, on a key of its own and with values to compare with. */
  predicate Plain(c: Cond) {
    && c.Leaf? && NonNull(c.args) && c.key != BID
    && (c.op.Eq? || c.op.NotEq? || c.op.Lt? || c.op.Lte? || c.op.Gt? || c.op.Gte? || c.op.IsNull? || c.op.Between?
        || c.op.In? || c.op.NotIn?)
  }

  /** Tests and at most one Or on each level, no key twice, some alternative to each Or and none empty. */
  predicate Portable(cs: seq<Cond>)
    requires AllWellFormed(cs)
    decreases cs, 0
  {
    && (forall i :: 0 <= i < |cs| ==> Plain(cs[i]) || PortableOr(cs[i]))
    && (forall i, j :: 0 <= i < j < |cs| && cs[i].Leaf? && cs[j].Leaf? ==> GetKey(cs[i].key) != GetKey(cs[j].key))
    && (forall i, j :: 0 <= i < j < |cs| ==> !(cs[i].Or? && cs[j].Or?))
  }

  predicate PortableOr(c: Cond)
    requires WellFormed(c)
    decreases c, 1
  {
    && c.Or? && AnySub(c.branches, |c.branches|)
    && forall i :: 0 <= i < |c.branches| && c.branches[i].Sub? ==> c.branches[i].conds != [] && Portable(c.branches[i].conds)
  }

  /** No not-equal or not-in meets a null of this row. */
  predicate NullSafe(row: Row, cs: seq<Cond>)
    decreases cs
  {
    forall i :: 0 <= i < |cs| ==> NullSafeCond(row, cs[i])
  }

  predicate NullSafeCond(row: Row, c: Cond)
    decreases c
  {
    match c
    case Leaf(op, key, _) => (op.NotEq? || op.NotIn?) ==> !Cell(row, key).Null?
    case InDate(_, _, _) => true
    case Or(branches) => forall i :: 0 <= i < |branches| && branches[i].Sub? ==> NullSafe(row, branches[i].conds)
  }

  lemma {:induction false} OneOfIs(a: Value, vs: seq<Value>)
    requires NonNull(vs)
    ensures a.Null? ==> vs == [] || OneOf(a, vs) == Unknown
    ensures !a.Null? ==> OneOf(a, vs) == Lift(a in vs)
  {
    if vs != [] {
      var rest, last := vs[..|vs| - 1], vs[|vs| - 1];
      assert vs == rest + [last] && !last.Null?;
      assert NonNull(rest);
      OneOfIs(a, rest);
      OneOfSnoc(a, rest, last);
      assert a in vs <==> a in rest || a == last;
      hide OneOf, NonNull;
    }
  }

  lemma OneOfSnoc(a: Value, rest: seq<Value>, last: Value)
    requires !last.Null?
    ensures OneOf(a, rest + [last]) == Or3(OneOf(a, rest), if a.Null? then Unknown else Lift(a == last))
  {
    assert (rest + [last])[..|rest|] == rest;
  }

  /** A single test is accepted alike by both, except not-equal and not-in on a null: there Mongo accepts and SQL does not. */
  lemma TestAgreesExactly(db: Database, row: Row, c: Cond)
    requires WellFormed(c) && Plain(c)
    ensures (Meets(db, Cell(row, c.key), WantOf(c.op, c.args)) <==> CondTruth(db, row, c).Yes?)
            <==> NullSafeCond(row, c)
    ensures !NullSafeCond(row, c) ==> Meets(db, Cell(row, c.key), WantOf(c.op, c.args))
  {
    if c.op.In? || c.op.NotIn? {
      OneOfIs(Cell(row, c.key), c.args);
      assert Cell(row, c.key) in c.args ==> !Cell(row, c.key).Null?;
    }
    hide OneOf, Cell;
  }

  /** What one condition asks of a cell, in Mongo's terms: null compares with nothing, but is not equal to anything else. */
  predicate Asks(db: Database, c: Cond, cell: Value)
    requires WellFormed(c) && !c.Or?
  {
    match c
    case InDate(_, from, to) => cell != Null && !db.less(cell, from) && db.less(cell, to)
    case Leaf(op, _, args) =>
      match op
      case Eq => cell == args[0]
      case NotEq => cell != args[0]
      case Lt => cell != Null && db.less(cell, args[0])
      case Lte => cell != Null && !db.less(args[0], cell)
      case Gt => cell != Null && db.less(args[0], cell)
      case Gte => cell != Null && !db.less(cell, args[0])
      case IsNull => cell == Null
      case Between => cell != Null && !db.less(cell, args[0]) && !db.less(args[1], cell)
      case In => cell in args
      case NotIn => cell !in args
      case Like => cell != Null && db.regex(cell, args[0])
      case IsNotNull | NotBetween | NotLike => true
  }

  /** The document of a single condition accepts exactly the rows whose cell it asks for, every operator included. */
  lemma OneAccepts(db: Database, row: Row, c: Cond)
    requires WellFormed(c) && !c.Or? && c.key != BID
    ensures Accepts(db, row, Match([c])) <==> Asks(db, c, Cell(row, c.key))
  {
    assert [c][..0] == [];
    assert Match([c]) == Fields([c]) == Written(EMPTY, c);
    assert Accepts(db, row, EMPTY);
    StoredIs(row, c.key);
    if c.InDate? {
      PutAccepts(db, row, EMPTY, GetKey(c.key), DateRange(c.from, c.to));
    } else if Supported(c.op) {
      PutAccepts(db, row, EMPTY, GetKey(c.key), WantOf(c.op, c.args));
    }
    hide Accepts, GetKey, Put, Cell, StoredCell;
  }

  /** Exactly is-not-null, not-between and not-like leave nothing in the document. */
  lemma LeavesNothing(c: Cond)
    requires WellFormed(c)
    ensures (forall d: Doc :: d.Doc? ==> Written(d, c) == d) <==>
            c.Leaf? && (c.op.IsNotNull? || c.op.NotBetween? || c.op.NotLike?)
  {
    hide GetKey, WantOf, Alternatives;
    var d := Written(EMPTY, c);
    if c.Or? {
      assert d.hasOr && !EMPTY.hasOr;
    } else if c.InDate? || Supported(c.op) {
      assert GetKey(c.key) in d.fields && GetKey(c.key) !in EMPTY.fields;
    }
  }

  lemma {:induction false} FieldNames(cs: seq<Cond>, name: string)
    requires AllWellFormed(cs) && Portable(cs)
    ensures name in Fields(cs).fields <==> exists i :: 0 <= i < |cs| && cs[i].Leaf? && GetKey(cs[i].key) == name
    ensures Fields(cs).hasOr <==> exists i :: 0 <= i < |cs| && cs[i].Or?
  {
    if cs != [] {
      var n := |cs| - 1;
      PortablePrefix(cs, n);
      FieldNames(cs[..n], name);
      assert Plain(cs[n]) || PortableOr(cs[n]);
      hide Alternatives, WantOf, GetKey, Portable, AllWellFormed, PortableOr, WellFormed;
      assert forall i :: 0 <= i < n ==> cs[..n][i] == cs[i];
    }
  }

  lemma PortablePrefix(cs: seq<Cond>, n: nat)
    requires AllWellFormed(cs) && Portable(cs) && n <= |cs|
    ensures AllWellFormed(cs[..n]) && Portable(cs[..n])
  {
    hide Plain, PortableOr, GetKey;
  }

  lemma NullSafePrefix(row: Row, cs: seq<Cond>, n: nat)
    requires NullSafe(row, cs) && n <= |cs|
    ensures NullSafe(row, cs[..n])
  {
    hide NullSafeCond;
  }

  /** A field of its own adds its test and leaves the others. */
  lemma PutAccepts(db: Database, row: Row, d: Doc, key: string, w: Want)
    requires d.Doc? && key !in d.fields
    ensures Accepts(db, row, Put(d, key, w)) <==> Accepts(db, row, d) && Meets(db, StoredCell(row, key), w)
  {
    var d' := Put(d, key, w);
    assert d'.fields[key] == w;
    assert forall k :: k in d.fields ==> k in d'.fields && d'.fields[k] == d.fields[k];
    hide Meets, StoredCell;
    if Accepts(db, row, d') {
      assert Accepts(db, row, d);
    }
    if Accepts(db, row, d) && Meets(db, StoredCell(row, key), w) {
      assert forall k :: k in d'.fields ==> k == key || k in d.fields;
    }
  }

  lemma OrAccepts(db: Database, row: Row, d: Doc, ds: seq<Doc>)
    requires d.Doc? && !d.hasOr
    ensures Accepts(db, row, d.(hasOr := true, or := ds)) <==>
            Accepts(db, row, d) && AnyAccepts(db, row, ds)
  {
    hide Meets, StoredCell;
  }

  lemma StoredIs(row: Row, key: string)
    requires key != BID
    ensures StoredCell(row, GetKey(key)) == Cell(row, key)
  {
    hide Cell;
  }

  lemma AndYes(a: Truth, b: Truth)
    ensures And(a, b).Yes? <==> a.Yes? && b.Yes?
    ensures Or3(a, b).Yes? <==> a.Yes? || b.Yes?
  {
  }

  /** The document accepts a row exactly if the conditions do. */
  lemma {:induction false} MatchAgrees(db: Database, row: Row, cs: seq<Cond>)
    requires AllWellFormed(cs) && Portable(cs) && NullSafe(row, cs)
    ensures Accepts(db, row, Fields(cs)) <==> CondsTruth(db, row, cs).Yes?
    decreases cs, 0
  {
    if cs == [] {
    } else {
      var n := |cs| - 1;
      var before, last := cs[..n], cs[n];
      PortablePrefix(cs, n);
      NullSafePrefix(row, cs, n);
      MatchAgrees(db, row, before);
      assert Fields(cs) == Written(Fields(before), last);
      assert CondsTruth(db, row, cs) == And(CondsTruth(db, row, before), CondTruth(db, row, last));
      AndYes(CondsTruth(db, row, before), CondTruth(db, row, last));
      if last.Leaf? {
        LeafStep(db, row, cs);
      } else {
        OrStep(db, row, cs);
      }
    }
  }

  lemma LeafStep(db: Database, row: Row, cs: seq<Cond>)
    requires AllWellFormed(cs) && Portable(cs) && NullSafe(row, cs) && cs != [] && cs[|cs| - 1].Leaf?
    ensures AllWellFormed(cs[..|cs| - 1])
    ensures Accepts(db, row, Written(Fields(cs[..|cs| - 1]), cs[|cs| - 1])) <==>
            Accepts(db, row, Fields(cs[..|cs| - 1])) && CondTruth(db, row, cs[|cs| - 1]).Yes?
  {
    var n := |cs| - 1;
    var before, last := cs[..n], cs[n];
    PortablePrefix(cs, n);
    FieldNames(before, GetKey(last.key));
    assert forall i :: 0 <= i < n ==> before[i] == cs[i];
    assert Plain(last) && NullSafeCond(row, last);
    assert GetKey(last.key) !in Fields(before).fields;
    PutAccepts(db, row, Fields(before), GetKey(last.key), WantOf(last.op, last.args));
    StoredIs(row, last.key);
    TestAgreesExactly(db, row, last);
    hide Fields, Accepts, CondTruth, Meets, Portable, NullSafe, Put, WantOf, GetKey;
  }

  lemma OrStep(db: Database, row: Row, cs: seq<Cond>)
    requires AllWellFormed(cs) && Portable(cs) && NullSafe(row, cs) && cs != [] && cs[|cs| - 1].Or?
    ensures AllWellFormed(cs[..|cs| - 1])
    ensures Accepts(db, row, Written(Fields(cs[..|cs| - 1]), cs[|cs| - 1])) <==>
            Accepts(db, row, Fields(cs[..|cs| - 1])) && CondTruth(db, row, cs[|cs| - 1]).Yes?
    decreases cs, 0, 0
  {
    var n := |cs| - 1;
    var before, last := cs[..n], cs[n];
    PortablePrefix(cs, n);
    FieldNames(before, "");
    assert forall i :: 0 <= i < n ==> before[i] == cs[i];
    assert PortableOr(last) && NullSafeCond(row, last);
    assert !Fields(before).hasOr;
    AlternativesAgree(db, row, last, |last.branches|);
    OrAccepts(db, row, Fields(before), Alternatives(last, |last.branches|));
    hide Fields, Accepts, Portable, NullSafe, Alternatives, BranchesTruth, AnyAccepts;
  }

  lemma {:induction false} AlternativesAgree(db: Database, row: Row, c: Cond, n: nat)
    requires WellFormed(c) && PortableOr(c) && NullSafeCond(row, c) && n <= |c.branches|
    ensures AnyAccepts(db, row, Alternatives(c, n)) <==> BranchesTruth(db, row, c, n).Yes?
    decreases c, n
  {
    hide Accepts, Fields, CondsTruth;
    if n > 0 {
      AlternativesAgree(db, row, c, n - 1);
      var last := c.branches[n - 1];
      if last.Sub? {
        MatchAgrees(db, row, last.conds);
        assert Match(last.conds) == Fields(last.conds);
        AndYes(BranchesTruth(db, row, c, n - 1), CondsTruth(db, row, last.conds));
        AnySnocDoc(db, row, Alternatives(c, n - 1), Match(last.conds));
      } else {
        assert Alternatives(c, n - 1) + [] == Alternatives(c, n - 1);
      }
      hide AnyAccepts;
    }
  }

  lemma AnySnocDoc(db: Database, row: Row, ds: seq<Doc>, d: Doc)
    ensures AnyAccepts(db, row, ds + [d]) <==> AnyAccepts(db, row, ds) || Accepts(db, row, d)
  {
    hide Accepts;
    var all := ds + [d];
    if Accepts(db, row, d) {
      assert Accepts(db, row, all[|ds|]);
    }
    if AnyAccepts(db, row, ds) {
      var i :| 0 <= i < |ds| && Accepts(db, row, ds[i]);
      assert Accepts(db, row, all[i]);
    }
  }

  lemma {:induction false} PortableUndated(cs: seq<Cond>)
    requires AllWellFormed(cs) && Portable(cs)
    ensures NoneDated(cs)
    decreases cs, 0
  {
    forall i | 0 <= i < |cs|
      ensures NoDates(cs[i])
    {
      if cs[i].Or? {
        PortableOrUndated(cs[i]);
      }
    }
  }

  lemma {:induction false} PortableOrUndated(c: Cond)
    requires WellFormed(c) && PortableOr(c)
    ensures NoDates(c)
    decreases c, 1
  {
    forall i | 0 <= i < |c.branches| && c.branches[i].Sub?
      ensures NoneDated(c.branches[i].conds)
    {
      PortableUndated(c.branches[i].conds);
    }
  }

  // The server takes what is portable.

  predicate AnySub(branches: seq<Branch>, n: nat)
    requires n <= |branches|
  {
    exists i :: 0 <= i < n && branches[i].Sub?
  }

  lemma AnySubStep(branches: seq<Branch>, n: nat)
    requires n < |branches|
    ensures AnySub(branches, n + 1) <==> AnySub(branches, n) || branches[n].Sub?
  {
  }

  predicate AllComplete(ds: seq<Doc>) {
    forall k :: 0 <= k < |ds| ==> Complete(ds[k])
  }

  lemma AllCompleteSnoc(ds: seq<Doc>, d: Doc)
    ensures AllComplete(ds + [d]) <==> AllComplete(ds) && Complete(d)
  {
    hide Complete;
    var all := ds + [d];
    assert all[|ds|] == d && forall k :: 0 <= k < |ds| ==> all[k] == ds[k];
  }

  lemma {:induction false} PortableTaken(cs: seq<Cond>)
    requires AllWellFormed(cs) && Portable(cs)
    ensures Complete(Fields(cs))
    decreases cs, 0
  {
    if cs != [] {
      var n := |cs| - 1;
      PortablePrefix(cs, n);
      PortableTaken(cs[..n]);
      assert Fields(cs) == Written(Fields(cs[..n]), cs[n]);
      if cs[n].Or? {
        AlternativesTaken(cs[n], |cs[n].branches|);
      }
      hide Fields, Alternatives, Portable, WantOf, GetKey;
    }
  }

  lemma PortableBranch(c: Cond, i: nat)
    requires WellFormed(c) && PortableOr(c)
    ensures c.Or? && (i < |c.branches| && c.branches[i].Sub? ==>
                        c.branches[i].conds != [] && AllWellFormed(c.branches[i].conds) && Portable(c.branches[i].conds))
  {
    hide Portable;
  }

  lemma {:induction false} AlternativesTaken(c: Cond, n: nat)
    requires WellFormed(c) && PortableOr(c) && n <= |c.branches|
    ensures Alternatives(c, n) != [] <==> AnySub(c.branches, n)
    ensures AllComplete(Alternatives(c, n))
    decreases c, n
  {
    hide Complete, Fields, Portable, PortableOr;
    if n > 0 {
      PortableBranch(c, n - 1);
      AlternativesTaken(c, n - 1);
      AnySubStep(c.branches, n - 1);
      var last, rest := c.branches[n - 1], Alternatives(c, n - 1);
      if last.Sub? {
        PortableTaken(last.conds);
        MatchIs(last.conds);
        assert Alternatives(c, n) == rest + [Match(last.conds)];
        AllCompleteSnoc(rest, Match(last.conds));
      } else {
        assert Alternatives(c, n) == rest + [] == rest;
      }
      hide Alternatives, AnySub, AllComplete;
    }
  }

  /** One list of conditions, two stores, the same rows: the document accepts what the WHERE clause accepts. */
  lemma SameRows(db: Database, row: Row, cs: seq<Cond>)
    requires AllWellFormed(cs) && AllPlainKeys(cs) && cs != [] && CondsText(cs).Built?
    requires Portable(cs) && NullSafe(row, cs)
    ensures |CondsText(cs).text| >= 3 && Taken(Match(cs))
    ensures var q := ReadWhere(Where(CondsText(cs).text), CondsText(cs).args);
            q.Some? && GoodAlts(q.value) && (Accepts(db, row, Match(cs)) <==> AltsTruth(db, row, q.value).Yes?)
  {
    hide *;
    PortableUndated(cs);
    WhereAccepts(db, row, cs);
    MatchAgrees(db, row, cs);
    PortableTaken(cs);
    MatchIs(cs);
    TakenIf(cs);
  }

  lemma TakenIf(cs: seq<Cond>)
    requires AllWellFormed(cs)
    ensures Complete(Match(cs)) ==> Taken(Match(cs))
  {
    hide Complete, Match;
  }

  lemma MatchIs(cs: seq<Cond>)
    requires AllWellFormed(cs) && cs != []
    ensures Match(cs) == Fields(cs)
  {
  }

  /** A second condition under the same name replaces the first: of two bounds on a field only the later is asked for. */
  lemma LaterReplaces(cs: seq<Cond>, a: Cond, b: Cond)
    requires AllWellFormed(cs) && WellFormed(a) && WellFormed(b)
    requires a.Leaf? && b.Leaf? && Supported(b.op) && GetKey(a.key) == GetKey(b.key)
    ensures AllWellFormed(cs + [a, b]) && AllWellFormed(cs + [b])
    ensures Match(cs + [a, b]) == Match(cs + [b])
  {
    assert cs + [a, b] == (cs + [a]) + [b];
    FieldsSnoc(cs, a);
    FieldsSnoc(cs + [a], b);
    FieldsSnoc(cs, b);
    PutTwice(Fields(cs), a, b);
    hide Fields, Written;
  }

  lemma FieldsSnoc(cs: seq<Cond>, c: Cond)
    requires AllWellFormed(cs) && WellFormed(c)
    ensures AllWellFormed(cs + [c]) && Fields(cs + [c]) == Written(Fields(cs), c)
  {
    assert AllWellFormed(cs + [c]);
    assert (cs + [c])[..|cs|] == cs;
    hide Written;
  }

  lemma PutTwice(d: Doc, a: Cond, b: Cond)
    requires d.Doc? && WellFormed(a) && WellFormed(b)
    requires a.Leaf? && b.Leaf? && Supported(b.op) && GetKey(a.key) == GetKey(b.key)
    ensures Written(Written(d, a), b) == Written(d, b)
  {
    hide WantOf, GetKey, Supported;
  }
}
