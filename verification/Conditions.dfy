/** Query conditions as callers build them (ormx/sqlc/cnd.go). */
module Conditions {
  import opened Strconv

  datatype Value = Null | Num(n: int) | Str(s: string)

  const ASC := 1
  const DESC := 2

  datatype Op =
    | Eq | NotEq | Lt | Lte | Gt | Gte
    | IsNull | IsNotNull
    | Between | NotBetween
    | In | NotIn
    | Like | NotLike

  /** A condition; an alternative of an Or that is not a Cnd is kept but ignored by every reader. */
  datatype Cond =
    | Leaf(op: Op, key: string, args: seq<Value>)
    | InDate(key: string, from: Value, to: Value)
    | Or(branches: seq<Branch>)

  datatype Branch = Sub(conds: seq<Cond>) | Other

  predicate ArityOk(op: Op, n: nat) {
    match op
    case IsNull | IsNotNull => n == 0
    case Between | NotBetween => n == 2
    case In | NotIn => n >= 1
    case _ => n == 1
  }

  /** What the builder methods guarantee. */
  predicate WellFormed(c: Cond) {
    match c
    case Leaf(op, key, args) => ArityOk(op, |args|)
    case InDate(_, _, _) => true
    case Or(branches) =>
      branches != [] && forall i :: 0 <= i < |branches| && branches[i].Sub? ==> AllWellFormed(branches[i].conds)
  }

  predicate AllWellFormed(cs: seq<Cond>) {
    forall i :: 0 <= i < |cs| ==> WellFormed(cs[i])
  }

  class Cnd {
    var conditions: seq<Cond>
    var orderbys: seq<(string, int)>
    var limitSize: int

    ghost predicate Valid()
      reads this
    {
      AllWellFormed(conditions)
    }

    constructor ()
      ensures Valid() && conditions == [] && orderbys == [] && limitSize == 0
    {
      conditions, orderbys, limitSize := [], [], 0;
    }

    /** Eq, NotEq, Lt, Lte, Gt, Gte, Like, NotLike: nothing is added for an absent value. */
    method AddValue(op: Op, key: string, value: Option<Value>)
      requires Valid() && ArityOk(op, 1)
      modifies this`conditions
      ensures Valid()
      ensures conditions == old(conditions) + if value.None? then [] else [Leaf(op, key, [value.value])]
    {
      if value.None? {
        return;
      }
      conditions := conditions + [Leaf(op, key, [value.value])];
    }

    /** One more sort key. Any other sort value panics. */
    method Orderby(key: string, sort: int)
      requires sort == ASC || sort == DESC
      modifies this`orderbys
      ensures orderbys == old(orderbys) + [(key, sort)]
    {
      orderbys := orderbys + [(key, sort)];
    }

    /** Fixed size of the result, kept within 1 to 5000. */
    method ResultSize(size: int)
      modifies this`limitSize
      ensures limitSize == if 0 < size <= 5000 then size else 50
    {
      var s := size;
      if s <= 0 {
        s := 50;
      }
      if s > 5000 {
        s := 50;
      }
      limitSize := s;
    }
  }

  // What a list of conditions means.

  /** A condition without what the SQL text drops: no InDate, no alternative that is not a Cnd. */
  datatype Term = Test(op: Op, key: string, args: seq<Value>) | Any(alts: seq<Alt>)

  datatype Alt = Alt(terms: seq<Term>)

  /** Three-valued truth, as comparisons with NULL have it. */
  datatype Truth = No | Unknown | Yes

  function And(a: Truth, b: Truth): Truth {
    if a.No? || b.No? then No else if a.Unknown? || b.Unknown? then Unknown else Yes
  }

  function Or3(a: Truth, b: Truth): Truth {
    if a.Yes? || b.Yes? then Yes else if a.Unknown? || b.Unknown? then Unknown else No
  }
}
