/** What the WHERE text means. */
module SqlMeaning {
  import opened Strconv
  import opened Conditions

  /** The terms a list of conditions stands for; none where an Or or one of its alternatives has nothing in it. */
  datatype Meant = Empty | Means(terms: seq<Term>)

  function CondMeaning(c: Cond): Meant
    decreases c, if c.Or? then |c.branches| + 1 else 0
  {
    match c
    case Leaf(op, key, args) => Means([Test(op, key, args)])
    case InDate(_, _, _) => Means([])
    case Or(branches) =>
      var alts := AltsMeaning(c, |branches|);
      if alts.None? || alts.value == [] then Empty else Means([Any(alts.value)])
  }

  function AltsMeaning(c: Cond, n: nat): Option<seq<Alt>>
    requires c.Or? && n <= |c.branches|
    decreases c, n
  {
    if n == 0 then Some([])
    else
      var before := AltsMeaning(c, n - 1);
      match c.branches[n - 1]
      case Other => before
      case Sub(conds) =>
        var m := CondsMeaning(conds);
        if before.None? || m.Empty? || m.terms == [] then None else Some(before.value + [Alt(m.terms)])
  }

  function CondsMeaning(cs: seq<Cond>): Meant
    decreases cs, 0
  {
    if cs == [] then Means([])
    else
      var before := CondsMeaning(cs[..|cs| - 1]);
      var last := CondMeaning(cs[|cs| - 1]);
      if before.Empty? || last.Empty? then Empty else Means(before.terms + last.terms)
  }
}
