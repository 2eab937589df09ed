/** The WHERE text of a list of conditions, written with every separator and trimmed afterwards (base_manager.go). */
module SqlWhere {
  import opened Conditions

  function Marks(n: nat): string {
    if n == 0 then "" else Marks(n - 1) + "?,"
  }

  lemma MarksLength(n: nat)
    ensures |Marks(n)| == 2 * n
  {
  }

  /** What follows the key. The values of In and NotIn must not be empty. */
  function OpText(op: Op, n: nat): string
    requires ArityOk(op, n)
  {
    match op
    case Eq => " = ?"
    case NotEq => " <> ?"
    case Lt => " < ?"
    case Lte => " <= ?"
    case Gt => " > ?"
    case Gte => " >= ?"
    case IsNull => " is null"
    case IsNotNull => " is not null"
    case Between => " between ? and ?"
    case NotBetween => " not between ? and ?"
    case In => MarksLength(n); " in(" + Marks(n)[..2 * n - 1] + ")"
    case NotIn => MarksLength(n); " not in(" + Marks(n)[..2 * n - 1] + ")"
    case Like => " like concat('%',?,'%')"
    case NotLike => " not like concat('%',?,'%')"
  }

  function CondKey(key: string): string {
    " `" + key + "`"
  }

  /** The text so far and the arguments so far; absent where slicing below zero makes the source panic. */
  datatype Built = Panic | Built(text: string, args: seq<Value>)

  function CondText(c: Cond): Built
    requires WellFormed(c)
    decreases c, if c.Or? then |c.branches| + 1 else 0
  {
    match c
    case Leaf(op, key, args) => Built(CondKey(key) + OpText(op, |args|) + " and", args)
    case InDate(_, _, _) => Built("", [])
    case Or(branches) =>
      var b := BranchesText(c, |branches|);
      if b.Panic? || |b.text| < 3 then Panic else Built(" (" + b.text[..|b.text| - 3] + ") and", b.args)
  }

  /** The first n alternatives of an Or, each followed by " or". */
  function BranchesText(c: Cond, n: nat): Built
    requires WellFormed(c) && c.Or? && n <= |c.branches|
    decreases c, n
  {
    if n == 0 then Built("", [])
    else
      var b := BranchesText(c, n - 1);
      var last := c.branches[n - 1];
      if b.Panic? || last.Other? then b
      else
        var t := CondsText(last.conds);
        if t.Panic? || |t.text| < 3 then Panic
        else Built(b.text + t.text[..|t.text| - 3] + " or", b.args + t.args)
  }

  function CondsText(cs: seq<Cond>): Built
    requires AllWellFormed(cs)
    decreases cs, 0
  {
    if cs == [] then Built("", [])
    else
      var b := CondsText(cs[..|cs| - 1]);
      var t := CondText(cs[|cs| - 1]);
      if b.Panic? || t.Panic? then Panic else Built(b.text + t.text, b.args + t.args)
  }

  // The buffer-appending form.

  /** Append every condition; the result is absent where the source would panic. */
  method BuildWhereCase(conditions: seq<Cond>) returns (r: Built)
    requires AllWellFormed(conditions)
    ensures r == CondsText(conditions)
    decreases conditions, 0
  {
    var casePart, caseArg := "", [];
    var i := 0;
    while i < |conditions|
      invariant 0 <= i <= |conditions|
      invariant CondsText(conditions[..i]) == Built(casePart, caseArg)
    {
      var v := conditions[i];
      Prefix(conditions, i);
      hide CondText;
      var t := AppendCase(v);
      if t.Panic? {
        PanicStays(conditions, i + 1);
        return Panic;
      }
      casePart := casePart + t.text;
      caseArg := caseArg + t.args;
      i := i + 1;
    }
    assert conditions[..i] == conditions;
    r := Built(casePart, caseArg);
  }

  method AppendCase(v: Cond) returns (r: Built)
    requires WellFormed(v)
    ensures r == CondText(v)
    decreases v, if v.Or? then |v.branches| + 1 else 0
  {
    match v {
      case Leaf(op, key, args) =>
        r := Built(CondKey(key) + OpText(op, |args|) + " and", args);
      case InDate(_, _, _) =>
        r := Built("", []);
      case Or(branches) =>
        var b := AppendBranches(v);
        if b.Panic? || |b.text| < 3 {
          return Panic;
        }
        r := Built(" (" + b.text[..|b.text| - 3] + ") and", b.args);
    }
  }

  method AppendBranches(v: Cond) returns (r: Built)
    requires WellFormed(v) && v.Or?
    ensures r == BranchesText(v, |v.branches|)
    decreases v, |v.branches|
  {
    var orPart, args := "", [];
    var i := 0;
    while i < |v.branches|
      invariant 0 <= i <= |v.branches|
      invariant BranchesText(v, i) == Built(orPart, args)
    {
      match v.branches[i] {
        case Other => // not a Cnd: ignored
        case Sub(conds) =>
          var t := BuildWhereCase(conds);
          if t.Panic? || |t.text| < 3 {
            BranchPanicStays(v, i + 1, |v.branches|);
            return Panic;
          }
          orPart := orPart + t.text[..|t.text| - 3] + " or";
          args := args + t.args;
      }
      i := i + 1;
    }
    r := Built(orPart, args);
  }

  lemma Prefix(cs: seq<Cond>, i: nat)
    requires i < |cs| && AllWellFormed(cs)
    ensures AllWellFormed(cs[..i]) && AllWellFormed(cs[..i + 1])
    ensures cs[..i + 1][..i] == cs[..i] && cs[..i + 1][i] == cs[i]
  {
  }

  lemma {:induction false} PanicStays(cs: seq<Cond>, i: nat)
    requires i <= |cs| && AllWellFormed(cs) && CondsText(cs[..i]).Panic?
    ensures CondsText(cs).Panic?
    decreases |cs| - i
  {
    if i == |cs| {
      assert cs[..i] == cs;
    } else {
      assert cs[..i + 1][..i] == cs[..i];
      PanicStays(cs, i + 1);
    }
  }

  lemma {:induction false} BranchPanicStays(c: Cond, i: nat, n: nat)
    requires WellFormed(c) && c.Or? && i <= n <= |c.branches| && BranchesText(c, i).Panic?
    ensures BranchesText(c, n).Panic?
    decreases n - i
  {
    if i < n {
      BranchPanicStays(c, i, n - 1);
    }
  }
}
