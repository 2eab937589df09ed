/** Cursor pagination (the fast-page part of FindList in mongo_manager.go): following lastID, and going back with prevID. */
module FastPage {
  import opened Strconv
  import opened Conditions
  import opened QueryTruth
  import opened Sequences
  import opened MongoMatch

  /** The fast-page settings of a query; sortParam is the direction the rows are fetched in. */
  datatype Paging = Paging(key: string, sort: int, prevID: int, lastID: int, size: int, sortParam: int)

  /** Cnd.FastPage: an empty key panics. */
  method NewPaging(key: string, sort: int, prevID: int, lastID: int, pageSize: int) returns (p: Paging)
    requires key != ""
    ensures p == Paging(key, sort, prevID, lastID, if 0 < pageSize <= 5000 then pageSize else 50, 0)
  {
    var size := pageSize;
    if size <= 0 {
      size := 50;
    }
    if size > 5000 {
      size := 50;
    }
    p := Paging(key, sort, prevID, lastID, size, 0);
  }

  /** The conditions a cursor adds: rows beyond lastID in sort order, or before prevID. */
  function CursorConds(p: Paging): seq<Cond> {
    (if p.prevID > 0 then [Leaf(if p.sort == DESC then Gt else Lt, p.key, [Num(p.prevID)])] else [])
    + (if p.lastID > 0 then [Leaf(if p.sort == DESC then Lt else Gt, p.key, [Num(p.lastID)])] else [])
  }

  /** Backwards only for a lone prevID. */
  function Direction(p: Paging): int {
    if p.lastID > 0 then p.sort
    else if p.prevID > 0 then if p.sort == DESC then ASC else DESC
    else if p.prevID == 0 && p.lastID == 0 then p.sort
    else p.sortParam
  }

  /** What FindList does to the query before it is sent. Any other sort value panics. */
  method Prepare(cnd: Cnd, p: Paging) returns (q: Paging)
    requires cnd.Valid() && (p.sort == ASC || p.sort == DESC)
    modifies cnd
    ensures cnd.Valid() && cnd.conditions == old(cnd.conditions) + CursorConds(p)
    ensures cnd.orderbys == old(cnd.orderbys) + if p.prevID == 0 && p.lastID == 0 then [(p.key, p.sort)] else []
    ensures cnd.limitSize == if 0 < p.size <= 5000 then p.size else 50
    ensures q == p.(sortParam := Direction(p))
  {
    q := p;
    cnd.ResultSize(p.size);
    if p.prevID == 0 && p.lastID == 0 {
      cnd.Orderby(p.key, p.sort);
      q := q.(sortParam := p.sort);
    }
    if p.sort == DESC {
      if p.prevID > 0 {
        cnd.AddValue(Gt, p.key, Some(Num(p.prevID)));
        q := q.(sortParam := ASC);
      }
      if p.lastID > 0 {
        cnd.AddValue(Lt, p.key, Some(Num(p.lastID)));
        q := q.(sortParam := DESC);
      }
    } else {
      if p.prevID > 0 {
        cnd.AddValue(Lt, p.key, Some(Num(p.prevID)));
        q := q.(sortParam := DESC);
      }
      if p.lastID > 0 {
        cnd.AddValue(Gt, p.key, Some(Num(p.lastID)));
        q := q.(sortParam := ASC);
      }
    }
  }

  /** The remaining sort keys, without the paging key. */
  function OtherSorts(orderbys: seq<(string, int)>, key: string): seq<(string, int)> {
    if orderbys == [] then []
    else
      var (k, sort) := orderbys[|orderbys| - 1];
      var rest := OtherSorts(orderbys[..|orderbys| - 1], key);
      if GetKey(k) == GetKey(key) then rest else rest + [(GetKey(k), Order(sort))]
  }

  /** sorts are the entries at those places, in order, under their stored names. */
  predicate EntriesAt(orderbys: seq<(string, int)>, key: string, sorts: seq<(string, int)>, at: seq<nat>) {
    && |at| == |sorts| && (forall j, k :: 0 <= j < k < |at| ==> at[j] < at[k])
    && forall j :: 0 <= j < |at| ==>
         && at[j] < |orderbys| && GetKey(orderbys[at[j]].0) != GetKey(key)
         && sorts[j] == (GetKey(orderbys[at[j]].0), if orderbys[at[j]].1 == DESC then -1 else 1)
  }

  /** They are those entries, each in its place, whose stored name is not the paging key's; repeated ones stay repeated. */
  lemma {:induction false} OtherSortsAre(orderbys: seq<(string, int)>, key: string) returns (at: seq<nat>)
    ensures EntriesAt(orderbys, key, OtherSorts(orderbys, key), at)
    ensures forall i :: 0 <= i < |orderbys| && GetKey(orderbys[i].0) != GetKey(key) ==> i in at
  {
    hide *;
    OtherSortsStep(orderbys, key);
    at := [];
    if orderbys != [] {
      var n := |orderbys| - 1;
      var rest, last := orderbys[..n], orderbys[n];
      at := OtherSortsAre(rest, key);
      EntriesMore(rest, last, key, OtherSorts(rest, key), at);
      if GetKey(last.0) != GetKey(key) {
        InMore(at, n);
        at := at + [n];
      }
    }
  }

  lemma OtherSortsStep(orderbys: seq<(string, int)>, key: string)
    ensures orderbys == [] ==> EntriesAt([], key, OtherSorts(orderbys, key), [])
    ensures orderbys != [] ==>
              var (rest, last) := (orderbys[..|orderbys| - 1], orderbys[|orderbys| - 1]);
              && orderbys == rest + [last]
              && OtherSorts(orderbys, key) == if GetKey(last.0) == GetKey(key) then OtherSorts(rest, key)
                                              else OtherSorts(rest, key) + [(GetKey(last.0), Order(last.1))]
  {
    hide GetKey, Order;
  }

  lemma InMore(at: seq<nat>, n: nat)
    ensures n in at + [n] && forall i :: i in at ==> i in at + [n]
  {
    assert (at + [n])[|at|] == n;
  }

  lemma EntriesMore(rest: seq<(string, int)>, last: (string, int), key: string, sorts: seq<(string, int)>, at: seq<nat>)
    requires EntriesAt(rest, key, sorts, at)
    ensures EntriesAt(rest + [last], key, sorts, at)
    ensures GetKey(last.0) != GetKey(key) ==>
              EntriesAt(rest + [last], key, sorts + [(GetKey(last.0), Order(last.1))], at + [|rest|])
  {
    hide GetKey;
    var all := rest + [last];
    assert all[|rest|] == last && forall i :: 0 <= i < |rest| ==> all[i] == rest[i];
  }

  function Order(sort: int): int {
    if sort == DESC then -1 else 1
  }

  /** With fast paging its key leads; the other keys follow in their order, under their stored names. Without it the paging
      key is empty, and empty sort keys are passed over. */
  method BuildMongoSortBy(fast: Option<Paging>, orderbys: seq<(string, int)>) returns (sortBys: seq<(string, int)>)
    ensures fast.Some? ==>
              sortBys == [(GetKey(fast.value.key), Order(fast.value.sortParam))] + OtherSorts(orderbys, fast.value.key)
    ensures fast.None? ==> sortBys == OtherSorts(orderbys, "")
  {
    sortBys := [];
    var pagingKey := "";
    if fast.Some? {
      pagingKey := fast.value.key;
      sortBys := [(GetKey(pagingKey), Order(fast.value.sortParam))];
    }
    ghost var head := sortBys;
    var i := 0;
    while i < |orderbys|
      invariant 0 <= i <= |orderbys| && sortBys == head + OtherSorts(orderbys[..i], pagingKey)
    {
      var (k, sort) := orderbys[i];
      assert orderbys[..i + 1][..i] == orderbys[..i];
      var key := GetKey(k);
      if key != GetKey(pagingKey) {
        sortBys := sortBys + [(key, Order(sort))];
      }
      i := i + 1;
    }
    assert orderbys[..i] == orderbys;
  }

  // What the cursor filters.

  /** a stands before b. */
  predicate Comes(desc: bool, a: int, b: int) {
    if desc then a > b else a < b
  }

  /** Beyond lastID, or failing that before prevID. */
  predicate InCursor(p: Paging, n: int) {
    if p.lastID > 0 then Comes(p.sort == DESC, p.lastID, n)
    else if p.prevID > 0 then Comes(p.sort == DESC, n, p.prevID)
    else true
  }

  ghost predicate Numeric(db: Database) {
    forall a: int, b: int :: db.less(Num(a), Num(b)) == (a < b)
  }

  /** The document of a paged query accepts the base filter's rows inside the cursor; with both IDs given the later
      condition has replaced the earlier one. */
  lemma CursorAccepts(db: Database, row: Row, cs: seq<Cond>, p: Paging, n: int)
    requires AllWellFormed(cs) && GetKey(p.key) !in Fields(cs).fields && p.key != BID
    requires Numeric(db) && Cell(row, p.key) == Num(n)
    ensures AllWellFormed(cs + CursorConds(p))
    ensures Accepts(db, row, Fields(cs + CursorConds(p))) <==> Accepts(db, row, Fields(cs)) && InCursor(p, n)
  {
    var back := Leaf(if p.sort == DESC then Gt else Lt, p.key, [Num(p.prevID)]);
    var on := Leaf(if p.sort == DESC then Lt else Gt, p.key, [Num(p.lastID)]);
    if p.lastID > 0 {
      LastWins(cs, p, back, on);
      OneCursor(db, row, cs, p.key, on, n);
    } else if p.prevID > 0 {
      assert CursorConds(p) == [back];
      OneCursor(db, row, cs, p.key, back, n);
    } else {
      assert cs + [] == cs;
    }
    hide Fields, Accepts;
  }

  lemma LastWins(cs: seq<Cond>, p: Paging, back: Cond, on: Cond)
    requires AllWellFormed(cs) && p.lastID > 0
    requires back == Leaf(if p.sort == DESC then Gt else Lt, p.key, [Num(p.prevID)])
    requires on == Leaf(if p.sort == DESC then Lt else Gt, p.key, [Num(p.lastID)])
    ensures AllWellFormed(cs + CursorConds(p)) && AllWellFormed(cs + [on])
    ensures Fields(cs + CursorConds(p)) == Fields(cs + [on])
  {
    LaterReplaces(cs, back, on);
    assert CursorConds(p) == if p.prevID > 0 then [back, on] else [on];
    MatchIs(cs + [back, on]);
    MatchIs(cs + [on]);
    hide Fields, Match;
  }

  lemma OneCursor(db: Database, row: Row, cs: seq<Cond>, key: string, c: Cond, n: int)
    requires AllWellFormed(cs) && GetKey(key) !in Fields(cs).fields && key != BID
    requires Numeric(db) && Cell(row, key) == Num(n)
    requires c.Leaf? && c.key == key && (c.op.Gt? || c.op.Lt?) && |c.args| == 1 && c.args[0].Num?
    ensures AllWellFormed(cs + [c])
    ensures Accepts(db, row, Fields(cs + [c])) <==>
            Accepts(db, row, Fields(cs)) && if c.op.Gt? then n > c.args[0].n else n < c.args[0].n
  {
    FieldsSnoc(cs, c);
    PutAccepts(db, row, Fields(cs), GetKey(key), WantOf(c.op, c.args));
    StoredIs(row, key);
    hide Fields, Accepts, GetKey, Put;
  }

  // Answers: the first rows in order.

  ghost predicate Ordered(desc: bool, r: seq<int>) {
    forall i, j :: 0 <= i < j < |r| ==> Comes(desc, r[i], r[j])
  }

  /** r lists the first size elements of kept, in order. */
  ghost predicate IsAnswer(kept: set<int>, desc: bool, size: int, r: seq<int>) {
    && Ordered(desc, r) && |r| <= size
    && (forall i :: 0 <= i < |r| ==> r[i] in kept)
    && forall x :: x in kept ==> x in r || (|r| == size && forall i :: 0 <= i < |r| ==> Comes(desc, r[i], x))
  }

  function Kept(ids: set<int>, p: Paging): set<int> {
    set n | n in ids && InCursor(p, n)
  }

  lemma {:induction false} SamePrefix(kept: set<int>, desc: bool, size: int, a: seq<int>, b: seq<int>, i: nat)
    requires IsAnswer(kept, desc, size, a) && IsAnswer(kept, desc, size, b) && i <= |a| && i <= |b|
    ensures forall k :: 0 <= k < i ==> a[k] == b[k]
  {
    if i > 0 {
      SamePrefix(kept, desc, size, a, b, i - 1);
      NotBefore(kept, desc, size, a, b, i - 1);
      NotBefore(kept, desc, size, b, a, i - 1);
      hide IsAnswer;
    }
  }

  lemma NotBefore(kept: set<int>, desc: bool, size: int, a: seq<int>, b: seq<int>, i: nat)
    requires IsAnswer(kept, desc, size, a) && IsAnswer(kept, desc, size, b) && i < |a| && i < |b|
    requires forall k :: 0 <= k < i ==> a[k] == b[k]
    ensures !Comes(desc, a[i], b[i])
  {
    var x := a[i];
    assert x in kept;
    if Comes(desc, x, b[i]) {
      forall j | 0 <= j < |b|
        ensures b[j] != x
      {
        if j < i {
          assert Comes(desc, a[j], x);
        } else if j > i {
          assert Comes(desc, b[i], b[j]);
        }
      }
    }
  }

  /** There is only one answer. */
  lemma AnswerUnique(kept: set<int>, desc: bool, size: int, a: seq<int>, b: seq<int>)
    requires IsAnswer(kept, desc, size, a) && IsAnswer(kept, desc, size, b)
    ensures a == b
  {
    NotShorter(kept, desc, size, a, b);
    NotShorter(kept, desc, size, b, a);
    SamePrefix(kept, desc, size, a, b, |a|);
  }

  lemma NotShorter(kept: set<int>, desc: bool, size: int, a: seq<int>, b: seq<int>)
    requires IsAnswer(kept, desc, size, a) && IsAnswer(kept, desc, size, b)
    ensures |a| >= |b|
  {
    if |a| < |b| {
      SamePrefix(kept, desc, size, a, b, |a|);
      NotInPrefix(kept, desc, size, a, b);
    }
  }

  /** The element after a proper prefix would have belonged to a shorter answer. */
  lemma NotInPrefix(kept: set<int>, desc: bool, size: int, a: seq<int>, b: seq<int>)
    requires IsAnswer(kept, desc, size, b) && |a| < |b| && forall k :: 0 <= k < |a| ==> a[k] == b[k]
    ensures !IsAnswer(kept, desc, size, a)
  {
    var x := b[|a|];
    assert x in kept;
    assert forall j :: 0 <= j < |a| ==> Comes(desc, b[j], x);
    assert x !in a;
  }

  // Following the cursor.

  function NextPage(p: Paging, page: seq<int>): Paging
    requires page != []
  {
    p.(prevID := 0, lastID := page[|page| - 1])
  }

  /** Page i answers the query with the last ID of the page before it. */
  ghost predicate PageOk(ids: set<int>, p: Paging, pages: seq<seq<int>>, i: nat)
    requires i < |pages|
  {
    && (i > 0 ==> pages[i - 1] != [])
    && IsAnswer(Kept(ids, if i == 0 then p else NextPage(p, pages[i - 1])), p.sort == DESC, p.size, pages[i])
  }

  /** Pages fetched one after another. */
  ghost predicate Forward(ids: set<int>, p: Paging, pages: seq<seq<int>>) {
    && p.size > 0 && p.prevID == 0 && p.lastID == 0
    && forall i :: 0 <= i < |pages| ==> PageOk(ids, p, pages, i)
  }

  function Flat<T>(pages: seq<seq<T>>): seq<T> {
    if pages == [] then [] else Flat(pages[..|pages| - 1]) + pages[|pages| - 1]
  }

  /** s lists the first elements of ids in order, and ends with last if there is one. */
  ghost predicate Leads(ids: set<int>, desc: bool, s: seq<int>) {
    && Ordered(desc, s)
    && (forall i :: 0 <= i < |s| ==> s[i] in ids)
    && forall x :: x in ids ==> x in s || forall i :: 0 <= i < |s| ==> Comes(desc, s[i], x)
  }

  lemma Extend(ids: set<int>, p: Paging, s: seq<int>, page: seq<int>)
    requires Leads(ids, p.sort == DESC, s) && s != [] && s[|s| - 1] > 0 && p.size > 0
    requires IsAnswer(Kept(ids, p.(prevID := 0, lastID := s[|s| - 1])), p.sort == DESC, p.size, page)
    ensures Leads(ids, p.sort == DESC, s + page)
    ensures |page| < p.size ==> forall x :: x in ids ==> x in s + page
  {
    var desc := p.sort == DESC;
    var last := s[|s| - 1];
    var kept := Kept(ids, p.(prevID := 0, lastID := last));
    var all := s + page;
    forall i, j | 0 <= i < j < |all|
      ensures Comes(desc, all[i], all[j])
    {
      if i < |s| <= j {
        assert page[j - |s|] in kept;
        assert i < |s| - 1 ==> Comes(desc, s[i], last);
      }
    }
    forall x | x in ids
      ensures x in all || forall i :: 0 <= i < |all| ==> Comes(desc, all[i], x)
      ensures |page| < p.size ==> x in all
    {
      if x in s {
        var k :| 0 <= k < |s| && s[k] == x;
        assert all[k] == x;
      } else {
        assert x in kept;
        if x in page {
          var k :| 0 <= k < |page| && page[k] == x;
          assert all[|s| + k] == x;
        }
      }
    }
  }

  lemma FirstPage(ids: set<int>, p: Paging, page: seq<int>)
    requires IsAnswer(Kept(ids, p), p.sort == DESC, p.size, page) && p.prevID == 0 && p.lastID == 0
    ensures Leads(ids, p.sort == DESC, page)
    ensures |page| < p.size ==> forall x :: x in ids ==> x in page
  {
    assert Kept(ids, p) == ids;
  }

  /** Following lastID visits every row exactly once, in sort order: what has been seen so far are always the first rows,
      none twice, and a short page means that all have been seen. */
  lemma {:induction false} ForwardVisits(ids: set<int>, p: Paging, pages: seq<seq<int>>)
    requires Forward(ids, p, pages) && pages != [] && forall x :: x in ids ==> x > 0
    ensures Leads(ids, p.sort == DESC, Flat(pages))
    ensures |pages[|pages| - 1]| < p.size ==> forall x :: x in ids ==> x in Flat(pages)
    ensures pages[|pages| - 1] != [] ==> Flat(pages) != [] && Flat(pages)[|Flat(pages)| - 1] == pages[|pages| - 1][|pages[|pages| - 1]| - 1]
  {
    var n := |pages| - 1;
    FlatSnoc(pages[..n], pages[n]);
    assert pages == pages[..n] + [pages[n]];
    assert PageOk(ids, p, pages, n);
    hide Leads, IsAnswer, Kept;
    if n == 0 {
      assert [] + pages[0] == pages[0];
      FirstPage(ids, p, pages[0]);
    } else {
      var before := pages[..n];
      ForwardPrefix(ids, p, pages);
      ForwardVisits(ids, p, before);
      assert before[|before| - 1] == pages[n - 1];
      VisitNext(ids, p, Flat(before), pages[n]);
    }
  }

  lemma FlatSnoc(pages: seq<seq<int>>, page: seq<int>)
    ensures Flat(pages + [page]) == Flat(pages) + page
  {
    assert (pages + [page])[..|pages|] == pages;
  }

  lemma ForwardPrefix(ids: set<int>, p: Paging, pages: seq<seq<int>>)
    requires Forward(ids, p, pages) && |pages| > 1
    ensures Forward(ids, p, pages[..|pages| - 1])
  {
    var before := pages[..|pages| - 1];
    forall i | 0 <= i < |before|
      ensures PageOk(ids, p, before, i)
    {
      assert PageOk(ids, p, pages, i);
      hide IsAnswer, Kept;
    }
  }

  lemma VisitNext(ids: set<int>, p: Paging, s: seq<int>, page: seq<int>)
    requires Leads(ids, p.sort == DESC, s) && s != [] && p.size > 0 && forall x :: x in ids ==> x > 0
    requires IsAnswer(Kept(ids, p.(prevID := 0, lastID := s[|s| - 1])), p.sort == DESC, p.size, page)
    ensures Leads(ids, p.sort == DESC, s + page)
    ensures |page| < p.size ==> forall x :: x in ids ==> x in s + page
  {
    assert s[|s| - 1] in ids;
    hide Leads, IsAnswer, Kept;
    Extend(ids, p, s, page);
  }

  // Going back.

  /** prevID taken from the first row of a page returns the page before it, in reverse. */
  lemma BackReturnsPrevious(ids: set<int>, p: Paging, pages: seq<seq<int>>, i: nat, back: seq<int>)
    requires Forward(ids, p, pages) && i + 1 < |pages| && pages[i + 1] != [] && forall x :: x in ids ==> x > 0
    requires p.sort == ASC || p.sort == DESC
    requires var q := p.(prevID := pages[i + 1][0], lastID := 0);
             IsAnswer(Kept(ids, q), Direction(q) == DESC, p.size, back)
    ensures back == Reversed(pages[i])
  {
    var desc := p.sort == DESC;
    var q := p.(prevID := pages[i + 1][0], lastID := 0);
    var first := pages[i + 1][0];
    var page := pages[i];
    assert PageOk(ids, p, pages, i) && PageOk(ids, p, pages, i + 1);
    var kept := Kept(ids, if i == 0 then p else NextPage(p, pages[i - 1]));
    var keptNext := Kept(ids, NextPage(p, page));
    assert first in keptNext && first in ids;
    Seen(ids, p, pages, i);
    FullPage(kept, desc, p.size, page, first);
    FirstOf(keptNext, desc, p.size, pages[i + 1]);
    assert NextPage(p, page) == p.(lastID := page[|page| - 1]);
    ReverseAnswers(ids, p, page, first, if i == 0 then 0 else pages[i - 1][|pages[i - 1]| - 1], keptNext);
    AnswerUnique(Kept(ids, q), Direction(q) == DESC, p.size, back, Reversed(page));
  }

  lemma FirstOf(kept: set<int>, desc: bool, size: int, page: seq<int>)
    requires IsAnswer(kept, desc, size, page) && page != []
    ensures forall x :: x in kept ==> x == page[0] || Comes(desc, page[0], x)
  {
    forall x | x in kept
      ensures x == page[0] || Comes(desc, page[0], x)
    {
      if x in page {
        var k :| 0 <= k < |page| && page[k] == x;
      }
    }
  }

  /** The first row of the next page comes after the last of this one. */
  lemma Seen(ids: set<int>, p: Paging, pages: seq<seq<int>>, i: nat)
    requires Forward(ids, p, pages) && i + 1 < |pages| && pages[i + 1] != [] && forall x :: x in ids ==> x > 0
    ensures pages[i] != [] && (i > 0 ==> pages[i - 1] != [])
    ensures var (page, first) := (pages[i], pages[i + 1][0]);
            && Comes(p.sort == DESC, page[|page| - 1], first)
            && page[|page| - 1] > 0
            && first in Kept(ids, if i == 0 then p else NextPage(p, pages[i - 1]))
            && (i > 0 ==> pages[i - 1][|pages[i - 1]| - 1] > 0)
  {
    assert PageOk(ids, p, pages, i) && PageOk(ids, p, pages, i + 1);
    var page, first := pages[i], pages[i + 1][0];
    assert first in Kept(ids, NextPage(p, page));
    assert page[|page| - 1] in ids;
    if i > 0 {
      var before := pages[i - 1];
      assert PageOk(ids, p, pages, i - 1);
      assert before[|before| - 1] in ids;
      assert page[|page| - 1] in Kept(ids, NextPage(p, before));
    }
  }

  /** A page with something after it is full. */
  lemma FullPage(kept: set<int>, desc: bool, size: int, page: seq<int>, later: int)
    requires IsAnswer(kept, desc, size, page) && page != [] && later in kept && Comes(desc, page[|page| - 1], later)
    ensures |page| == size
  {
    assert forall k :: 0 <= k < |page| - 1 ==> Comes(desc, page[k], page[|page| - 1]);
    assert later !in page;
  }

  /** The rows of a full page, reversed, are the nearest ones before what follows it. */
  lemma ReverseAnswers(ids: set<int>, p: Paging, page: seq<int>, first: int, cursor: int, beyond: set<int>)
    requires p.prevID == 0 && p.lastID == 0 && (p.sort == ASC || p.sort == DESC)
    requires IsAnswer(Kept(ids, if cursor > 0 then p.(lastID := cursor) else p), p.sort == DESC, p.size, page)
    requires page != [] && |page| == p.size && first > 0 && Comes(p.sort == DESC, page[|page| - 1], first)
    requires beyond == Kept(ids, p.(lastID := page[|page| - 1])) && first in beyond && page[|page| - 1] > 0
    requires forall x :: x in beyond ==> x == first || Comes(p.sort == DESC, first, x)
    ensures var q := p.(prevID := first);
            IsAnswer(Kept(ids, q), Direction(q) == DESC, p.size, Reversed(page))
  {
    var desc := p.sort == DESC;
    var last := page[|page| - 1];
    var q := p.(prevID := first);
    var r := Reversed(page);
    var kept := Kept(ids, if cursor > 0 then p.(lastID := cursor) else p);
    forall i | 0 <= i < |r|
      ensures r[i] in Kept(ids, q)
    {
      assert page[|page| - 1 - i] in kept;
      assert i > 0 ==> Comes(desc, page[|page| - 1 - i], last);
    }
    forall x | x in Kept(ids, q)
      ensures x in r || forall i :: 0 <= i < |r| ==> Comes(!desc, r[i], x)
    {
      assert x !in beyond && !Comes(desc, last, x);
      if x in page {
        var k :| 0 <= k < |page| && page[k] == x;
        assert r[|page| - 1 - k] == x;
      } else if x !in kept {
        assert !Comes(desc, cursor, x);
        forall i | 0 <= i < |r|
          ensures Comes(!desc, r[i], x)
        {
          assert page[|page| - 1 - i] in kept;
        }
      }
    }
  }
}
