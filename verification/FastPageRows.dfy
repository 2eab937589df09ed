/** The whole query FindList sends for a page, and what following the cursors returns of a collection of rows. */
module FastPageRows {
  import opened Conditions
  import opened FastPage
  import opened MongoMatch
  import opened QueryTruth
  import opened Sequences
  import opened Strconv

  /** A find command; a limit of zero is none. */
  datatype Query = Query(filter: Doc, sort: seq<(string, int)>, skip: int, limit: int)

  /** A fixed result size goes first, then offset paging, then numbered pages. */
  method BuildMongoLimit(limitSize: int, pageNo: int, pageSize: int, isOffset: bool) returns (offset: int, limit: int)
    ensures limitSize > 0 ==> (offset, limit) == (0, limitSize)
    ensures limitSize <= 0 && pageNo == 0 && pageSize == 0 ==> (offset, limit) == (0, 0)
    ensures limitSize <= 0 && (pageNo != 0 || pageSize != 0) ==>
              && limit == (if pageSize > 0 then pageSize else 10)
              && offset == (if isOffset then pageNo else (pageNo - 1) * limit)
  {
    if limitSize > 0 {
      return 0, limitSize;
    }
    if pageNo == 0 && pageSize == 0 {
      return 0, 0;
    }
    var size := pageSize;
    if size <= 0 {
      size := 10;
    }
    if isOffset {
      return pageNo, size;
    }
    return (pageNo - 1) * size, size;
  }

  function Clamped(size: int): int {
    if 0 < size <= 5000 then size else 50
  }

  /** The query for a page of the rows that meet cs. */
  function Sent(cs: seq<Cond>, orderbys: seq<(string, int)>, p: Paging): Query
    requires AllWellFormed(cs + CursorConds(p))
  {
    Query(Match(cs + CursorConds(p)), [(GetKey(p.key), Order(Direction(p)))] + OtherSorts(orderbys, p.key), 0, Clamped(p.size))
  }

  /** What FindList does with a fast-paging Cnd, up to the find command. */
  method FindListQuery(cnd: Cnd, p: Paging) returns (q: Query)
    requires cnd.Valid() && (p.sort == ASC || p.sort == DESC)
    modifies cnd
    ensures AllWellFormed(old(cnd.conditions) + CursorConds(p))
    ensures q == Sent(old(cnd.conditions), old(cnd.orderbys), p)
  {
    ghost var cs, orderbys := cnd.conditions, cnd.orderbys;
    hide OtherSorts, Match, Direction, CursorConds;
    var paging := Prepare(cnd, p);
    var filter := BuildMongoMatch(cnd.conditions);
    var sort := BuildMongoSortBy(Some(paging), cnd.orderbys);
    var offset, limit := BuildMongoLimit(cnd.limitSize, 0, p.size, false);
    SameSorts(orderbys, p.key, p.sort);
    q := Query(filter, sort, offset, limit);
  }

  /** The paging key among the sort keys changes nothing. */
  lemma SameSorts(orderbys: seq<(string, int)>, key: string, sort: int)
    ensures OtherSorts(orderbys + [(key, sort)], key) == OtherSorts(orderbys, key)
    ensures orderbys + [] == orderbys
  {
    assert (orderbys + [(key, sort)])[..|orderbys|] == orderbys;
  }

  // What a find command returns.

  /** a stands before b: by the first key in which they differ. */
  predicate SortsBefore(db: Database, sort: seq<(string, int)>, a: Row, b: Row) {
    sort != [] && (
      var x, y := StoredCell(a, sort[0].0), StoredCell(b, sort[0].0);
      if db.less(x, y) then sort[0].1 == 1
      else if db.less(y, x) then sort[0].1 != 1
      else SortsBefore(db, sort[1..], a, b))
  }

  /** all lists the accepted rows, each once, in an order the sort allows. */
  ghost predicate Lists(db: Database, rows: set<Row>, q: Query, all: seq<Row>) {
    && (forall i :: 0 <= i < |all| ==> all[i] in rows && Accepts(db, all[i], q.filter))
    && (forall row :: row in rows && Accepts(db, row, q.filter) ==> row in all)
    && (forall i, j :: 0 <= i < j < |all| ==> all[i] != all[j] && !SortsBefore(db, q.sort, all[j], all[i]))
  }

  function Slice(all: seq<Row>, skip: int, limit: int): seq<Row> {
    var rest := if skip <= 0 then all else if skip >= |all| then [] else all[skip..];
    if 0 < limit < |rest| then rest[..limit] else rest
  }

  /** r is a possible answer to the query, which the server has taken. */
  ghost predicate Finds(db: Database, rows: set<Row>, q: Query, r: seq<Row>) {
    Taken(q.filter) && exists all: seq<Row> :: Lists(db, rows, q, all) && r == Slice(all, q.skip, q.limit)
  }

  // Rows and their ids.

  function Id(row: Row, key: string): int {
    if Cell(row, key).Num? then Cell(row, key).n else 0
  }

  /** Every row has a positive number under the key, no two the same. */
  ghost predicate Keyed(rows: set<Row>, key: string) {
    && (forall a :: a in rows ==> Cell(a, key).Num? && Cell(a, key).n > 0)
    && (forall a, b :: a in rows && b in rows && Id(a, key) == Id(b, key) ==> a == b)
  }

  function Ids(r: seq<Row>, key: string): (ids: seq<int>)
    ensures |ids| == |r|
  {
    seq(|r|, i requires 0 <= i < |r| => Id(r[i], key))
  }

  /** The rows the base filter accepts. */
  ghost function Base(db: Database, rows: set<Row>, cs: seq<Cond>): set<Row>
    requires AllWellFormed(cs)
  {
    set row | row in rows && Accepts(db, row, Match(cs))
  }

  ghost function IdsOf(rows: set<Row>, key: string): set<int> {
    set row | row in rows :: Id(row, key)
  }

  /** What is asked of the collection and the base filter. */
  ghost predicate Pageable(db: Database, rows: set<Row>, cs: seq<Cond>, p: Paging) {
    && AllWellFormed(cs) && GetKey(p.key) !in Fields(cs).fields && p.key != BID
    && Numeric(db) && Keyed(rows, p.key)
    && (p.sort == ASC || p.sort == DESC) && 0 < p.size <= 5000
  }

  lemma MatchOrFields(db: Database, row: Row, cs: seq<Cond>)
    requires AllWellFormed(cs)
    ensures Accepts(db, row, Match(cs)) <==> Accepts(db, row, Fields(cs))
  {
  }

  lemma CursorWellFormed(cs: seq<Cond>, p: Paging)
    requires AllWellFormed(cs)
    ensures AllWellFormed(cs + CursorConds(p))
  {
  }

  /** The query accepts the base filter's rows inside the cursor. */
  lemma SentAccepts(db: Database, rows: set<Row>, cs: seq<Cond>, p: Paging, row: Row)
    requires Pageable(db, rows, cs, p) && row in rows
    ensures AllWellFormed(cs + CursorConds(p))
    ensures Accepts(db, row, Match(cs + CursorConds(p))) <==>
            row in Base(db, rows, cs) && InCursor(p, Id(row, p.key))
  {
    CursorWellFormed(cs, p);
    MatchOrFields(db, row, cs);
    MatchOrFields(db, row, cs + CursorConds(p));
    CursorAccepts(db, row, cs, p, Id(row, p.key));
    hide Match, Fields, Accepts, CursorConds, InCursor;
  }

  /** The leading key decides. */
  lemma KeySorts(db: Database, rows: set<Row>, key: string, desc: bool, sort: seq<(string, int)>, a: Row, b: Row)
    requires Keyed(rows, key) && Numeric(db) && key != BID && a in rows && b in rows && a != b
    requires sort != [] && sort[0] == (GetKey(key), if desc then -1 else 1)
    ensures SortsBefore(db, sort, a, b) <==> Comes(desc, Id(a, key), Id(b, key))
  {
    StoredIs(a, key);
    StoredIs(b, key);
    var x, y := Id(a, key), Id(b, key);
    assert db.less(Num(x), Num(y)) == (x < y) && db.less(Num(y), Num(x)) == (y < x);
  }

  /** By their ids, the rows found are the first of those kept by the cursor. */
  lemma PageAnswers(db: Database, rows: set<Row>, cs: seq<Cond>, orderbys: seq<(string, int)>, p: Paging, r: seq<Row>)
    requires Pageable(db, rows, cs, p) && AllWellFormed(cs + CursorConds(p))
    requires Finds(db, rows, Sent(cs, orderbys, p), r)
    ensures forall i :: 0 <= i < |r| ==> r[i] in Base(db, rows, cs)
    ensures IsAnswer(Kept(IdsOf(Base(db, rows, cs), p.key), p), Direction(p) == DESC, p.size, Ids(r, p.key))
  {
    var q := Sent(cs, orderbys, p);
    var all :| Lists(db, rows, q, all) && r == Slice(all, q.skip, q.limit);
    SentIs(cs, orderbys, p);
    SliceIs(all, p.size);
    ListedIds(db, rows, cs, p, q, all);
    hide *;
    FirstOnes(db, rows, cs, p, all, r);
  }

  lemma SentIs(cs: seq<Cond>, orderbys: seq<(string, int)>, p: Paging)
    requires AllWellFormed(cs + CursorConds(p))
    ensures var q := Sent(cs, orderbys, p);
            && q.filter == Match(cs + CursorConds(p)) && q.skip == 0 && (0 < p.size <= 5000 ==> q.limit == p.size)
            && q.sort != [] && q.sort[0] == (GetKey(p.key), if Direction(p) == DESC then -1 else 1)
  {
    hide Match, OtherSorts, Direction;
  }

  lemma SliceIs(all: seq<Row>, size: int)
    requires size > 0
    ensures Slice(all, 0, size) == if size < |all| then all[..size] else all
  {
  }

  /** The rows listed: exactly the base rows inside the cursor, in order. */
  ghost predicate InOrder(db: Database, rows: set<Row>, cs: seq<Cond>, p: Paging, all: seq<Row>)
    requires AllWellFormed(cs)
  {
    && (forall row :: row in all <==> row in Base(db, rows, cs) && InCursor(p, Id(row, p.key)))
    && Ordered(Direction(p) == DESC, Ids(all, p.key))
  }

  lemma ListedIds(db: Database, rows: set<Row>, cs: seq<Cond>, p: Paging, q: Query, all: seq<Row>)
    requires Pageable(db, rows, cs, p) && AllWellFormed(cs + CursorConds(p)) && Lists(db, rows, q, all)
    requires q.filter == Match(cs + CursorConds(p))
    requires q.sort != [] && q.sort[0] == (GetKey(p.key), if Direction(p) == DESC then -1 else 1)
    ensures InOrder(db, rows, cs, p, all)
  {
    hide Match, Fields, Accepts, CursorConds, InCursor, Direction, SortsBefore, Keyed;
    var desc := Direction(p) == DESC;
    forall row
      ensures row in all <==> row in Base(db, rows, cs) && InCursor(p, Id(row, p.key))
    {
      if row in rows {
        SentAccepts(db, rows, cs, p, row);
      }
    }
    forall i, j | 0 <= i < j < |all|
      ensures Comes(desc, Id(all[i], p.key), Id(all[j], p.key))
    {
      KeySorts(db, rows, p.key, desc, q.sort, all[j], all[i]);
      Apart(rows, p.key, all[i], all[j]);
    }
  }

  lemma Apart(rows: set<Row>, key: string, a: Row, b: Row)
    requires Keyed(rows, key) && a in rows && b in rows && a != b
    ensures Id(a, key) != Id(b, key)
  {
  }

  lemma FirstOnes(db: Database, rows: set<Row>, cs: seq<Cond>, p: Paging, all: seq<Row>, r: seq<Row>)
    requires AllWellFormed(cs) && InOrder(db, rows, cs, p, all)
    requires p.size > 0 && r == if p.size < |all| then all[..p.size] else all
    ensures forall i :: 0 <= i < |r| ==> r[i] in Base(db, rows, cs)
    ensures IsAnswer(Kept(IdsOf(Base(db, rows, cs), p.key), p), Direction(p) == DESC, p.size, Ids(r, p.key))
  {
    hide Base, InCursor, Direction, Id;
    var desc, base := Direction(p) == DESC, Base(db, rows, cs);
    var ids, kept := Ids(r, p.key), Kept(IdsOf(base, p.key), p);
    forall i | 0 <= i < |r|
      ensures r[i] in base && ids[i] in kept
    {
      assert r[i] == all[i] && all[i] in all;
    }
    forall x | x in kept
      ensures x in ids || (|ids| == p.size && forall i :: 0 <= i < |ids| ==> Comes(desc, ids[i], x))
    {
      var row :| row in base && Id(row, p.key) == x;
      var k :| 0 <= k < |all| && all[k] == row;
      if k < |r| {
        assert ids[k] == x;
      } else {
        forall i | 0 <= i < |ids|
          ensures Comes(desc, ids[i], x)
        {
          assert Comes(desc, Ids(all, p.key)[i], Ids(all, p.key)[k]);
        }
      }
    }
    assert forall i :: 0 <= i < |ids| ==> ids[i] == Ids(all, p.key)[i];
  }

  // Following the cursors over rows.

  function After(p: Paging, page: seq<Row>): Paging
    requires page != []
  {
    p.(prevID := 0, lastID := Id(page[|page| - 1], p.key))
  }

  /** Page i is what FindList finds with the last id of the page before it. */
  ghost predicate Fetched(db: Database, rows: set<Row>, cs: seq<Cond>, orderbys: seq<(string, int)>, p: Paging,
                          pages: seq<seq<Row>>, i: nat)
    requires i < |pages|
  {
    && (i > 0 ==> pages[i - 1] != [])
    && var at := if i == 0 then p else After(p, pages[i - 1]);
       AllWellFormed(cs + CursorConds(at)) && Finds(db, rows, Sent(cs, orderbys, at), pages[i])
  }

  /** Pages fetched one after another. */
  ghost predicate Paged(db: Database, rows: set<Row>, cs: seq<Cond>, orderbys: seq<(string, int)>, p: Paging,
                        pages: seq<seq<Row>>) {
    && Pageable(db, rows, cs, p) && p.prevID == 0 && p.lastID == 0
    && forall i :: 0 <= i < |pages| ==> Fetched(db, rows, cs, orderbys, p, pages, i)
  }

  function PageIds(pages: seq<seq<Row>>, key: string): (ids: seq<seq<int>>)
    ensures |ids| == |pages|
  {
    seq(|pages|, i requires 0 <= i < |pages| => Ids(pages[i], key))
  }

  /** A page of rows, and its ids. */
  lemma FetchedIds(db: Database, rows: set<Row>, cs: seq<Cond>, orderbys: seq<(string, int)>, p: Paging,
                   pages: seq<seq<Row>>, i: nat)
    requires Paged(db, rows, cs, orderbys, p, pages) && i < |pages|
    ensures AllWellFormed(cs) && PageOk(IdsOf(Base(db, rows, cs), p.key), p, PageIds(pages, p.key), i)
    ensures forall j :: 0 <= j < |pages[i]| ==> pages[i][j] in Base(db, rows, cs)
  {
    hide *;
    PagedAt(db, rows, cs, orderbys, p, pages, i);
    var at := if i == 0 then p else After(p, pages[i - 1]);
    if i > 0 {
      PagedAt(db, rows, cs, orderbys, p, pages, i - 1);
      LastPositive(db, rows, cs, orderbys, if i - 1 == 0 then p else After(p, pages[i - 2]), pages[i - 1]);
      AfterIs(p, if i - 1 == 0 then p else After(p, pages[i - 2]), pages[i - 1]);
    }
    PageAnswers(db, rows, cs, orderbys, at, pages[i]);
    PageOkIs(IdsOf(Base(db, rows, cs), p.key), p, pages, i, at);
  }

  lemma AfterIs(p: Paging, before: Paging, page: seq<Row>)
    requires page != [] && (before == p || exists r: seq<Row> :: r != [] && before == After(p, r))
    ensures After(p, page).lastID == Id(page[|page| - 1], before.key)
    ensures After(p, page).key == p.key && After(p, page).size == p.size
  {
    hide Id;
  }

  lemma PageOkIs(ids: set<int>, p: Paging, pages: seq<seq<Row>>, i: nat, at: Paging)
    requires i < |pages| && (i > 0 ==> pages[i - 1] != []) && p.prevID == 0 && p.lastID == 0
    requires at == (if i == 0 then p else After(p, pages[i - 1])) && (i > 0 ==> at.lastID > 0)
    requires IsAnswer(Kept(ids, at), Direction(at) == DESC, at.size, Ids(pages[i], at.key))
    ensures PageOk(ids, p, PageIds(pages, p.key), i)
  {
    hide IsAnswer, Kept, Id;
  }

  /** The query of page i and its answer. */
  lemma PagedAt(db: Database, rows: set<Row>, cs: seq<Cond>, orderbys: seq<(string, int)>, p: Paging,
                pages: seq<seq<Row>>, i: nat)
    requires Paged(db, rows, cs, orderbys, p, pages) && i < |pages|
    ensures i > 0 ==> pages[i - 1] != []
    ensures var at := if i == 0 then p else After(p, pages[i - 1]);
            && Pageable(db, rows, cs, p) && Pageable(db, rows, cs, at) && AllWellFormed(cs + CursorConds(at))
            && Finds(db, rows, Sent(cs, orderbys, at), pages[i])
    ensures AllWellFormed(cs) && p.prevID == 0 && p.lastID == 0
  {
    assert Fetched(db, rows, cs, orderbys, p, pages, i);
    hide Finds, Sent, Pageable;
    SamePageable(db, rows, cs, p, if i == 0 then p else After(p, pages[i - 1]));
  }

  lemma LastPositive(db: Database, rows: set<Row>, cs: seq<Cond>, orderbys: seq<(string, int)>, at: Paging, r: seq<Row>)
    requires Pageable(db, rows, cs, at) && AllWellFormed(cs + CursorConds(at)) && r != []
    requires Finds(db, rows, Sent(cs, orderbys, at), r)
    ensures Id(r[|r| - 1], at.key) > 0
  {
    PageAnswers(db, rows, cs, orderbys, at, r);
    assert AllWellFormed(cs);
    assert r[|r| - 1] in Base(db, rows, cs);
    hide Finds, Sent, Fields, Match, Accepts, IsAnswer;
  }

  lemma SamePageable(db: Database, rows: set<Row>, cs: seq<Cond>, p: Paging, p': Paging)
    requires Pageable(db, rows, cs, p) && p' == p.(prevID := p'.prevID, lastID := p'.lastID)
    ensures Pageable(db, rows, cs, p') && AllWellFormed(cs)
  {
    hide Fields, Keyed, Numeric;
  }

  lemma PagedForward(db: Database, rows: set<Row>, cs: seq<Cond>, orderbys: seq<(string, int)>, p: Paging,
                     pages: seq<seq<Row>>)
    requires Paged(db, rows, cs, orderbys, p, pages)
    ensures AllWellFormed(cs) && Forward(IdsOf(Base(db, rows, cs), p.key), p, PageIds(pages, p.key))
    ensures forall x :: x in IdsOf(Base(db, rows, cs), p.key) ==> x > 0
  {
    hide PageOk, Fetched, Fields, Accepts, Match;
    forall i | 0 <= i < |pages|
      ensures PageOk(IdsOf(Base(db, rows, cs), p.key), p, PageIds(pages, p.key), i)
    {
      FetchedIds(db, rows, cs, orderbys, p, pages, i);
    }
  }

  lemma {:induction false} FlatIds(pages: seq<seq<Row>>, key: string)
    ensures Ids(Flat(pages), key) == Flat(PageIds(pages, key))
  {
    if pages != [] {
      var n := |pages| - 1;
      FlatIds(pages[..n], key);
      assert PageIds(pages, key)[..n] == PageIds(pages[..n], key);
      hide Id;
    }
  }

  lemma {:induction false} FlatRows(pages: seq<seq<Row>>, base: set<Row>, i: nat)
    requires forall k :: 0 <= k < |pages| ==> forall j :: 0 <= j < |pages[k]| ==> pages[k][j] in base
    requires i < |Flat(pages)|
    ensures Flat(pages)[i] in base
  {
    var n := |pages| - 1;
    if i < |Flat(pages[..n])| {
      FlatRows(pages[..n], base, i);
    } else {
      assert Flat(pages)[i] == pages[n][i - |Flat(pages[..n])|];
    }
  }

  /** A row is among those listed exactly if its id is. */
  lemma RowOrId(rows: set<Row>, key: string, r: seq<Row>, row: Row)
    requires Keyed(rows, key) && row in rows && forall i :: 0 <= i < |r| ==> r[i] in rows
    ensures row in r <==> Id(row, key) in Ids(r, key)
  {
    hide Id;
    if Id(row, key) in Ids(r, key) {
      var k :| 0 <= k < |r| && Ids(r, key)[k] == Id(row, key);
      assert r[k] in rows;
    }
    if row in r {
      var k :| 0 <= k < |r| && r[k] == row;
      assert Ids(r, key)[k] == Id(row, key);
    }
  }

  /** Following lastID: the rows fetched so far are the first of the base filter's rows in sort order, each once, and all
      of them once a page comes back short. */
  lemma ForwardVisitsRows(db: Database, rows: set<Row>, cs: seq<Cond>, orderbys: seq<(string, int)>, p: Paging,
                          pages: seq<seq<Row>>)
    requires Paged(db, rows, cs, orderbys, p, pages) && pages != []
    ensures AllWellFormed(cs)
    ensures var (seen, base, desc) := (Flat(pages), Base(db, rows, cs), p.sort == DESC);
            && (forall i :: 0 <= i < |seen| ==> seen[i] in base)
            && (forall i, j :: 0 <= i < j < |seen| ==> Comes(desc, Id(seen[i], p.key), Id(seen[j], p.key)))
            && (forall row :: row in base ==>
                  row in seen || forall i :: 0 <= i < |seen| ==> Comes(desc, Id(seen[i], p.key), Id(row, p.key)))
            && (|pages[|pages| - 1]| < p.size ==> forall row :: row in base ==> row in seen)
  {
    PagedForward(db, rows, cs, orderbys, p, pages);
    var seen, base := Flat(pages), Base(db, rows, cs);
    var ids := IdsOf(base, p.key);
    ForwardVisits(ids, p, PageIds(pages, p.key));
    FlatIds(pages, p.key);
    AllInBase(db, rows, cs, orderbys, p, pages);
    assert Keyed(rows, p.key) && base <= rows;
    hide Forward, Flat, Base, Keyed, Id, Paged;
    assert Ids(seen, p.key) == Flat(PageIds(pages, p.key));
    forall row | row in base
      ensures row in seen <==> Id(row, p.key) in Ids(seen, p.key)
      ensures Id(row, p.key) in ids
    {
      RowOrId(rows, p.key, seen, row);
    }
    forall i, j | 0 <= i < j < |seen|
      ensures Comes(p.sort == DESC, Id(seen[i], p.key), Id(seen[j], p.key))
    {
      assert Comes(p.sort == DESC, Ids(seen, p.key)[i], Ids(seen, p.key)[j]);
    }
    forall row | row in base && row !in seen
      ensures forall i :: 0 <= i < |seen| ==> Comes(p.sort == DESC, Id(seen[i], p.key), Id(row, p.key))
    {
      forall i | 0 <= i < |seen|
        ensures Comes(p.sort == DESC, Id(seen[i], p.key), Id(row, p.key))
      {
        assert Comes(p.sort == DESC, Ids(seen, p.key)[i], Id(row, p.key));
      }
    }
  }

  lemma AllInBase(db: Database, rows: set<Row>, cs: seq<Cond>, orderbys: seq<(string, int)>, p: Paging,
                  pages: seq<seq<Row>>)
    requires Paged(db, rows, cs, orderbys, p, pages)
    ensures AllWellFormed(cs)
    ensures forall i :: 0 <= i < |Flat(pages)| ==> Flat(pages)[i] in Base(db, rows, cs)
    ensures forall k :: 0 <= k < |pages| ==> forall j :: 0 <= j < |pages[k]| ==> pages[k][j] in Base(db, rows, cs)
  {
    assert AllWellFormed(cs);
    hide Base, Flat, Fetched, PageOk, IdsOf;
    forall k | 0 <= k < |pages|
      ensures forall j :: 0 <= j < |pages[k]| ==> pages[k][j] in Base(db, rows, cs)
    {
      FetchedIds(db, rows, cs, orderbys, p, pages, k);
    }
    forall i | 0 <= i < |Flat(pages)|
      ensures Flat(pages)[i] in Base(db, rows, cs)
    {
      FlatRows(pages, Base(db, rows, cs), i);
    }
  }

  /** With the first id of a page as prevID, FindList finds the page before it, in reverse. */
  lemma BackReturnsRows(db: Database, rows: set<Row>, cs: seq<Cond>, orderbys: seq<(string, int)>, p: Paging,
                        pages: seq<seq<Row>>, i: nat, back: seq<Row>)
    requires Paged(db, rows, cs, orderbys, p, pages) && i + 1 < |pages| && pages[i + 1] != []
    requires var q := p.(prevID := Id(pages[i + 1][0], p.key), lastID := 0);
             AllWellFormed(cs + CursorConds(q)) && Finds(db, rows, Sent(cs, orderbys, q), back)
    ensures back == Reversed(pages[i])
  {
    var q := p.(prevID := Id(pages[i + 1][0], p.key), lastID := 0);
    PagedForward(db, rows, cs, orderbys, p, pages);
    SamePageable(db, rows, cs, p, q);
    PageAnswers(db, rows, cs, orderbys, q, back);
    AllInBase(db, rows, cs, orderbys, p, pages);
    assert Keyed(rows, p.key) && Base(db, rows, cs) <= rows;
    hide Forward, Base, Keyed, Id, Paged, Finds, Sent, Pageable;
    BackReturnsPrevious(IdsOf(Base(db, rows, cs), p.key), p, PageIds(pages, p.key), i, Ids(back, p.key));
    SameRows(rows, p.key, back, pages[i]);
  }

  lemma SameRows(rows: set<Row>, key: string, a: seq<Row>, b: seq<Row>)
    requires Keyed(rows, key) && (forall i :: 0 <= i < |a| ==> a[i] in rows) && (forall i :: 0 <= i < |b| ==> b[i] in rows)
    requires Ids(a, key) == Reversed(Ids(b, key))
    ensures a == Reversed(b)
  {
    hide Id;
    assert |a| == |b|;
    forall i | 0 <= i < |a|
      ensures a[i] == b[|b| - 1 - i]
    {
      assert Ids(a, key)[i] == Ids(b, key)[|b| - 1 - i];
    }
  }
}
