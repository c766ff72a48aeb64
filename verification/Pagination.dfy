/**
 Pagination by keyset over rows that may fail to decode, for any strict order.  A table is the
 sequence of rows that match a filter, in the order the query asks for.
 */
module Pagination {
  import opened Wrappers

  datatype Row = Row(id: string, username: string, created: int, decodable: bool)

  /** The values bound into the keyset condition. */
  datatype Position = Position(created: int, id: string, username: string)

  function PositionOf(row: Row): Position
  {
    Position(row.created, row.id, row.username)
  }

  /** `after(p, row)`: the row comes strictly behind the position. */
  type Order = (Position, Row) -> bool

  predicate Before(after: Order, a: Row, b: Row)
  {
    after(PositionOf(a), b)
  }

  ghost predicate Chains(after: Order, p: Position, b: Row, c: Row)
  {
    after(p, b) && Before(after, b, c) ==> after(p, c)
  }

  ghost predicate StrictOrder(after: Order)
  {
    && (forall p, b, c :: Chains(after, p, b, c))
    && (forall a :: !Before(after, a, a))
  }

  ghost predicate Sorted(after: Order, rows: seq<Row>)
  {
    forall i, j :: 0 <= i < j < |rows| ==> Before(after, rows[i], rows[j])
  }

  /** The rows the database selects behind a position. */
  function Query(after: Order, table: seq<Row>, p: Position): seq<Row>
  {
    if table == [] then []
    else (if after(p, table[0]) then [table[0]] else []) + Query(after, table[1..], p)
  }

  function Decodable(rows: seq<Row>): seq<Row>
  {
    if rows == [] then [] else (if rows[0].decodable then [rows[0]] else []) + Decodable(rows[1..])
  }

  // ----- one page

  datatype Page = Page(users: seq<Row>, next: Option<Row>, hasMore: bool)

  function Take(rows: seq<Row>, n: nat): seq<Row>
  {
    if |rows| <= n then rows else rows[..n]
  }

  function PageOf(rest: seq<Row>, limit: nat): Page
  {
    var users := Take(Decodable(Take(rest, limit + 1)), limit);
    var hasMore := |rest| > limit;
    Page(users, if hasMore && users != [] then Some(users[|users| - 1]) else None, hasMore)
  }

  lemma {:induction false} DecodableAppend(a: seq<Row>, b: seq<Row>)
    ensures Decodable(a + b) == Decodable(a) + Decodable(b)
  {
    if a == [] {
      assert a + b == b;
    } else {
      assert (a + b)[1..] == a[1..] + b;
      DecodableAppend(a[1..], b);
      Associate(if a[0].decodable then [a[0]] else [], Decodable(a[1..]), Decodable(b));
    }
  }

  /** `decode_stored_rows`: one malformed row does not fail the page. */
  method DecodeStoredRows(rows: seq<Row>) returns (users: seq<Row>, skipped: nat)
    ensures users == Decodable(rows)
    ensures |users| + skipped == |rows|
  {
    users, skipped := [], 0;
    for i := 0 to |rows|
      invariant users == Decodable(rows[..i])
      invariant |users| + skipped == i
    {
      assert rows[..i + 1] == rows[..i] + [rows[i]];
      DecodableAppend(rows[..i], [rows[i]]);
      assert Decodable([rows[i]]) == if rows[i].decodable then [rows[i]] else [];
      if rows[i].decodable {
        users := users + [rows[i]];
      } else {
        skipped := skipped + 1;
      }
    }
    assert rows[..|rows|] == rows;
  }

  /** The part of `list_users_page` behind the query: decode, cut at the limit, find the cursor row. */
  method FetchPage(rest: seq<Row>, limit: nat) returns (public: seq<Row>, next: Option<Row>, skipped: nat)
    ensures public == PageOf(rest, limit).users && next == PageOf(rest, limit).next
    ensures skipped + |Decodable(Take(rest, limit + 1))| == |Take(rest, limit + 1)|
  {
    var rows := Take(rest, limit + 1);
    var hasMore := |rows| > limit;
    var users, malformed := DecodeStoredRows(rows);
    public := FirstUsers(users, limit);
    skipped := malformed;
    next := if hasMore && public != [] then Some(public[|public| - 1]) else None;
  }

  /** The `take(limit)` loop. */
  method FirstUsers(users: seq<Row>, limit: nat) returns (public: seq<Row>)
    ensures public == Take(users, limit)
  {
    public := [];
    var n := if |users| < limit then |users| else limit;
    for i := 0 to n
      invariant public == users[..i]
    {
      public := public + [users[i]];
    }
  }

  // ----- queries on sorted tables

  lemma {:induction false} QueryElements(after: Order, table: seq<Row>, p: Position)
    ensures forall r :: r in Query(after, table, p) <==> r in table && after(p, r)
  {
    if table != [] {
      assert table == [table[0]] + table[1..];
      QueryElements(after, table[1..], p);
    }
  }

  lemma {:induction false} QuerySorted(after: Order, table: seq<Row>, p: Position)
    requires Sorted(after, table)
    ensures Sorted(after, Query(after, table, p))
  {
    if table != [] {
      QuerySorted(after, table[1..], p);
      QueryElements(after, table[1..], p);
      var q := Query(after, table[1..], p);
      forall j | 0 <= j < |q| ensures Before(after, table[0], q[j]) {
        assert q[j] in q;
        var k :| 0 <= k < |table[1..]| && table[1..][k] == q[j];
        assert table[k + 1] == q[j];
      }
    }
  }

  lemma {:induction false} DecodableElements(rows: seq<Row>)
    ensures forall r :: r in Decodable(rows) <==> r in rows && r.decodable
    ensures |Decodable(rows)| <= |rows|
  {
    if rows != [] {
      assert rows == [rows[0]] + rows[1..];
      DecodableElements(rows[1..]);
    }
  }

  lemma {:induction false} DecodableSorted(after: Order, rows: seq<Row>)
    requires Sorted(after, rows)
    ensures Sorted(after, Decodable(rows))
  {
    if rows != [] {
      DecodableSorted(after, rows[1..]);
      DecodableElements(rows[1..]);
      var d := Decodable(rows[1..]);
      forall j | 0 <= j < |d| ensures Before(after, rows[0], d[j]) {
        assert d[j] in d;
        var k :| 0 <= k < |rows[1..]| && rows[1..][k] == d[j];
        assert rows[k + 1] == d[j];
      }
    }
  }

  // ----- how much of the table a page uses up

  /** The length of the shortest prefix that holds `m` decodable rows. */
  ghost function CutAfter(rows: seq<Row>, m: nat): (n: nat)
    requires m <= |Decodable(rows)|
    ensures n <= |rows| && (m > 0 ==> n > 0)
  {
    if m == 0 then 0
    else 1 + CutAfter(rows[1..], if rows[0].decodable then m - 1 else m)
  }

  lemma {:induction false} CutAfterFacts(rows: seq<Row>, m: nat)
    requires m <= |Decodable(rows)|
    ensures Decodable(rows[..CutAfter(rows, m)]) == Decodable(rows)[..m]
    ensures m > 0 ==> rows[CutAfter(rows, m) - 1].decodable && rows[CutAfter(rows, m) - 1] == Decodable(rows)[m - 1]
  {
    if m > 0 {
      var k := if rows[0].decodable then m - 1 else m;
      CutAfterFacts(rows[1..], k);
      var n := CutAfter(rows[1..], k);
      assert rows[..n + 1][0] == rows[0] && rows[..n + 1][1..] == rows[1..][..n];
    }
  }

  /** The number of rows up to and including the last one returned. */
  ghost function Consumed(rest: seq<Row>, limit: nat): (n: nat)
    ensures n <= |rest|
    ensures PageOf(rest, limit).users != [] ==> n > 0
  {
    CutAfter(Take(rest, limit + 1), |PageOf(rest, limit).users|)
  }

  lemma ConsumedFacts(rest: seq<Row>, limit: nat)
    ensures var users, n := PageOf(rest, limit).users, Consumed(rest, limit);
            && n <= limit + 1
            && users == Decodable(rest[..n])
            && (users != [] ==> n > 0 && rest[n - 1].decodable && users[|users| - 1] == rest[n - 1])
  {
    var fetched, n := Take(rest, limit + 1), Consumed(rest, limit);
    CutAfterFacts(fetched, |PageOf(rest, limit).users|);
    assert fetched[..n] == rest[..n];
  }

  lemma SplitAt(rest: seq<Row>, n: nat)
    requires n <= |rest|
    ensures Decodable(rest) == Decodable(rest[..n]) + Decodable(rest[n..])
  {
    assert rest == rest[..n] + rest[n..];
    DecodableAppend(rest[..n], rest[n..]);
  }

  ghost function Least(a: nat, b: nat): nat
  {
    if a < b then a else b
  }

  /**
   A page is the beginning of the decodable rows: as many as the limit and the first limit + 1
   rows allow.  It has a cursor when rows were left over and there is a row to name.
   */
  lemma PageIs(rest: seq<Row>, limit: nat)
    ensures var page, window := PageOf(rest, limit), rest[..Least(limit + 1, |rest|)];
            && page.users <= Decodable(rest)
            && |page.users| == Least(limit, |Decodable(window)|)
            && (page.hasMore <==> |rest| > limit)
            && page.next == if |rest| > limit && page.users != [] then Some(page.users[|page.users| - 1]) else None
  {
    var n := Least(limit + 1, |rest|);
    assert Take(rest, limit + 1) == rest[..n];
    SplitAt(rest, n);
  }

  // ----- following the pages over one table

  /** The users of all pages, following `next` from the start of `rest`. */
  ghost function Chain(rest: seq<Row>, limit: nat): seq<Row>
    decreases |rest|
  {
    var page := PageOf(rest, limit);
    page.users + if page.next.None? then [] else Chain(rest[Consumed(rest, limit)..], limit)
  }

  ghost predicate AllMalformed(rows: seq<Row>, from: nat, to: nat)
    requires from <= to <= |rows|
  {
    forall k :: from <= k < to ==> !rows[k].decodable
  }

  /** limit + 1 consecutive malformed rows with a decodable row somewhere behind them. */
  ghost predicate GapAt(rows: seq<Row>, limit: nat, i: nat, j: nat)
  {
    i + limit + 1 <= j < |rows| && AllMalformed(rows, i, i + limit + 1) && rows[j].decodable
  }

  ghost predicate Gap(rows: seq<Row>, limit: nat)
  {
    exists i: nat, j: nat :: GapAt(rows, limit, i, j)
  }

  lemma {:induction false} NothingDecodable(rows: seq<Row>)
    ensures Decodable(rows) == [] <==> AllMalformed(rows, 0, |rows|)
  {
    if rows != [] {
      NothingDecodable(rows[1..]);
      assert AllMalformed(rows, 0, |rows|) <==> !rows[0].decodable && AllMalformed(rows[1..], 0, |rows| - 1) by {
        assert forall k :: 0 < k < |rows| ==> rows[k] == rows[1..][k - 1];
        assert forall k :: 0 <= k < |rows| - 1 ==> rows[1..][k] == rows[k + 1];
      }
    }
  }

  lemma ShortTable(rest: seq<Row>, limit: nat)
    requires |rest| <= limit
    ensures PageOf(rest, limit).users == Decodable(rest) && !PageOf(rest, limit).hasMore
  {
    DecodableElements(rest);
  }

  lemma GapInSuffix(rows: seq<Row>, limit: nat, n: nat)
    requires n <= |rows| && Gap(rows[n..], limit)
    ensures Gap(rows, limit)
  {
    var i: nat, j: nat :| GapAt(rows[n..], limit, i, j);
    assert forall k :: n + i <= k < n + i + limit + 1 ==> rows[k] == rows[n..][k - n];
    assert GapAt(rows, limit, n + i, n + j);
  }

  /** Without a gap the chain returns every decodable row, in order. */
  lemma {:induction false} ChainComplete(rest: seq<Row>, limit: nat)
    requires limit > 0 && !Gap(rest, limit)
    ensures Chain(rest, limit) == Decodable(rest)
    decreases |rest|
  {
    var page, n := PageOf(rest, limit), Consumed(rest, limit);
    ConsumedFacts(rest, limit);
    if |rest| <= limit {
      ShortTable(rest, limit);
    } else if page.users == [] {
      var window := rest[..limit + 1];
      assert window == Take(rest, limit + 1);
      assert Decodable(window) == [];
      NothingDecodable(window);
      assert AllMalformed(rest, 0, limit + 1) by {
        assert forall k :: 0 <= k < limit + 1 ==> rest[k] == window[k];
      }
      forall k | 0 <= k < |rest| ensures !rest[k].decodable {
        if k > limit { assert !GapAt(rest, limit, 0, k); }
      }
      NothingDecodable(rest);
    } else {
      SplitAt(rest, n);
      if Gap(rest[n..], limit) { GapInSuffix(rest, limit, n); }
      ChainComplete(rest[n..], limit);
    }
  }

  /** A page that ends on a decodable row, at most limit + 1 rows in, does not reach past a gap's start. */
  lemma GapBehind(rest: seq<Row>, limit: nat, n: nat, i: nat, j: nat)
    requires GapAt(rest, limit, i, j) && 0 < n <= limit + 1 && n <= |rest| && rest[n - 1].decodable
    ensures Gap(rest[n..], limit)
  {
    assert n <= i;
    assert forall k :: i - n <= k < i - n + limit + 1 ==> rest[n..][k] == rest[n + k];
    assert GapAt(rest[n..], limit, i - n, j - n);
  }

  /** With a gap the chain stops before it: some decodable row is never returned. */
  lemma {:induction false} ChainIncomplete(rest: seq<Row>, limit: nat)
    requires limit > 0 && Gap(rest, limit)
    ensures |Chain(rest, limit)| < |Decodable(rest)|
    decreases |rest|
  {
    var page, n := PageOf(rest, limit), Consumed(rest, limit);
    ConsumedFacts(rest, limit);
    var i: nat, j: nat :| GapAt(rest, limit, i, j);
    if page.users == [] {
      NothingDecodable(rest);
    } else {
      SplitAt(rest, n);
      GapBehind(rest, limit, n, i, j);
      ChainIncomplete(rest[n..], limit);
    }
  }

  /** Pagination over a fixed table is exact if and only if no gap hides rows from it. */
  lemma ChainExactIff(rest: seq<Row>, limit: nat)
    requires limit > 0
    ensures Chain(rest, limit) == Decodable(rest) <==> !Gap(rest, limit)
  {
    if Gap(rest, limit) { ChainIncomplete(rest, limit); } else { ChainComplete(rest, limit); }
  }

  lemma ChainLength(rest: seq<Row>, limit: nat)
    requires limit > 0
    ensures |Chain(rest, limit)| <= |Decodable(rest)|
  {
    if Gap(rest, limit) { ChainIncomplete(rest, limit); } else { ChainComplete(rest, limit); }
  }

  // ----- following the printed cursors, over tables that may change between requests

  /** How a request that carries the cursor of the last row returned is read. */
  type Resume = Row -> Option<Position>

  /** `stopped`: some page came without a cursor; `complete`: that page was not cut off by the limit. */
  datatype Browsed = Browsed(rows: seq<Row>, stopped: bool, complete: bool)

  /** The page that a request from a position gets from a table. */
  type Fetch = (seq<Row>, Position) -> Page

  ghost function Walk(fetch: Fetch, resume: Resume, tables: seq<seq<Row>>, p: Position): Browsed
  {
    if tables == [] then Browsed([], false, false)
    else
      var page := fetch(tables[0], p);
      if page.next.None? then Browsed(page.users, true, !page.hasMore)
      else if resume(page.next.value).None? then Browsed(page.users, false, false)
      else
        var more := Walk(fetch, resume, tables[1..], resume(page.next.value).value);
        Browsed(page.users + more.rows, more.stopped, more.complete)
  }

  ghost function FetchBy(after: Order, limit: nat): Fetch
  {
    (table: seq<Row>, p: Position) => PageOf(Query(after, table, p), limit)
  }

  /** Request k runs against `tables[k]`, the first one from position `p`. */
  ghost function Browse(after: Order, resume: Resume, tables: seq<seq<Row>>, limit: nat, p: Position): Browsed
  {
    Walk(FetchBy(after, limit), resume, tables, p)
  }

  /** If the row's cursor is accepted, it selects exactly the rows behind the row. */
  ghost predicate Honest(after: Order, resume: Resume, row: Row)
  {
    resume(row).Some? ==> forall other :: after(resume(row).value, other) <==> Before(after, row, other)
  }

  ghost function HonestIn(after: Order, resume: Resume): Row -> bool
  {
    (row: Row) => Honest(after, resume, row)
  }

  ghost predicate HonestWalk(fetch: Fetch, resume: Resume, honest: Row -> bool, tables: seq<seq<Row>>, p: Position)
  {
    tables == [] ||
    var next := fetch(tables[0], p).next;
    next.None? || resume(next.value).None? ||
    (honest(next.value) && HonestWalk(fetch, resume, honest, tables[1..], resume(next.value).value))
  }

  /** Every cursor that is actually printed, and accepted by the next request, is honest. */
  ghost predicate CursorsHonest(after: Order, resume: Resume, tables: seq<seq<Row>>, limit: nat, p: Position)
  {
    HonestWalk(FetchBy(after, limit), resume, HonestIn(after, resume), tables, p)
  }

  ghost predicate AllSorted(after: Order, tables: seq<seq<Row>>)
  {
    forall k :: 0 <= k < |tables| ==> Sorted(after, tables[k])
  }

  ghost predicate HonestRows(after: Order, resume: Resume, table: seq<Row>)
  {
    forall r :: r in table && r.decodable ==> Honest(after, resume, r)
  }

  /** Only decodable rows print cursors, so it is enough that theirs are honest. */
  lemma {:induction false} HonestRowsSuffice(
      after: Order, resume: Resume, tables: seq<seq<Row>>, limit: nat, p: Position)
    requires forall k :: 0 <= k < |tables| ==> HonestRows(after, resume, tables[k])
    ensures CursorsHonest(after, resume, tables, limit, p)
    decreases |tables|
  {
    if tables != [] {
      var next := PageOf(Query(after, tables[0], p), limit).next;
      if next.Some? && resume(next.value).Some? {
        CursorRow(after, tables[0], p, limit);
        assert HonestRows(after, resume, tables[0]);
        HonestRowsSuffice(after, resume, tables[1..], limit, resume(next.value).value);
      }
    }
  }

  /** The row that a page's cursor names. */
  lemma CursorRow(after: Order, table: seq<Row>, p: Position, limit: nat)
    requires PageOf(Query(after, table, p), limit).next.Some?
    ensures var page := PageOf(Query(after, table, p), limit);
            page.next.value in page.users && page.next.value in table && page.next.value.decodable
  {
    PageElements(after, table, p, limit);
    var page := PageOf(Query(after, table, p), limit);
    assert page.users[|page.users| - 1] in page.users;
  }

  lemma {:induction false} QuerySuffix(after: Order, table: seq<Row>, i: nat, p: Position)
    requires Sorted(after, table) && i <= |table|
    requires forall k :: 0 <= k < |table| ==> (after(p, table[k]) <==> k >= i)
    ensures Query(after, table, p) == table[i..]
    decreases |table|
  {
    if table != [] {
      var tail := table[1..];
      QuerySuffix(after, tail, if i == 0 then 0 else i - 1, p);
      if i == 0 {
        assert table == [table[0]] + tail;
      } else {
        assert tail[i - 1..] == table[i..];
      }
    }
  }

  /** What a position selects from a sorted table is the rest of the table from some row on. */
  lemma {:induction false} QueryIsSuffix(after: Order, table: seq<Row>, p: Position) returns (i: nat)
    requires StrictOrder(after) && Sorted(after, table)
    ensures i <= |table| && Query(after, table, p) == table[i..]
    decreases |table|
  {
    if table == [] {
      i := 0;
    } else if after(p, table[0]) {
      forall k | 0 <= k < |table| ensures after(p, table[k]) {
        if k > 0 { assert Chains(after, p, table[0], table[k]); }
      }
      QuerySuffix(after, table, 0, p);
      i := 0;
    } else {
      var rest := QueryIsSuffix(after, table[1..], p);
      i := rest + 1;
      assert table[1..][rest..] == table[i..];
    }
  }

  /** A decodable row before the position is missing from what the position selects. */
  lemma {:induction false} DecodableLost(after: Order, table: seq<Row>, p: Position)
    ensures |Decodable(Query(after, table, p))| <= |Decodable(table)|
    ensures (exists r :: r in table && r.decodable && !after(p, r)) ==>
              |Decodable(Query(after, table, p))| < |Decodable(table)|
  {
    if table != [] {
      DecodableLost(after, table[1..], p);
      var head := if after(p, table[0]) then [table[0]] else [];
      DecodableAppend(head, Query(after, table[1..], p));
      assert table == [table[0]] + table[1..];
    }
  }

  lemma {:induction false} DecodableQuery(after: Order, table: seq<Row>, p: Position)
    requires forall r :: r in table && r.decodable ==> after(p, r)
    ensures Decodable(Query(after, table, p)) == Decodable(table)
  {
    if table != [] {
      DecodableQuery(after, table[1..], p);
      var head := if after(p, table[0]) then [table[0]] else [];
      DecodableAppend(head, Query(after, table[1..], p));
    }
  }

  /** The cursor of row `i` resumes right behind row `i`. */
  lemma ResumeBehind(after: Order, resume: Resume, table: seq<Row>, i: nat)
    requires StrictOrder(after)
    requires Sorted(after, table) && i < |table|
    requires resume(table[i]).Some? && Honest(after, resume, table[i])
    ensures Query(after, table, resume(table[i]).value) == table[i + 1..]
  {
    assert table[i] in table;
    forall k | 0 <= k < |table| ensures Before(after, table[i], table[k]) <==> k >= i + 1 {
      assert Chains(after, PositionOf(table[i]), table[k], table[i]);
      assert !Before(after, table[i], table[i]);
    }
    QuerySuffix(after, table, i + 1, resume(table[i]).value);
  }

  /** Every request runs against the same table. */
  ghost predicate Unchanged(tables: seq<seq<Row>>, table: seq<Row>)
  {
    tables == [] || (tables[0] == table && Unchanged(tables[1..], table))
  }

  /** Some decodable row's cursor is rejected. */
  ghost predicate Rejects(resume: Resume, table: seq<Row>)
  {
    exists r :: r in table && r.decodable && resume(r).None?
  }

  /**
   Paging through a fixed table: the page that starts at row i, what following the pages from
   there returns, and where the next page starts.
   */
  datatype Plan = Plan(page: nat -> Page, chain: nat -> seq<Row>, end: nat -> nat)

  /** The page at row `i` ends on the row its cursor names, and the chain goes on behind it. */
  ghost predicate ChainsAt(table: seq<Row>, plan: Plan, i: nat)
  {
    var page, j := plan.page(i), plan.end(i);
    if page.next.None? then plan.chain(i) == page.users
    else
      && i < j <= |table| && page.next.value == table[j - 1] && table[j - 1].decodable
      && plan.chain(i) == page.users + plan.chain(j)
  }

  /** An honest cursor of row `j - 1`, if accepted, fetches the page that starts at row `j`. */
  ghost predicate FetchesAt(fetch: Fetch, resume: Resume, honest: Row -> bool, table: seq<Row>, plan: Plan, j: nat)
  {
    0 < j <= |table| && resume(table[j - 1]).Some? && honest(table[j - 1]) ==>
      fetch(table, resume(table[j - 1]).value) == plan.page(j)
  }

  ghost predicate Steps(fetch: Fetch, resume: Resume, honest: Row -> bool, table: seq<Row>, plan: Plan)
  {
    && (forall i: nat :: i <= |table| ==> ChainsAt(table, plan, i))
    && (forall j: nat :: FetchesAt(fetch, resume, honest, table, plan, j))
  }

  lemma {:induction false} WalkIsChain(
      fetch: Fetch, resume: Resume, honest: Row -> bool, tables: seq<seq<Row>>, table: seq<Row>, plan: Plan,
      i: nat, p: Position)
    requires Steps(fetch, resume, honest, table, plan) && i <= |table|
    requires Unchanged(tables, table) && HonestWalk(fetch, resume, honest, tables, p)
    requires |tables| > |table| - i && fetch(table, p) == plan.page(i)
    ensures var b := Walk(fetch, resume, tables, p);
            if b.stopped then b.rows == plan.chain(i) else Rejects(resume, table)
    decreases |table| - i
  {
    assert ChainsAt(table, plan, i);
    var next, j := plan.page(i).next, plan.end(i);
    if next.Some? {
      assert FetchesAt(fetch, resume, honest, table, plan, j);
      if resume(next.value).None? {
        RejectsAt(resume, table, j - 1);
      } else {
        WalkIsChain(fetch, resume, honest, tables[1..], table, plan, j, resume(next.value).value);
      }
    }
  }

  ghost function From(table: seq<Row>, i: nat): seq<Row>
  {
    if i <= |table| then table[i..] else []
  }

  ghost function PlanOf(table: seq<Row>, limit: nat): Plan
  {
    Plan((i: nat) => PageOf(From(table, i), limit),
         (i: nat) => Chain(From(table, i), limit),
         (i: nat) => i + Consumed(From(table, i), limit))
  }

  lemma PlanAt(table: seq<Row>, limit: nat, i: nat)
    requires i <= |table|
    ensures PlanOf(table, limit).page(i) == PageOf(table[i..], limit)
    ensures PlanOf(table, limit).chain(i) == Chain(table[i..], limit)
    ensures PlanOf(table, limit).end(i) == i + Consumed(table[i..], limit)
  {
  }

  lemma PlanGoesOn(table: seq<Row>, limit: nat, i: nat) returns (last: nat)
    requires i <= |table| && PlanOf(table, limit).page(i).next.Some?
    ensures i <= last < |table| && PlanOf(table, limit).end(i) == last + 1 && table[last].decodable
    ensures PlanOf(table, limit).page(i).next.value == table[last]
    ensures PlanOf(table, limit).chain(i) == PlanOf(table, limit).page(i).users + PlanOf(table, limit).chain(last + 1)
  {
    PlanAt(table, limit, i);
    last := PageEnd(table, i, limit);
    PlanAt(table, limit, last + 1);
  }

  lemma PlanEnds(table: seq<Row>, limit: nat, i: nat)
    requires i <= |table| && PlanOf(table, limit).page(i).next.None?
    ensures PlanOf(table, limit).chain(i) == PlanOf(table, limit).page(i).users
  {
    PlanAt(table, limit, i);
    ChainEnds(table[i..], limit);
  }

  lemma PlanChains(table: seq<Row>, limit: nat, i: nat)
    requires i <= |table|
    ensures ChainsAt(table, PlanOf(table, limit), i)
  {
    if PlanOf(table, limit).page(i).next.Some? {
      var last := PlanGoesOn(table, limit, i);
    } else {
      PlanEnds(table, limit, i);
    }
  }

  lemma PlanFetches(after: Order, resume: Resume, table: seq<Row>, limit: nat, j: nat)
    requires StrictOrder(after) && Sorted(after, table)
    ensures FetchesAt(FetchBy(after, limit), resume, HonestIn(after, resume), table, PlanOf(table, limit), j)
  {
    if 0 < j <= |table| && resume(table[j - 1]).Some? && Honest(after, resume, table[j - 1]) {
      ResumeBehind(after, resume, table, j - 1);
    }
  }

  lemma ChainEnds(rest: seq<Row>, limit: nat)
    requires PageOf(rest, limit).next.None?
    ensures Chain(rest, limit) == PageOf(rest, limit).users
  {
  }

  lemma RejectsAt(resume: Resume, table: seq<Row>, i: nat)
    requires i < |table| && table[i].decodable && resume(table[i]).None?
    ensures Rejects(resume, table)
  {
    assert table[i] in table;
  }

  /** Over an unchanged table the cursors follow the chain; the browsing stops unless a cursor is rejected. */
  lemma BrowseIsChain(
      after: Order, resume: Resume, tables: seq<seq<Row>>, table: seq<Row>, i: nat, limit: nat, p: Position)
    requires StrictOrder(after) && Sorted(after, table) && i <= |table|
    requires Unchanged(tables, table) && CursorsHonest(after, resume, tables, limit, p)
    requires |tables| > |table| - i
    requires Query(after, table, p) == table[i..]
    ensures var b := Browse(after, resume, tables, limit, p);
            if b.stopped then b.rows == Chain(table[i..], limit) else Rejects(resume, table)
  {
    forall k: nat | k <= |table| ensures ChainsAt(table, PlanOf(table, limit), k) {
      PlanChains(table, limit, k);
    }
    forall j: nat
      ensures FetchesAt(FetchBy(after, limit), resume, HonestIn(after, resume), table, PlanOf(table, limit), j)
    {
      PlanFetches(after, resume, table, limit, j);
    }
    WalkIsChain(FetchBy(after, limit), resume, HonestIn(after, resume), tables, table, PlanOf(table, limit), i, p);
  }

  lemma BrowseRejected(after: Order, resume: Resume, tables: seq<seq<Row>>, limit: nat, p: Position)
    requires tables != [] && PageOf(Query(after, tables[0], p), limit).next.Some?
    requires resume(PageOf(Query(after, tables[0], p), limit).next.value).None?
    ensures Browse(after, resume, tables, limit, p) ==
            Browsed(PageOf(Query(after, tables[0], p), limit).users, false, false)
  {
  }

  lemma BrowseEnds(after: Order, resume: Resume, tables: seq<seq<Row>>, limit: nat, p: Position)
    requires tables != [] && PageOf(Query(after, tables[0], p), limit).next.None?
    ensures var page := PageOf(Query(after, tables[0], p), limit);
            Browse(after, resume, tables, limit, p) == Browsed(page.users, true, !page.hasMore)
  {
  }

  /** Where the page that starts at row `i` ends. */
  lemma PageEnd(table: seq<Row>, i: nat, limit: nat) returns (last: nat)
    requires i <= |table| && PageOf(table[i..], limit).next.Some?
    ensures i <= last < |table| && last + 1 == i + Consumed(table[i..], limit)
    ensures PageOf(table[i..], limit).next.value == table[last] && table[last].decodable
    ensures Chain(table[i..], limit) == PageOf(table[i..], limit).users + Chain(table[last + 1..], limit)
  {
    var rest := table[i..];
    ConsumedFacts(rest, limit);
    ChainOn(rest, limit);
    last := i + Consumed(rest, limit) - 1;
    assert rest[Consumed(rest, limit)..] == table[last + 1..];
  }

  lemma ChainOn(rest: seq<Row>, limit: nat)
    requires PageOf(rest, limit).next.Some?
    ensures Chain(rest, limit) == PageOf(rest, limit).users + Chain(rest[Consumed(rest, limit)..], limit)
  {
  }

  /** The pages after the first one. */
  lemma BrowseOn(after: Order, resume: Resume, tables: seq<seq<Row>>, limit: nat, p: Position)
    requires tables != [] && PageOf(Query(after, tables[0], p), limit).next.Some?
    requires resume(PageOf(Query(after, tables[0], p), limit).next.value).Some?
    ensures var page := PageOf(Query(after, tables[0], p), limit);
            var more := Browse(after, resume, tables[1..], limit, resume(page.next.value).value);
            Browse(after, resume, tables, limit, p) == Browsed(page.users + more.rows, more.stopped, more.complete)
  {
  }

  lemma PageSorted(after: Order, table: seq<Row>, p: Position, limit: nat)
    requires Sorted(after, table)
    ensures Sorted(after, PageOf(Query(after, table, p), limit).users)
  {
    var rest := Query(after, table, p);
    ConsumedFacts(rest, limit);
    QuerySorted(after, table, p);
    DecodableSorted(after, rest[..Consumed(rest, limit)]);
  }

  lemma PageElements(after: Order, table: seq<Row>, p: Position, limit: nat)
    ensures forall r :: r in PageOf(Query(after, table, p), limit).users ==> r in table && r.decodable && after(p, r)
  {
    var rest := Query(after, table, p);
    var window := rest[..Consumed(rest, limit)];
    ConsumedFacts(rest, limit);
    DecodableElements(window);
    assert forall r :: r in window ==> r in rest;
    QueryElements(after, table, p);
  }

  ghost predicate AllAfter(after: Order, p: Position, rows: seq<Row>)
  {
    forall r :: r in rows ==> after(p, r)
  }

  /**
   With inserts and deletes between the pages: what is returned is strictly increasing in the
   sort order, so no row (at its position) is returned twice.
   */
  lemma {:induction false} NoRowTwice(after: Order, resume: Resume, tables: seq<seq<Row>>, limit: nat, p: Position)
    requires StrictOrder(after)
    requires AllSorted(after, tables) && CursorsHonest(after, resume, tables, limit, p)
    ensures Sorted(after, Browse(after, resume, tables, limit, p).rows)
    ensures AllAfter(after, p, Browse(after, resume, tables, limit, p).rows)
    decreases |tables|
  {
    if tables != [] {
      PageSorted(after, tables[0], p, limit);
      PageElements(after, tables[0], p, limit);
      var next := PageOf(Query(after, tables[0], p), limit).next;
      if next.None? {
        BrowseEnds(after, resume, tables, limit, p);
      } else if resume(next.value).None? {
        BrowseRejected(after, resume, tables, limit, p);
      } else {
        var p' := resume(next.value).value;
        NoRowTwice(after, resume, tables[1..], limit, p');
        PageThen(after, resume, tables[0], limit, p, Browse(after, resume, tables[1..], limit, p').rows);
        BrowseOn(after, resume, tables, limit, p);
      }
    }
  }

  /** One page in front of what its cursor leads to. */
  lemma PageThen(after: Order, resume: Resume, table: seq<Row>, limit: nat, p: Position, more: seq<Row>)
    requires StrictOrder(after) && Sorted(after, table)
    requires PageOf(Query(after, table, p), limit).next.Some?
    requires Honest(after, resume, PageOf(Query(after, table, p), limit).next.value)
    requires resume(PageOf(Query(after, table, p), limit).next.value).Some?
    requires Sorted(after, more)
    requires AllAfter(after, resume(PageOf(Query(after, table, p), limit).next.value).value, more)
    ensures Sorted(after, PageOf(Query(after, table, p), limit).users + more)
    ensures AllAfter(after, p, PageOf(Query(after, table, p), limit).users + more)
  {
    var page := PageOf(Query(after, table, p), limit);
    BehindCursor(after, resume, page.next.value, more);
    PageSorted(after, table, p, limit);
    PageElements(after, table, p, limit);
    Concatenates(after, page.users, more, p);
  }

  lemma BehindCursor(after: Order, resume: Resume, last: Row, more: seq<Row>)
    requires Honest(after, resume, last) && resume(last).Some? && AllAfter(after, resume(last).value, more)
    ensures AllAfter(after, PositionOf(last), more)
  {
    forall r | r in more ensures after(PositionOf(last), r) {
      assert Before(after, last, r);
    }
  }

  lemma Concatenates(after: Order, users: seq<Row>, more: seq<Row>, p: Position)
    requires StrictOrder(after)
    requires Sorted(after, users) && Sorted(after, more) && users != []
    requires AllAfter(after, p, users)
    requires AllAfter(after, PositionOf(users[|users| - 1]), more)
    ensures Sorted(after, users + more) && AllAfter(after, p, users + more)
  {
    var last := users[|users| - 1];
    forall r | r in more ensures after(p, r) {
      assert last in users;
      assert Chains(after, p, last, r);
    }
    forall i, j | 0 <= i < |users| && 0 <= j < |more| ensures Before(after, users[i], more[j]) {
      assert more[j] in more;
      if i < |users| - 1 { assert Chains(after, PositionOf(users[i]), last, more[j]); }
    }
  }

  /** A page contains the row, or leaves it behind its cursor, or is cut off without a cursor. */
  lemma RowOnPageOrBehind(after: Order, table: seq<Row>, p: Position, limit: nat, row: Row)
    requires Sorted(after, table) && limit > 0
    requires row in table && row.decodable && after(p, row)
    ensures var page := PageOf(Query(after, table, p), limit);
            || row in page.users
            || (page.next.Some? && Before(after, page.next.value, row))
            || (page.next.None? && page.hasMore)
  {
    var rest := Query(after, table, p);
    var page, n := PageOf(rest, limit), Consumed(rest, limit);
    ConsumedFacts(rest, limit);
    QueryElements(after, table, p);
    QuerySorted(after, table, p);
    var k :| 0 <= k < |rest| && rest[k] == row;
    if |rest| <= limit {
      ShortTable(rest, limit);
      DecodableElements(rest);
    } else if page.next.Some? {
      if k < n {
        DecodableElements(rest[..n]);
        assert rest[..n][k] == row;
      }
    }
  }

  /**
   With inserts and deletes between the pages: once the browsing has finished on a page that
   was not cut off, every decodable row that was present throughout has been returned.
   */
  lemma {:induction false} PresentThroughoutIsReturned(
        after: Order, resume: Resume, tables: seq<seq<Row>>, limit: nat, p: Position, row: Row)
    requires AllSorted(after, tables) && CursorsHonest(after, resume, tables, limit, p) && limit > 0
    requires forall k :: 0 <= k < |tables| ==> row in tables[k]
    requires row.decodable && after(p, row)
    requires Browse(after, resume, tables, limit, p).stopped && Browse(after, resume, tables, limit, p).complete
    ensures row in Browse(after, resume, tables, limit, p).rows
    decreases |tables|
  {
    var page := PageOf(Query(after, tables[0], p), limit);
    RowOnPageOrBehind(after, tables[0], p, limit, row);
    if row !in page.users {
      var last := page.next.value;
      assert resume(last).Some? && Honest(after, resume, last);
      PresentThroughoutIsReturned(after, resume, tables[1..], limit, resume(last).value, row);
    }
  }
}
