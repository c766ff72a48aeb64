/**
 The admin user listing (core/database.rs): its three sorts, its cursors, and whole browsing
 sessions through the printed cursors.  SQL's LOWER is a function parameter.
 */
module UserListing {
  import opened Wrappers
  import opened Strings
  import opened Decimal
  import opened UserCursor
  import opened Pagination

  datatype Sort = Newest | Oldest | ByUsername

  type Lower = string -> string

  /** Sorts after every id. */
  const CURSOR_HIGH_ID: string := "\U{10FFFF}"

  function StartOf(sort: Sort): Position
  {
    match sort
    case Newest => Position(I64_MAX, CURSOR_HIGH_ID, "")
    case Oldest => Position(I64_MIN, "", "")
    case ByUsername => Position(0, "", "")
  }

  /** A cursor only resumes the sort that wrote it. */
  function ResumeAt(sort: Sort, cursor: string): Result<Position, CursorError>
  {
    match Decode(cursor)
    case Err(e) => Err(e)
    case Ok(None) => Ok(StartOf(sort))
    case Ok(Some(Time(created, id))) => if sort.ByUsername? then Err(InvalidCursor) else Ok(Position(created, id, ""))
    case Ok(Some(Name(username, id))) => if sort.ByUsername? then Ok(Position(0, id, username)) else Err(InvalidCursor)
  }

  /** The keyset condition of the WHERE clause. */
  predicate After(sort: Sort, lower: Lower, p: Position, row: Row)
  {
    match sort
    case Newest => row.created < p.created || (row.created == p.created && Less(row.id, p.id))
    case Oldest => row.created > p.created || (row.created == p.created && Less(p.id, row.id))
    case ByUsername =>
      Less(lower(p.username), lower(row.username)) || (lower(row.username) == lower(p.username) && Less(p.id, row.id))
  }

  /** The order of the ORDER BY clause and of the keyset condition. */
  function KeysetOrder(sort: Sort, lower: Lower): Order
  {
    (p: Position, row: Row) => After(sort, lower, p, row)
  }

  function CursorText(sort: Sort, row: Row): string
  {
    if sort.ByUsername? then PrintName(row.username, row.id) else PrintTime(row.created, row.id)
  }

  function ClampLimit(limit: nat): (n: nat)
    ensures 1 <= n <= 100 && (1 <= limit <= 100 ==> n == limit) && (limit > 100 ==> n == 100)
  {
    if limit < 1 then 1 else if limit > 100 then 100 else limit
  }

  /** `list_users_page`; `Query` is the database's part. */
  method ListUsersPage(sort: Sort, lower: Lower, table: seq<Row>, limit: nat, cursor: string)
    returns (result: Result<(seq<Row>, Option<string>, nat), CursorError>)
    ensures result.Err? <==> ResumeAt(sort, cursor).Err?
    ensures result.Ok? ==>
              var rest := Query(KeysetOrder(sort, lower), table, ResumeAt(sort, cursor).value);
              var page := PageOf(rest, ClampLimit(limit));
              && result.value.0 == page.users
              && result.value.1 == (if page.next.None? then None else Some(CursorText(sort, page.next.value)))
              && result.value.2 == |Take(rest, ClampLimit(limit) + 1)| - |Decodable(Take(rest, ClampLimit(limit) + 1))|
  {
    var position := ResumeAt(sort, cursor);
    if position.Err? {
      return Err(position.error);
    }
    var users, next, skipped := FetchPage(Query(KeysetOrder(sort, lower), table, position.value), ClampLimit(limit));
    var text := if next.None? then None else Some(CursorText(sort, next.value));
    return Ok((users, text, skipped));
  }

  // ----- the order is a strict total order, and cursors resume at the row they came from

  lemma BeforeTransitive(sort: Sort, lower: Lower, p: Position, b: Row, c: Row)
    requires After(sort, lower, p, b) && After(sort, lower, PositionOf(b), c)
    ensures After(sort, lower, p, c)
  {
    match sort
    case Newest => if c.created == p.created { LessTransitive(c.id, b.id, p.id); }
    case Oldest => if c.created == p.created { LessTransitive(p.id, b.id, c.id); }
    case ByUsername =>
      var x, y, z := lower(p.username), lower(b.username), lower(c.username);
      LessIrreflexive(y);
      if x == y == z {
        LessTransitive(p.id, b.id, c.id);
      } else if Less(x, y) && Less(y, z) {
        LessTransitive(x, y, z);
      }
  }

  lemma BeforeIrreflexive(sort: Sort, lower: Lower, a: Row)
    ensures !After(sort, lower, PositionOf(a), a)
  {
    LessIrreflexive(a.id);
    LessIrreflexive(lower(a.username));
  }

  lemma BeforeTotal(sort: Sort, lower: Lower, a: Row, b: Row)
    requires a.id != b.id
    ensures After(sort, lower, PositionOf(a), b) || After(sort, lower, PositionOf(b), a)
  {
    LessTotal(a.id, b.id);
    LessTotal(lower(a.username), lower(b.username));
  }

  /** A row whose printed cursor comes back as it went out. */
  ghost predicate Representable(sort: Sort, row: Row)
  {
    && ValidId(row.id) && !IsWhitespace(row.id[|row.id| - 1])
    && if sort.ByUsername? then ':' !in row.id && 1 <= |row.username| <= MAX_NAME_CHARS
       else 0 <= row.created <= I64_MAX
  }

  /** The row's printed cursor is accepted and selects exactly the rows behind the row. */
  ghost predicate CursorWorks(sort: Sort, lower: Lower, row: Row)
  {
    var position := ResumeAt(sort, CursorText(sort, row));
    && position.Ok?
    && forall other :: After(sort, lower, position.value, other) <==> After(sort, lower, PositionOf(row), other)
  }

  lemma CursorResumes(sort: Sort, lower: Lower, row: Row)
    requires Representable(sort, row)
    ensures CursorWorks(sort, lower, row)
  {
    if sort.ByUsername? {
      NameRoundTripIff(row.username, row.id);
    } else {
      TimeRoundTripIff(row.created, row.id);
    }
  }

  /** A printed cursor works exactly for representable rows; no other row's cursor even names an equivalent position. */
  lemma CursorResumesIff(sort: Sort, lower: Lower, row: Row)
    requires I64_MIN <= row.created <= I64_MAX
    ensures CursorWorks(sort, lower, row) <==> Representable(sort, row)
  {
    if Representable(sort, row) {
      CursorResumes(sort, lower, row);
    } else if ResumeAt(sort, CursorText(sort, row)).Ok? {
      var p := ResumeAt(sort, CursorText(sort, row)).value;
      WrongId(sort, row);
      var named := Row(p.id, p.username, p.created, true);
      BeforeTotal(sort, lower, row, named);
      BeforeIrreflexive(sort, lower, row);
      BeforeIrreflexive(sort, lower, named);
      assert PositionOf(named) == p;
    }
  }

  /** A cursor that does not come back as it went out, but is accepted, comes back with another id. */
  lemma WrongId(sort: Sort, row: Row)
    requires I64_MIN <= row.created <= I64_MAX && !Representable(sort, row)
    requires ResumeAt(sort, CursorText(sort, row)).Ok?
    ensures ResumeAt(sort, CursorText(sort, row)).value.id != row.id
  {
    if sort.ByUsername? {
      NameRoundTripIff(row.username, row.id);
      SameIdSameName(row.username, row.id);
    } else {
      TimeRoundTripIff(row.created, row.id);
      DecodePrintedTime(row.created, row.id);
    }
  }

  /** A row with a negative stored time prints a cursor that the next request rejects. */
  lemma NegativeTimeBreaksCursor(sort: Sort, row: Row)
    requires !sort.ByUsername? && I64_MIN <= row.created < 0
    ensures ResumeAt(sort, CursorText(sort, row)) == Err(InvalidCursor)
  {
    DecodePrintedTime(row.created, row.id);
  }

  /** The first page starts before every row with a decimal id. */
  lemma StartCoversAll(sort: Sort, lower: Lower, row: Row)
    requires Representable(sort, row) && AllDigits(row.id) && lower("") == ""
    ensures After(sort, lower, StartOf(sort), row)
  {
    assert row.id[0] < CURSOR_HIGH_ID[0];
    if sort.ByUsername? { LessTotal("", lower(row.username)); }
  }

  /** Each sort is a strict order, total on rows with different ids. */
  lemma KeysetStrict(sort: Sort, lower: Lower)
    ensures StrictOrder(KeysetOrder(sort, lower))
    ensures forall a: Row, b: Row :: a.id != b.id ==>
        Before(KeysetOrder(sort, lower), a, b) || Before(KeysetOrder(sort, lower), b, a)
  {
    forall a: Row, b: Row | a.id != b.id
      ensures Before(KeysetOrder(sort, lower), a, b) || Before(KeysetOrder(sort, lower), b, a)
    {
      BeforeTotal(sort, lower, a, b);
    }
    var after := KeysetOrder(sort, lower);
    forall p, b, c ensures Chains(after, p, b, c) {
      if after(p, b) && Before(after, b, c) { BeforeTransitive(sort, lower, p, b, c); }
    }
    forall a ensures !Before(after, a, a) {
      BeforeIrreflexive(sort, lower, a);
    }
  }

  // ----- what each sort sorts by

  /** The ORDER BY clause, said of two rows: newest first, oldest first, or by name, with ties broken by id. */
  ghost predicate ComesBefore(sort: Sort, lower: Lower, a: Row, b: Row)
  {
    match sort
    case Newest => a.created > b.created || (a.created == b.created && Less(b.id, a.id))
    case Oldest => a.created < b.created || (a.created == b.created && Less(a.id, b.id))
    case ByUsername =>
      Less(lower(a.username), lower(b.username)) || (lower(a.username) == lower(b.username) && Less(a.id, b.id))
  }

  ghost predicate OrderedBy(sort: Sort, lower: Lower, rows: seq<Row>)
  {
    forall i, j :: 0 <= i < j < |rows| ==> ComesBefore(sort, lower, rows[i], rows[j])
  }

  /** The keyset clause, at the position of a row, selects the rows that the ORDER BY clause puts behind it. */
  lemma KeysetIsOrderBy(sort: Sort, lower: Lower, a: Row, b: Row)
    ensures Before(KeysetOrder(sort, lower), a, b) <==> ComesBefore(sort, lower, a, b)
  {
  }

  lemma SortedIffOrdered(sort: Sort, lower: Lower, rows: seq<Row>)
    ensures Sorted(KeysetOrder(sort, lower), rows) <==> OrderedBy(sort, lower, rows)
  {
    forall i, j | 0 <= i < j < |rows|
      ensures Before(KeysetOrder(sort, lower), rows[i], rows[j]) <==> ComesBefore(sort, lower, rows[i], rows[j])
    {
      KeysetIsOrderBy(sort, lower, rows[i], rows[j]);
    }
  }

  /** Newest accounts first, oldest accounts first, or names ascending. */
  ghost predicate InOrder(sort: Sort, lower: Lower, a: Row, b: Row)
  {
    match sort
    case Newest => a.created >= b.created
    case Oldest => a.created <= b.created
    case ByUsername => lower(a.username) == lower(b.username) || Less(lower(a.username), lower(b.username))
  }

  /** The rows of a page come in the order the sort names. */
  lemma PageInOrder(sort: Sort, lower: Lower, table: seq<Row>, limit: nat, p: Position, i: nat, j: nat)
    requires OrderedBy(sort, lower, table)
    requires i < j < |PageOf(Query(KeysetOrder(sort, lower), table, p), limit).users|
    ensures var users := PageOf(Query(KeysetOrder(sort, lower), table, p), limit).users;
            InOrder(sort, lower, users[i], users[j])
  {
    var users := PageOf(Query(KeysetOrder(sort, lower), table, p), limit).users;
    SortedIffOrdered(sort, lower, table);
    PageSorted(KeysetOrder(sort, lower), table, p, limit);
    KeysetIsOrderBy(sort, lower, users[i], users[j]);
  }

  // ----- whole browsing sessions through the printed cursors

  /** How the next request reads the cursor printed for a row. */
  ghost function ByText(sort: Sort): Resume
  {
    (row: Row) =>
      var position := ResumeAt(sort, CursorText(sort, row));
      if position.Err? then None else Some(position.value)
  }

  ghost predicate AllRepresentable(sort: Sort, table: seq<Row>)
  {
    forall r :: r in table && r.decodable ==> Representable(sort, r)
  }

  /** It is enough that the cursors of the decodable rows come back as they went out. */
  lemma RepresentableIsHonest(sort: Sort, lower: Lower, tables: seq<seq<Row>>, limit: nat, p: Position)
    requires forall k :: 0 <= k < |tables| ==> AllRepresentable(sort, tables[k])
    ensures CursorsHonest(KeysetOrder(sort, lower), ByText(sort), tables, limit, p)
  {
    forall k | 0 <= k < |tables| ensures HonestRows(KeysetOrder(sort, lower), ByText(sort), tables[k]) {
      forall r | r in tables[k] && r.decodable ensures Honest(KeysetOrder(sort, lower), ByText(sort), r) {
        CursorResumes(sort, lower, r);
      }
    }
    HonestRowsSuffice(KeysetOrder(sort, lower), ByText(sort), tables, limit, p);
  }

  /** Representable rows are never refused. */
  lemma RepresentableNotRejected(sort: Sort, lower: Lower, table: seq<Row>)
    requires AllRepresentable(sort, table)
    ensures !Rejects(ByText(sort), table)
  {
    forall r | r in table && r.decodable ensures ByText(sort)(r).Some? {
      CursorResumes(sort, lower, r);
    }
  }

  ghost predicate AllBehindStart(sort: Sort, lower: Lower, table: seq<Row>)
  {
    forall r :: r in table && r.decodable ==> After(sort, lower, StartOf(sort), r)
  }

  /**
   From the start, over an unchanged table, with honest cursors: a browsing that stops returns
   every decodable row once and in order, if and only if the start position lies before all of
   them and there is no gap among the rows it selects.  It stops unless a cursor is rejected.
   Nothing is asked of malformed rows, nor of cursors that are never printed.
   */
  lemma FixedTableExactIff(sort: Sort, lower: Lower, tables: seq<seq<Row>>, table: seq<Row>, limit: nat)
    requires Sorted(KeysetOrder(sort, lower), table) && limit > 0
    requires Unchanged(tables, table) && |tables| > |table|
    requires CursorsHonest(KeysetOrder(sort, lower), ByText(sort), tables, limit, StartOf(sort))
    ensures ResumeAt(sort, "") == Ok(StartOf(sort))
    ensures var b := Browse(KeysetOrder(sort, lower), ByText(sort), tables, limit, StartOf(sort));
            && (b.stopped || Rejects(ByText(sort), table))
            && (b.stopped ==>
                  (b.rows == Decodable(table) <==>
                     && AllBehindStart(sort, lower, table)
                     && !Gap(Query(KeysetOrder(sort, lower), table, StartOf(sort)), limit)))
  {
    var after := KeysetOrder(sort, lower);
    KeysetStrict(sort, lower);
    var i := QueryIsSuffix(after, table, StartOf(sort));
    BrowseIsChain(after, ByText(sort), tables, table, i, limit, StartOf(sort));
    ChainExactIff(table[i..], limit);
    ChainLength(table[i..], limit);
    DecodableLost(after, table, StartOf(sort));
    if AllBehindStart(sort, lower, table) {
      DecodableQuery(after, table, StartOf(sort));
    }
  }

  /**
   With inserts and deletes between the requests, each request running against its own table:
   what is returned is strictly increasing, and a row present throughout is returned once a
   page arrives that was not cut off.
   */
  lemma ChangingTables(sort: Sort, lower: Lower, tables: seq<seq<Row>>, limit: nat, row: Row)
    requires AllSorted(KeysetOrder(sort, lower), tables) && limit > 0
    requires CursorsHonest(KeysetOrder(sort, lower), ByText(sort), tables, limit, StartOf(sort))
    requires row.decodable && After(sort, lower, StartOf(sort), row)
    requires forall k :: 0 <= k < |tables| ==> row in tables[k]
    ensures var b := Browse(KeysetOrder(sort, lower), ByText(sort), tables, limit, StartOf(sort));
            Sorted(KeysetOrder(sort, lower), b.rows) && (b.stopped && b.complete ==> row in b.rows)
  {
    var after := KeysetOrder(sort, lower);
    KeysetStrict(sort, lower);
    NoRowTwice(after, ByText(sort), tables, limit, StartOf(sort));
    var b := Browse(after, ByText(sort), tables, limit, StartOf(sort));
    if b.stopped && b.complete {
      PresentThroughoutIsReturned(after, ByText(sort), tables, limit, StartOf(sort), row);
    }
  }

  /** All rows of a browsing session come in the order the sort names, over changing tables too. */
  lemma BrowsedInOrder(sort: Sort, lower: Lower, tables: seq<seq<Row>>, limit: nat, i: nat, j: nat)
    requires forall k :: 0 <= k < |tables| ==> OrderedBy(sort, lower, tables[k])
    requires CursorsHonest(KeysetOrder(sort, lower), ByText(sort), tables, limit, StartOf(sort))
    requires i < j < |Browse(KeysetOrder(sort, lower), ByText(sort), tables, limit, StartOf(sort)).rows|
    ensures var rows := Browse(KeysetOrder(sort, lower), ByText(sort), tables, limit, StartOf(sort)).rows;
            ComesBefore(sort, lower, rows[i], rows[j]) && InOrder(sort, lower, rows[i], rows[j])
  {
    var after := KeysetOrder(sort, lower);
    var rows := Browse(after, ByText(sort), tables, limit, StartOf(sort)).rows;
    KeysetStrict(sort, lower);
    forall k | 0 <= k < |tables| ensures Sorted(after, tables[k]) {
      SortedIffOrdered(sort, lower, tables[k]);
    }
    NoRowTwice(after, ByText(sort), tables, limit, StartOf(sort));
    KeysetIsOrderBy(sort, lower, rows[i], rows[j]);
  }
}
