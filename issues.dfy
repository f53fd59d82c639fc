/**
 * The `issues` table of app.py and the SQL statements run against it:
 * INSERT with an AUTOINCREMENT id and the `status` default, `UPDATE ... SET
 * status WHERE id = ?`, and `SELECT * ... ORDER BY created_at DESC`.
 */
module Issues {
  import opened Wrappers
  import opened Text

  /** The largest value an SQLite INTEGER holds, 2^63 - 1; sqlite3 refuses to bind a larger Python int. */
  const MaxSqliteInteger: nat := 0x7FFF_FFFF_FFFF_FFFF

  /** The value the `status` column takes when an INSERT leaves it out. */
  const DefaultStatus: string := "open"

  /** The eight columns the INSERT statement of `report` supplies. */
  datatype NewIssue = NewIssue(
    email: string,
    issueType: string,
    description: string,
    imagePath: Option<string>,
    location: string,
    latitude: Option<real>,
    longitude: Option<real>,
    createdAt: string)

  /** One row of the table. */
  datatype Issue = Issue(
    id: nat,
    email: string,
    issueType: string,
    description: string,
    imagePath: Option<string>,
    location: string,
    latitude: Option<real>,
    longitude: Option<real>,
    status: string,
    createdAt: string)

  /** The columns of a row that an INSERT supplies. */
  function Supplied(r: Issue): NewIssue {
    NewIssue(r.email, r.issueType, r.description, r.imagePath, r.location, r.latitude, r.longitude, r.createdAt)
  }

  /** The row an INSERT of `n` creates when the engine assigns it `id`. */
  function Created(id: nat, n: NewIssue): (r: Issue)
    ensures Supplied(r) == n
    ensures r.id == id && r.status == DefaultStatus
  {
    Issue(id, n.email, n.issueType, n.description, n.imagePath, n.location, n.latitude, n.longitude, DefaultStatus, n.createdAt)
  }

  /** Ids ascend in insertion order, so no two rows share one. */
  predicate IdsIncreasing(rows: seq<Issue>) {
    forall i, j :: 0 <= i < j < |rows| ==> rows[i].id < rows[j].id
  }

  /** Every id is one the engine has issued: positive and below the next one. */
  predicate IdsIssued(rows: seq<Issue>, nextId: nat) {
    forall i :: 0 <= i < |rows| ==> 1 <= rows[i].id < nextId
  }

  predicate SameIds(a: seq<Issue>, b: seq<Issue>) {
    |a| == |b| && forall i :: 0 <= i < |a| ==> a[i].id == b[i].id
  }

  /** `UPDATE issues SET status = ? WHERE id = ?` on the rows of the table. */
  function SetStatus(rows: seq<Issue>, id: nat, status: string): (r: seq<Issue>)
    ensures SameIds(r, rows)
    ensures forall i :: 0 <= i < |rows| && rows[i].id != id ==> r[i] == rows[i]
    ensures forall i :: 0 <= i < |rows| && rows[i].id == id ==> r[i] == rows[i].(status := status)
  {
    if rows == [] then []
    else
      var head := if rows[0].id == id then rows[0].(status := status) else rows[0];
      [head] + SetStatus(rows[1..], id, status)
  }

  /** An UPDATE whose id matches no row changes nothing. */
  lemma {:induction false} SetStatusMissingId(rows: seq<Issue>, id: nat, status: string)
    requires forall i :: 0 <= i < |rows| ==> rows[i].id != id
    ensures SetStatus(rows, id, status) == rows
  {
    if rows != [] {
      SetStatusMissingId(rows[1..], id, status);
      assert rows == [rows[0]] + rows[1..];
    }
  }

  /** Of two updates of the same row, the later one decides its status. */
  lemma {:induction false} SetStatusLastWins(rows: seq<Issue>, id: nat, s1: string, s2: string)
    ensures SetStatus(SetStatus(rows, id, s1), id, s2) == SetStatus(rows, id, s2)
  {
    if rows != [] {
      var once := SetStatus(rows, id, s1);
      assert once[1..] == SetStatus(rows[1..], id, s1);
      SetStatusLastWins(rows[1..], id, s1, s2);
    }
  }

  /** Newest first: `created_at` does not increase along the listing. */
  predicate SortedByCreatedDesc(s: seq<Issue>) {
    forall i, j :: 0 <= i < j < |s| ==> TextLe(s[j].createdAt, s[i].createdAt)
  }

  /** Puts `x` into a listing after the rows created later than it. */
  function InsertByCreatedDesc(x: Issue, s: seq<Issue>): (r: seq<Issue>)
    ensures multiset(r) == multiset(s) + multiset{x}
  {
    if s == [] then [x]
    else if TextLe(s[0].createdAt, x.createdAt) then [x] + s
    else
      assert s == [s[0]] + s[1..];
      [s[0]] + InsertByCreatedDesc(x, s[1..])
  }

  lemma {:induction false} InsertKeepsSorted(x: Issue, s: seq<Issue>)
    requires SortedByCreatedDesc(s)
    ensures SortedByCreatedDesc(InsertByCreatedDesc(x, s))
  {
    if s == [] {
    } else if TextLe(s[0].createdAt, x.createdAt) {
      InsertAtFront(x, s);
    } else {
      TextLeTotal(s[0].createdAt, x.createdAt);
      var rest := InsertByCreatedDesc(x, s[1..]);
      InsertKeepsSorted(x, s[1..]);
      forall j | 0 <= j < |rest| ensures TextLe(rest[j].createdAt, s[0].createdAt) {
        assert rest[j] in multiset(rest);
        assert rest[j] == x || rest[j] in multiset(s[1..]);
        if rest[j] != x {
          var i :| 0 <= i < |s[1..]| && s[1..][i] == rest[j];
          assert s[i + 1] == rest[j];
        }
      }
      assert InsertByCreatedDesc(x, s) == [s[0]] + rest;
    }
  }

  lemma InsertAtFront(x: Issue, s: seq<Issue>)
    requires SortedByCreatedDesc(s) && s != [] && TextLe(s[0].createdAt, x.createdAt)
    ensures SortedByCreatedDesc([x] + s)
  {
    forall j | 0 <= j < |s| ensures TextLe(s[j].createdAt, x.createdAt) {
      if j > 0 {
        TextLeTransitive(s[j].createdAt, s[0].createdAt, x.createdAt);
      }
    }
  }

  /** `ORDER BY created_at DESC`: the same rows, newest first. */
  function OrderByCreatedDesc(rows: seq<Issue>): (r: seq<Issue>)
    ensures multiset(r) == multiset(rows)
    ensures SortedByCreatedDesc(r)
  {
    if rows == [] then []
    else
      assert rows == [rows[0]] + rows[1..];
      InsertKeepsSorted(rows[0], OrderByCreatedDesc(rows[1..]));
      InsertByCreatedDesc(rows[0], OrderByCreatedDesc(rows[1..]))
  }

  /**
   * A row created strictly later than every other row heads any listing that
   * holds the rows newest first, whichever order it gives to ties.
   */
  lemma NewestListedFirst(rows: seq<Issue>, k: nat, s: seq<Issue>)
    requires k < |rows|
    requires forall j :: 0 <= j < |rows| && rows[j] != rows[k] ==> !TextLe(rows[k].createdAt, rows[j].createdAt)
    requires multiset(s) == multiset(rows) && SortedByCreatedDesc(s)
    ensures |s| > 0 && s[0] == rows[k]
  {
    assert rows[k] in multiset(s);
    var p :| 0 <= p < |s| && s[p] == rows[k];
    assert s[0] in multiset(rows);
    var j :| 0 <= j < |rows| && rows[j] == s[0];
    assert p == 0 || TextLe(rows[k].createdAt, rows[j].createdAt);
  }

  /**
   * The table and the engine's AUTOINCREMENT counter. Rows are kept in
   * insertion order; `nextId` is the id the next INSERT will receive.
   */
  class IssueStore {
    var rows: seq<Issue>
    var nextId: nat

    ghost predicate Valid()
      reads this
    {
      1 <= nextId && IdsIssued(rows, nextId) && IdsIncreasing(rows)
    }

    /** `CREATE TABLE IF NOT EXISTS issues` on a fresh database: an empty table. */
    constructor ()
      ensures Valid() && rows == [] && nextId == 1
    {
      rows := [];
      nextId := 1;
    }

    /**
     * `INSERT INTO issues (...) VALUES (...)`: one row appended with a fresh
     * id, larger than every id issued before, and status "open".
     */
    method Insert(n: NewIssue) returns (id: nat)
      requires Valid()
      modifies this
      ensures Valid()
      ensures id == old(nextId) && nextId == id + 1
      ensures forall i :: 0 <= i < |old(rows)| ==> old(rows)[i].id < id
      ensures rows == old(rows) + [Created(id, n)]
    {
      id := nextId;
      rows := rows + [Created(id, n)];
      nextId := nextId + 1;
    }

    /**
     * `UPDATE issues SET status = ? WHERE id = ?`; no row matching is no error.
     * An id above the INTEGER range cannot be bound: the statement raises
     * and nothing changes.
     */
    method UpdateStatus(id: nat, status: string) returns (bound: bool)
      requires Valid()
      modifies this
      ensures Valid()
      ensures bound <==> id <= MaxSqliteInteger
      ensures rows == (if bound then SetStatus(old(rows), id, status) else old(rows)) && nextId == old(nextId)
    {
      if id > MaxSqliteInteger {
        return false;
      }
      rows := SetStatus(rows, id, status);
      return true;
    }

    /** `SELECT * FROM issues ORDER BY created_at DESC`. */
    method SelectNewestFirst() returns (r: seq<Issue>)
      ensures multiset(r) == multiset(rows)
      ensures SortedByCreatedDesc(r)
    {
      r := OrderByCreatedDesc(rows);
    }
  }
}
