/**
 * The `Blogs` table of backend/db.js and what SQLite does with the four
 * statements the API runs against it.
 *
 * A `Table` is the table's rows by id plus the AUTOINCREMENT counter (the
 * table's entry in `sqlite_sequence`: the largest id ever issued). The
 * `...Effect` functions give, for one statement, the new table and what the
 * driver reports back (`this.lastID`, `this.changes` or an error). The class
 * `Blogs` is the single shared connection: it holds the same state in mutable
 * fields and executes each statement in place, proved against those functions.
 *
 * Timestamps are readings of an abstract clock (`nat`); the string formats
 * of CURRENT_TIMESTAMP and `toISOString` are not modelled.
 */
module BlogStore {
  import opened Wrappers

  /** The largest rowid SQLite can issue. With AUTOINCREMENT, once it has
      been issued every later INSERT fails with SQLITE_FULL. */
  const MaxRowId: int := 0x7FFF_FFFF_FFFF_FFFF

  /** A value bound to a `?` placeholder: a request body field that is
      `undefined` or `null` binds as SQL NULL. */
  datatype SqlText = Null | Text(s: string)

  /** One stored post, without its id. */
  datatype Post = Post(title: string, content: string, author: string, createdAt: nat, updatedAt: nat)

  /** A row as `SELECT *` returns it. */
  datatype Row = Row(id: int, post: Post)

  datatype Table = Table(rows: map<int, Post>, lastIssued: nat)

  datatype DbError =
    | NotNull(column: string)  // SQLITE_CONSTRAINT on one of the NOT NULL columns
    | Full                     // SQLITE_FULL: the AUTOINCREMENT counter is exhausted
    | Io(message: string)      // any failure of the engine or the disk

  /** The `err.message` the driver hands to the callback: the engine's own
      text for an I/O failure, otherwise SQLite's code and description, which
      for a constraint names the failing column. */
  function Message(e: DbError): (m: string)
    ensures e.Io? ==> m == e.message
    ensures e.NotNull? ==> |m| >= |NotNullPrefix|
    ensures e.NotNull? ==> m[..|NotNullPrefix|] == NotNullPrefix && m[|NotNullPrefix|..] == e.column
    ensures e.Full? ==> m == "SQLITE_FULL: database or disk is full"
  {
    match e
    case NotNull(column) => NotNullPrefix + column
    case Full => "SQLITE_FULL: database or disk is full"
    case Io(m) => m
  }

  const NotNullPrefix := "SQLITE_CONSTRAINT: NOT NULL constraint failed: Blogs."

  /** What `db.run` reports for an INSERT. */
  datatype InsertRun = Inserted(lastId: int) | InsertFailed(error: DbError)

  /** What `db.run` reports for an UPDATE or DELETE. */
  datatype ChangeRun = Changed(changes: nat) | ChangeFailed(error: DbError)

  /** The schema's invariants, plus one the API keeps: ids were issued in
      creation order, so a larger id never has an earlier `created_at`. */
  ghost predicate Wellformed(t: Table) {
    && t.lastIssued <= MaxRowId
    && (forall id :: id in t.rows ==> 1 <= id <= t.lastIssued)
    && (forall id :: id in t.rows ==> t.rows[id].createdAt <= t.rows[id].updatedAt)
    && (forall i, j :: i in t.rows && j in t.rows && i < j ==> t.rows[i].createdAt <= t.rows[j].createdAt)
  }

  /** No timestamp in `t` lies after `now`: the clock does not run backwards. */
  ghost predicate NotAfter(t: Table, now: nat) {
    forall id :: id in t.rows ==> t.rows[id].updatedAt <= now
  }

  predicate AllText(title: SqlText, content: SqlText, author: SqlText) {
    title.Text? && content.Text? && author.Text?
  }

  /** The first NULL column in schema order, which SQLite reports. */
  function FirstNull(title: SqlText, content: SqlText, author: SqlText): string {
    if title.Null? then "title" else if content.Null? then "content" else "author"
  }

  /** `INSERT INTO Blogs (title, content, author) VALUES (?, ?, ?)` at time
      `now`; `io` is the engine's I/O outcome (`Some(message)` on failure). */
  function InsertEffect(t: Table, title: SqlText, content: SqlText, author: SqlText, now: nat, io: Option<string>): (r: (Table, InsertRun))
    ensures r.1.Inserted? <==> io.None? && t.lastIssued < MaxRowId && AllText(title, content, author)
    ensures io.Some? ==> r.1 == InsertFailed(Io(io.value))
    ensures io.None? && t.lastIssued >= MaxRowId ==> r.1 == InsertFailed(Full)
    ensures io.None? && t.lastIssued < MaxRowId && !AllText(title, content, author) ==>
              r.1 == InsertFailed(NotNull(FirstNull(title, content, author)))
    ensures r.1.InsertFailed? ==> r.0 == t
    ensures r.1.Inserted? ==>
              && r.1.lastId > t.lastIssued
              && r.0.lastIssued == r.1.lastId
              && r.0.rows == t.rows[r.1.lastId := Post(title.s, content.s, author.s, now, now)]
    ensures Wellformed(t) && r.1.Inserted? ==> forall id :: id in t.rows ==> id < r.1.lastId
    ensures Wellformed(t) && NotAfter(t, now) ==> Wellformed(r.0) && NotAfter(r.0, now)
  {
    if io.Some? then (t, InsertFailed(Io(io.value)))
    else if t.lastIssued >= MaxRowId then (t, InsertFailed(Full))
    else if !AllText(title, content, author) then (t, InsertFailed(NotNull(FirstNull(title, content, author))))
    else
      var id := t.lastIssued + 1;
      (Table(t.rows[id := Post(title.s, content.s, author.s, now, now)], id), Inserted(id))
  }

  /** `UPDATE Blogs SET title = ?, content = ?, author = ?, updated_at = ? WHERE id = ?`.
      When no row matches, no NOT NULL check fires: the statement changes 0 rows. */
  function UpdateEffect(t: Table, id: int, title: SqlText, content: SqlText, author: SqlText, now: nat, io: Option<string>): (r: (Table, ChangeRun))
    ensures r.1 == Changed(1) <==> io.None? && id in t.rows && AllText(title, content, author)
    ensures r.1 == Changed(0) <==> io.None? && id !in t.rows
    ensures r.1.Changed? ==> r.1.changes <= 1
    ensures io.Some? ==> r.1 == ChangeFailed(Io(io.value))
    ensures io.None? && id in t.rows && !AllText(title, content, author) ==>
              r.1 == ChangeFailed(NotNull(FirstNull(title, content, author)))
    ensures r.1 != Changed(1) ==> r.0 == t
    ensures r.0.lastIssued == t.lastIssued && r.0.rows.Keys == t.rows.Keys
    ensures forall k :: k in t.rows ==> r.0.rows[k].createdAt == t.rows[k].createdAt
    ensures r.1 == Changed(1) ==>
              && r.0.rows[id] == Post(title.s, content.s, author.s, t.rows[id].createdAt, now)
              && forall k :: k in t.rows && k != id ==> r.0.rows[k] == t.rows[k]
    ensures Wellformed(t) && NotAfter(t, now) ==> Wellformed(r.0) && NotAfter(r.0, now)
  {
    if io.Some? then (t, ChangeFailed(Io(io.value)))
    else if id !in t.rows then (t, Changed(0))
    else if !AllText(title, content, author) then (t, ChangeFailed(NotNull(FirstNull(title, content, author))))
    else
      var updated := Post(title.s, content.s, author.s, t.rows[id].createdAt, now);
      (Table(t.rows[id := updated], t.lastIssued), Changed(1))
  }

  /** `DELETE FROM Blogs WHERE id = ?`. The counter is untouched, so the id
      is never issued again. */
  function DeleteEffect(t: Table, id: int, io: Option<string>): (r: (Table, ChangeRun))
    ensures r.1 == Changed(1) <==> io.None? && id in t.rows
    ensures r.1 == Changed(0) <==> io.None? && id !in t.rows
    ensures r.1.ChangeFailed? <==> io.Some?
    ensures r.1 != Changed(1) ==> r.0 == t
    ensures r.1 == Changed(1) ==> r.0 == Table(t.rows - {id}, t.lastIssued)
    ensures io.None? ==> id !in r.0.rows
    ensures r.0.lastIssued == t.lastIssued
    ensures Wellformed(t) ==> Wellformed(r.0)
  {
    if io.Some? then (t, ChangeFailed(Io(io.value)))
    else if id !in t.rows then (t, Changed(0))
    else (Table(t.rows - {id}, t.lastIssued), Changed(1))
  }

  /** `SELECT * FROM Blogs WHERE id = ?`: the row, or none. */
  function SelectOne(t: Table, id: int, io: Option<string>): (r: Result<Option<Row>, DbError>)
    ensures r.Err? <==> io.Some?
    ensures r.Ok? ==> (r.value.Some? <==> id in t.rows)
    ensures r.Ok? && r.value.Some? ==> r.value.value == Row(id, t.rows[id])
  {
    if io.Some? then Err(Io(io.value))
    else if id in t.rows then Ok(Some(Row(id, t.rows[id])))
    else Ok(None)
  }

  /** `SELECT * FROM Blogs ORDER BY created_at DESC`. */
  function SelectAll(t: Table, io: Option<string>): (r: Result<seq<Row>, DbError>)
    ensures r.Err? <==> io.Some?
    ensures r.Ok? ==> r.value == Listing(t)
  {
    if io.Some? then Err(Io(io.value)) else Ok(Listing(t))
  }

  /** The rows of the table, newest `created_at` first, each exactly once.
      SQL leaves the order of equal timestamps open; the model lists them by
      descending id, but this contract states only the SQL promise, and the
      lemmas about listings use only this contract. */
  function Listing(t: Table): (r: seq<Row>)
    ensures forall i :: 0 <= i < |r| ==> r[i].id in t.rows && r[i].post == t.rows[r[i].id]
    ensures forall i, j :: 0 <= i < j < |r| ==> r[i].id != r[j].id
    ensures Wellformed(t) ==> forall id :: id in t.rows ==> Row(id, t.rows[id]) in r
    ensures Wellformed(t) ==> forall i, j :: 0 <= i < j < |r| ==> r[i].post.createdAt >= r[j].post.createdAt
  {
    RowsDownFromComplete(t.rows, t.lastIssued);
    RowsDownFrom(t.rows, t.lastIssued)
  }

  /** The rows with ids `n, n - 1, ..., 1`, in that order. */
  function RowsDownFrom(rows: map<int, Post>, n: int): (r: seq<Row>)
    decreases n
    ensures forall i :: 0 <= i < |r| ==> 1 <= r[i].id <= n && r[i].id in rows && r[i].post == rows[r[i].id]
    ensures forall i, j :: 0 <= i < j < |r| ==> r[i].id > r[j].id
  {
    if n < 1 then []
    else if n !in rows then RowsDownFrom(rows, n - 1)
    else
      var rest := RowsDownFrom(rows, n - 1);
      var r := [Row(n, rows[n])] + rest;
      assert forall i :: 1 <= i < |r| ==> r[i] == rest[i - 1];
      r
  }

  /** Every stored row with an id in 1..n is listed. */
  lemma {:induction false} RowsDownFromComplete(rows: map<int, Post>, n: int)
    ensures forall id :: id in rows && 1 <= id <= n ==> Row(id, rows[id]) in RowsDownFrom(rows, n)
    decreases n
  {
    if n >= 1 {
      RowsDownFromComplete(rows, n - 1);
      var rest := RowsDownFrom(rows, n - 1);
      if n in rows {
        var r := RowsDownFrom(rows, n);
        assert r == [Row(n, rows[n])] + rest;
        assert forall x :: x in rest ==> x in r;
        assert r[0] == Row(n, rows[n]);
      }
    }
  }


  /** A write statement, with the clock reading and I/O outcome it runs under. */
  datatype Statement =
    | InsertStmt(title: SqlText, content: SqlText, author: SqlText, now: nat, io: Option<string>)
    | UpdateStmt(id: int, title: SqlText, content: SqlText, author: SqlText, now: nat, io: Option<string>)
    | DeleteStmt(id: int, io: Option<string>)

  /** Runs one statement; yields the new table and the id it issued, if any. */
  function Execute(t: Table, s: Statement): (Table, Option<int>) {
    match s
    case InsertStmt(title, content, author, now, io) =>
      var (u, run) := InsertEffect(t, title, content, author, now, io);
      (u, if run.Inserted? then Some(run.lastId) else None)
    case UpdateStmt(id, title, content, author, now, io) =>
      (UpdateEffect(t, id, title, content, author, now, io).0, None)
    case DeleteStmt(id, io) =>
      (DeleteEffect(t, id, io).0, None)
  }

  /** Runs statements one after another; yields the final table and every
      id issued, in order. */
  function Replay(t: Table, ss: seq<Statement>): (Table, seq<int>)
    decreases |ss|
  {
    if ss == [] then (t, [])
    else
      var step := Execute(t, ss[0]);
      var after := Replay(step.0, ss[1..]);
      (after.0, (if step.1.Some? then [step.1.value] else []) + after.1)
  }

  /** One statement never moves the counter back, and an issued id is the
      new counter, above the old one. */
  lemma ExecuteIssuesAboveCounter(t: Table, s: Statement)
    ensures t.lastIssued <= Execute(t, s).0.lastIssued
    ensures Execute(t, s).1.Some? ==> t.lastIssued < Execute(t, s).1.value == Execute(t, s).0.lastIssued
  {
  }

  /** The ids are strictly increasing and all lie in `lo + 1 .. hi`. */
  ghost predicate IncreasingWithin(ids: seq<int>, lo: int, hi: int) {
    && (forall i :: 0 <= i < |ids| ==> lo < ids[i] <= hi)
    && (forall i, j :: 0 <= i < j < |ids| ==> ids[i] < ids[j])
  }

  lemma PrependIncreasing(x: int, later: seq<int>, lo: int, hi: int)
    requires lo < x <= hi && IncreasingWithin(later, x, hi)
    ensures IncreasingWithin([x] + later, lo, hi)
  {
    var ids := [x] + later;
    assert forall i :: 1 <= i < |ids| ==> ids[i] == later[i - 1];
  }

  /** AUTOINCREMENT: over any run of statements the issued ids strictly
      increase, all exceed every id issued before the run, and the counter
      never goes back. */
  lemma {:induction false} IssuedIdsIncrease(t: Table, ss: seq<Statement>)
    decreases |ss|
    ensures t.lastIssued <= Replay(t, ss).0.lastIssued
    ensures IncreasingWithin(Replay(t, ss).1, t.lastIssued, Replay(t, ss).0.lastIssued)
  {
    if ss != [] {
      var step := Execute(t, ss[0]);
      ExecuteIssuesAboveCounter(t, ss[0]);
      var after := Replay(step.0, ss[1..]);
      IssuedIdsIncrease(step.0, ss[1..]);
      if step.1.Some? {
        PrependIncreasing(step.1.value, after.1, t.lastIssued, after.0.lastIssued);
        assert Replay(t, ss).1 == [step.1.value] + after.1;
      } else {
        assert Replay(t, ss).1 == after.1;
      }
    }
  }




  /** An id that was issued and is gone (deleted) never comes back. */
  lemma {:induction false} DeletedIdsStayDeleted(t: Table, ss: seq<Statement>, id: int)
    requires id !in t.rows && id <= t.lastIssued
    ensures id !in Replay(t, ss).0.rows
    decreases |ss|
  {
    if ss != [] {
      var (t1, _) := Execute(t, ss[0]);
      DeletedIdsStayDeleted(t1, ss[1..], id);
    }
  }

  /** A post that survives a run of statements keeps its `created_at`. */
  lemma {:induction false} CreatedAtNeverChanges(t: Table, ss: seq<Statement>, id: int)
    requires id in t.rows && id <= t.lastIssued
    requires id in Replay(t, ss).0.rows
    ensures Replay(t, ss).0.rows[id].createdAt == t.rows[id].createdAt
    decreases |ss|
  {
    if ss != [] {
      var (t1, _) := Execute(t, ss[0]);
      if id in t1.rows {
        CreatedAtNeverChanges(t1, ss[1..], id);
      } else {
        DeletedIdsStayDeleted(t1, ss[1..], id);
      }
    }
  }

  /** The single database connection of backend/db.js and the table behind it. */
  class Blogs {
    var rows: map<int, Post>
    var lastIssued: nat

    function Model(): Table
      reads this
    {
      Table(rows, lastIssued)
    }

    ghost predicate Valid()
      reads this
    {
      Wellformed(Model())
    }

    /** Startup runs `CREATE TABLE IF NOT EXISTS`: a table already in the
        database file is kept with all its rows; otherwise an empty one is made. */
    constructor Open(existing: Option<Table>)
      requires existing.Some? ==> Wellformed(existing.value)
      ensures Valid()
      ensures existing.Some? ==> Model() == existing.value
      ensures existing.None? ==> Model() == Table(map[], 0)
    {
      if existing.Some? {
        rows, lastIssued := existing.value.rows, existing.value.lastIssued;
      } else {
        rows, lastIssued := map[], 0;
      }
    }

    method Insert(title: SqlText, content: SqlText, author: SqlText, now: nat, io: Option<string>) returns (run: InsertRun)
      requires Valid() && NotAfter(Model(), now)
      modifies this
      ensures Valid() && NotAfter(Model(), now)
      ensures (Model(), run) == InsertEffect(old(Model()), title, content, author, now, io)
    {
      if io.Some? {
        return InsertFailed(Io(io.value));
      }
      if lastIssued >= MaxRowId {
        return InsertFailed(Full);
      }
      if !AllText(title, content, author) {
        return InsertFailed(NotNull(FirstNull(title, content, author)));
      }
      var id := lastIssued + 1;
      rows := rows[id := Post(title.s, content.s, author.s, now, now)];
      lastIssued := id;
      run := Inserted(id);
    }

    method Update(id: int, title: SqlText, content: SqlText, author: SqlText, now: nat, io: Option<string>) returns (run: ChangeRun)
      requires Valid() && NotAfter(Model(), now)
      modifies this
      ensures Valid() && NotAfter(Model(), now)
      ensures (Model(), run) == UpdateEffect(old(Model()), id, title, content, author, now, io)
    {
      if io.Some? {
        return ChangeFailed(Io(io.value));
      }
      if id !in rows {
        return Changed(0);
      }
      if !AllText(title, content, author) {
        return ChangeFailed(NotNull(FirstNull(title, content, author)));
      }
      rows := rows[id := Post(title.s, content.s, author.s, rows[id].createdAt, now)];
      run := Changed(1);
    }

    method Delete(id: int, io: Option<string>) returns (run: ChangeRun)
      requires Valid()
      modifies this
      ensures Valid()
      ensures (Model(), run) == DeleteEffect(old(Model()), id, io)
    {
      if io.Some? {
        return ChangeFailed(Io(io.value));
      }
      if id !in rows {
        return Changed(0);
      }
      rows := rows - {id};
      run := Changed(1);
    }

    method Get(id: int, io: Option<string>) returns (r: Result<Option<Row>, DbError>)
      ensures r == SelectOne(Model(), id, io)
    {
      if io.Some? {
        r := Err(Io(io.value));
      } else if id in rows {
        r := Ok(Some(Row(id, rows[id])));
      } else {
        r := Ok(None);
      }
    }

    method All(io: Option<string>) returns (r: Result<seq<Row>, DbError>)
      ensures r == SelectAll(Model(), io)
    {
      if io.Some? {
        r := Err(Io(io.value));
      } else {
        r := Ok(Listing(Model()));
      }
    }
  }
}
