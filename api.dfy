/**
 * The five `/api/blogs` handlers of backend/server.js. Each handler runs
 * exactly one statement on the shared connection and turns the driver's
 * report into a status code and a JSON body.
 *
 * `...Spec` functions give a handler's meaning on a `Table` value: the new
 * table and the response. The handler methods run on a `Blogs` connection
 * and are proved against them.
 */
module BlogApi {
  import opened Wrappers
  import opened BlogStore

  /** The request body fields `{ title, content, author }` as they are bound. */
  datatype Draft = Draft(title: SqlText, content: SqlText, author: SqlText)

  /** The JSON body of a response. */
  datatype Body =
    | Created(message: string, postId: int)
    | Note(message: string)
    | Failure(error: string)
    | Posts(posts: seq<Row>)
    | Single(post: Row)

  datatype Response = Response(status: int, body: Body)

  const CreatedMessage := "Blog post created successfully"
  const UpdatedMessage := "Blog post updated successfully"
  const DeletedMessage := "Blog post deleted successfully"
  const NotFound := Response(404, Note("Blog post not found"))

  function StorageFailure(e: DbError): Response {
    Response(500, Failure(Message(e)))
  }

  function CreateReply(run: InsertRun): Response {
    match run
    case InsertFailed(e) => StorageFailure(e)
    case Inserted(id) => Response(201, Created(CreatedMessage, id))
  }

  function ListReply(r: Result<seq<Row>, DbError>): Response {
    match r
    case Err(e) => StorageFailure(e)
    case Ok(rows) => Response(200, Posts(rows))
  }

  function GetReply(r: Result<Option<Row>, DbError>): Response {
    match r
    case Err(e) => StorageFailure(e)
    case Ok(None) => NotFound
    case Ok(Some(row)) => Response(200, Single(row))
  }

  /** Update and delete share this mapping: an error is a 500 carrying its
      message, no row changed means 404, a changed row means 200. */
  function ChangeReply(run: ChangeRun, success: string): (r: Response)
    ensures run.ChangeFailed? ==> r == Response(500, Failure(Message(run.error)))
    ensures run == Changed(0) ==> r == NotFound
    ensures run.Changed? && run.changes > 0 ==> r == Response(200, Note(success))
  {
    match run
    case ChangeFailed(e) => StorageFailure(e)
    case Changed(n) => if n == 0 then NotFound else Response(200, Note(success))
  }

  /** POST /api/blogs */
  function CreateSpec(t: Table, d: Draft, now: nat, io: Option<string>): (r: (Table, Response))
    ensures r.1.status == 201 || r.1.status == 500
    ensures r.1.status == 201 <==> io.None? && t.lastIssued < MaxRowId && AllText(d.title, d.content, d.author)
    ensures io.Some? ==> r.1 == Response(500, Failure(io.value))
    ensures io.None? && t.lastIssued >= MaxRowId ==> r.1 == StorageFailure(Full)
    ensures io.None? && t.lastIssued < MaxRowId && !AllText(d.title, d.content, d.author) ==>
              r.1 == StorageFailure(NotNull(FirstNull(d.title, d.content, d.author)))
    ensures r.1.status == 500 ==> r.0 == t && r.1.body.Failure?
    ensures r.1.status == 201 ==>
              && r.1.body.Created?
              && r.1.body.message == CreatedMessage
              && r.1.body.postId > t.lastIssued
              && r.0.lastIssued == r.1.body.postId
              && r.0.rows == t.rows[r.1.body.postId := Post(d.title.s, d.content.s, d.author.s, now, now)]
  {
    var (u, run) := InsertEffect(t, d.title, d.content, d.author, now, io);
    (u, CreateReply(run))
  }

  /** GET /api/blogs */
  function ListSpec(t: Table, io: Option<string>): (r: Response)
    ensures r.status == 200 <==> io.None?
    ensures io.Some? ==> r == Response(500, Failure(io.value))
    ensures io.None? ==> r.body.Posts?
    ensures io.None? ==> forall i :: 0 <= i < |r.body.posts| ==> r.body.posts[i].id in t.rows && r.body.posts[i].post == t.rows[r.body.posts[i].id]
    ensures io.None? ==> forall i, j :: 0 <= i < j < |r.body.posts| ==> r.body.posts[i].id != r.body.posts[j].id
    ensures io.None? && Wellformed(t) ==> forall id :: id in t.rows ==> Row(id, t.rows[id]) in r.body.posts
    ensures io.None? && Wellformed(t) ==>
              forall i, j :: 0 <= i < j < |r.body.posts| ==> r.body.posts[i].post.createdAt >= r.body.posts[j].post.createdAt
  {
    ListReply(SelectAll(t, io))
  }

  /** GET /api/blogs/:id */
  function GetSpec(t: Table, id: int, io: Option<string>): (r: Response)
    ensures io.Some? ==> r == Response(500, Failure(io.value))
    ensures io.None? && id !in t.rows ==> r == NotFound
    ensures io.None? && id in t.rows ==> r == Response(200, Single(Row(id, t.rows[id])))
  {
    GetReply(SelectOne(t, id, io))
  }

  /** PUT /api/blogs/:id */
  function UpdateSpec(t: Table, id: int, d: Draft, now: nat, io: Option<string>): (r: (Table, Response))
    ensures r.1.status == 200 || r.1.status == 404 || r.1.status == 500
    ensures r.1.status == 404 <==> io.None? && id !in t.rows
    ensures r.1.status == 200 <==> io.None? && id in t.rows && AllText(d.title, d.content, d.author)
    ensures r.1.status == 404 ==> r.1 == NotFound
    ensures r.1.status == 500 ==> r.1.body.Failure?
    ensures io.Some? ==> r.1 == Response(500, Failure(io.value))
    ensures io.None? && id in t.rows && !AllText(d.title, d.content, d.author) ==>
              r.1 == StorageFailure(NotNull(FirstNull(d.title, d.content, d.author)))
    ensures r.1.status != 200 ==> r.0 == t
    ensures r.1.status == 200 ==>
              && r.1.body == Note(UpdatedMessage)
              && r.0 == Table(t.rows[id := Post(d.title.s, d.content.s, d.author.s, t.rows[id].createdAt, now)], t.lastIssued)
  {
    var (u, run) := UpdateEffect(t, id, d.title, d.content, d.author, now, io);
    (u, ChangeReply(run, UpdatedMessage))
  }

  /** DELETE /api/blogs/:id */
  function DeleteSpec(t: Table, id: int, io: Option<string>): (r: (Table, Response))
    ensures r.1.status == 200 <==> io.None? && id in t.rows
    ensures r.1.status == 404 <==> io.None? && id !in t.rows
    ensures io.Some? ==> r.1 == Response(500, Failure(io.value))
    ensures r.1.status == 404 ==> r.1 == NotFound
    ensures r.1.status != 200 ==> r.0 == t
    ensures r.1.status == 200 ==> r.1.body == Note(DeletedMessage) && r.0 == Table(t.rows - {id}, t.lastIssued)
  {
    var (u, run) := DeleteEffect(t, id, io);
    (u, ChangeReply(run, DeletedMessage))
  }

  method CreatePost(db: Blogs, d: Draft, now: nat, io: Option<string>) returns (res: Response)
    requires db.Valid() && NotAfter(db.Model(), now)
    modifies db
    ensures db.Valid() && NotAfter(db.Model(), now)
    ensures (db.Model(), res) == CreateSpec(old(db.Model()), d, now, io)
  {
    var run := db.Insert(d.title, d.content, d.author, now, io);
    res := CreateReply(run);
  }

  method ListPosts(db: Blogs, io: Option<string>) returns (res: Response)
    ensures res == ListSpec(db.Model(), io)
  {
    var r := db.All(io);
    res := ListReply(r);
  }

  method GetPost(db: Blogs, id: int, io: Option<string>) returns (res: Response)
    ensures res == GetSpec(db.Model(), id, io)
  {
    var r := db.Get(id, io);
    res := GetReply(r);
  }

  method UpdatePost(db: Blogs, id: int, d: Draft, now: nat, io: Option<string>) returns (res: Response)
    requires db.Valid() && NotAfter(db.Model(), now)
    modifies db
    ensures db.Valid() && NotAfter(db.Model(), now)
    ensures (db.Model(), res) == UpdateSpec(old(db.Model()), id, d, now, io)
  {
    var run := db.Update(id, d.title, d.content, d.author, now, io);
    res := ChangeReply(run, UpdatedMessage);
  }

  method DeletePost(db: Blogs, id: int, io: Option<string>) returns (res: Response)
    requires db.Valid()
    modifies db
    ensures db.Valid()
    ensures (db.Model(), res) == DeleteSpec(old(db.Model()), id, io)
  {
    var run := db.Delete(id, io);
    res := ChangeReply(run, DeletedMessage);
  }

  /** A post just created is found by its id with exactly the submitted
      fields, and its two timestamps are equal. */
  lemma CreateThenGet(t: Table, title: string, content: string, author: string, now: nat)
    requires t.lastIssued < MaxRowId
    ensures var (u, created) := CreateSpec(t, Draft(Text(title), Text(content), Text(author)), now, None);
            && created.status == 201
            && GetSpec(u, created.body.postId, None) == Response(200, Single(Row(created.body.postId, Post(title, content, author, now, now))))
  {
  }

  /** A post just created is listed, and only once; no listed post is newer.
      `ORDER BY created_at DESC` leaves the order among equal timestamps
      open, so the new post is sure to come first only when every older post
      was created strictly before it. */
  lemma CreatedPostIsListed(t: Table, d: Draft, now: nat)
    requires Wellformed(t) && NotAfter(t, now)
    requires CreateSpec(t, d, now, None).1.status == 201
    ensures var (u, created) := CreateSpec(t, d, now, None);
            var row := Row(created.body.postId, Post(d.title.s, d.content.s, d.author.s, now, now));
            var listed := ListSpec(u, None).body.posts;
            && row in listed
            && (forall i, j :: 0 <= i < j < |listed| && listed[i].id == row.id ==> listed[j].id != row.id)
            && (forall i :: 0 <= i < |listed| ==> listed[i].post.createdAt <= now)
            && ((forall k :: k in t.rows ==> t.rows[k].createdAt < now) ==> listed[0] == row)
  {
    var (u, created) := CreateSpec(t, d, now, None);
    var id := created.body.postId;
    var row := Row(id, Post(d.title.s, d.content.s, d.author.s, now, now));
    var listed := ListSpec(u, None).body.posts;
    assert Wellformed(u) && NotAfter(u, now);
    assert u.rows[id] == row.post;
    assert row in listed;
    forall i | 0 <= i < |listed|
      ensures listed[i].post.createdAt <= now
    {
      assert listed[i].id in u.rows;
    }
    if forall k :: k in t.rows ==> t.rows[k].createdAt < now {
      var k :| 0 <= k < |listed| && listed[k] == row;
      assert listed[0].post.createdAt >= now;
      assert listed[0].id in u.rows && listed[0].post == u.rows[listed[0].id];
      assert listed[0].id == id;
    }
  }


  /** Delete is not idempotent in what the client sees: the first delete of a
      post succeeds, the second finds nothing and changes nothing. */
  lemma DeleteTwice(t: Table, id: int)
    requires id in t.rows
    ensures var (u, first) := DeleteSpec(t, id, None);
            && first == Response(200, Note(DeletedMessage))
            && DeleteSpec(u, id, None) == (u, NotFound)
  {
  }

  /** Applying the same update twice leaves the same post as applying it once,
      apart from `updated_at`, which moves forward to the later clock reading. */
  lemma UpdateTwice(t: Table, id: int, d: Draft, now: nat, later: nat)
    requires Wellformed(t) && NotAfter(t, now) && now <= later
    requires UpdateSpec(t, id, d, now, None).1.status == 200
    ensures var (u, _) := UpdateSpec(t, id, d, now, None);
            var (w, second) := UpdateSpec(u, id, d, later, None);
            && second.status == 200
            && w.rows[id] == u.rows[id].(updatedAt := later)
            && t.rows[id].updatedAt <= u.rows[id].updatedAt <= w.rows[id].updatedAt
            && w.rows[id].createdAt == t.rows[id].createdAt
  {
  }

  /** The table before any post is created. */
  const EmptyTable := Table(map[], 0)

  /** An empty table lists as an empty array, not an error. */
  lemma EmptyTableListsNothing()
    ensures ListSpec(EmptyTable, None) == Response(200, Posts([]))
  {
  }

  /** POST {title: "Hi", content: "World", author: "Ana"} on a new table
      answers 201 with postId 1; GET /api/blogs/1 then returns that post, and
      GET /api/blogs/999 is 404. */
  lemma FirstPostScenario(now: nat)
    ensures var (u, created) := CreateSpec(EmptyTable, Draft(Text("Hi"), Text("World"), Text("Ana")), now, None);
            && created == Response(201, Created(CreatedMessage, 1))
            && GetSpec(u, 1, None) == Response(200, Single(Row(1, Post("Hi", "World", "Ana", now, now))))
            && GetSpec(u, 999, None) == NotFound
  {
  }
}
