/**
  The service surface over the three-table store: the live snapshots and
  views as functions of the current tables, the three add operations and
  the reload. Each write is one atomic update of the tables; a failure is
  either swallowed (the operation still completes) or raised to the caller.
 */
module Service {
  import opened Basics
  import opened Records
  import opened Store
  import opened Recency
  import opened Views

  datatype TableName = UsersTable | PostsTable | CommentsTable

  datatype Error =
    | FetchFailed(table: TableName)                   // the response for the table was not ok
    | WriteFailed(table: TableName, cause: StoreError) // the store refused the write

  /** How an asynchronous operation settles: it completes, or it raises. */
  datatype Outcome = Completed | Raised(error: Error)

  datatype Tables = Tables(users: Table<UserFields>, posts: Table<PostFields>, comments: Table<CommentFields>)

  /** The tables after an operation, and how the operation settled. */
  datatype Step = Step(tables: Tables, outcome: Outcome)

  /** A table's live snapshot: its rows, newest first. */
  function Snapshot<F(==)>(t: Table<F>): (r: seq<Row<F>>)
    ensures NewestFirst(r)
    ensures multiset(r) == multiset(t)
    ensures DistinctIds(r)
  {
    KeyOrderedDistinct(t);
    SortDistinct(t);
    SortByLastUpdated(t)
  }

  /**
    `getUsers()`: the users view over the current tables. It lists the users
    table newest first, each row once.
   */
  function UsersOf(s: Tables): (r: seq<User>)
    ensures NewestFirst(r) && multiset(r) == multiset(s.users) && DistinctIds(r)
  {
    var r := UsersView(Snapshot(s.users));
    assert r == Snapshot(s.users);
    r
  }

  /**
    `getPosts()`: the posts view over the current tables. It has one entry
    per stored post, in the newest-first order of the posts snapshot, and each
    entry is that post joined against the users and comments snapshots.
   */
  function PostsOf(s: Tables): (r: seq<JoinedPost>)
    ensures |r| == |s.posts|
    ensures |r| == |Snapshot(s.posts)| && forall k | 0 <= k < |r| :: r[k].post == Snapshot(s.posts)[k]
    ensures forall i, j | 0 <= i < j < |r| :: r[i].post.lastUpdated >= r[j].post.lastUpdated
    ensures forall p :: p in s.posts <==> exists k | 0 <= k < |r| :: r[k].post == p
    ensures forall k | 0 <= k < |r| :: r[k] == JoinPost(Snapshot(s.users), Snapshot(s.comments), r[k].post)
  {
    SnapshotCovers(s.posts);
    PostsView(Snapshot(s.users), Snapshot(s.posts), Snapshot(s.comments))
  }

  /**
    `addUser`: the user is added stamped with `now`; a refused write is
    swallowed, so the call completes either way. `user.id` is the key the
    store assigns.
   */
  function AddUser(s: Tables, user: User, now: int, fault: bool): (r: Step)
    ensures r.outcome == Completed
    ensures r.tables.posts == s.posts && r.tables.comments == s.comments
    ensures fault || user.id in Ids(s.users) ==> r.tables == s
    ensures !fault && user.id !in Ids(s.users) ==> Inserted(s.users, r.tables.users, user.(lastUpdated := now))
  {
    match Add(s.users, user.(lastUpdated := now), fault)
    case Success(t) => Step(s.(users := t), Completed)
    case Failure(_) => Step(s, Completed)
  }

  /** `addPost`: as `addUser`, on the posts table. */
  function AddPost(s: Tables, post: Post, now: int, fault: bool): (r: Step)
    ensures r.outcome == Completed
    ensures r.tables.users == s.users && r.tables.comments == s.comments
    ensures fault || post.id in Ids(s.posts) ==> r.tables == s
    ensures !fault && post.id !in Ids(s.posts) ==> Inserted(s.posts, r.tables.posts, post.(lastUpdated := now))
  {
    match Add(s.posts, post.(lastUpdated := now), fault)
    case Success(t) => Step(s.(posts := t), Completed)
    case Failure(_) => Step(s, Completed)
  }

  /**
    `addComment`: the comment is stored exactly as given, timestamp
    included; a refused write is raised to the caller.
   */
  function AddComment(s: Tables, comment: Comment, fault: bool): (r: Step)
    ensures r.tables.users == s.users && r.tables.posts == s.posts
    ensures r.outcome.Raised? <==> fault || comment.id in Ids(s.comments)
    ensures r.outcome.Raised? ==> r.tables == s && r.outcome.error.table == CommentsTable
    ensures r.outcome.Raised? && fault ==> r.outcome.error == WriteFailed(CommentsTable, StorageFault)
    ensures r.outcome.Raised? && !fault ==> r.outcome.error == WriteFailed(CommentsTable, KeyExists(comment.id))
    ensures r.outcome.Completed? ==> Inserted(s.comments, r.tables.comments, comment)
  {
    match Add(s.comments, comment, fault)
    case Success(t) => Step(s.(comments := t), Completed)
    case Failure(e) => Step(s, Raised(WriteFailed(CommentsTable, e)))
  }

  /**
    What one reload step meets: whether the response was ok, the rows it
    carried, the clock reading used to stamp them, and whether the store
    transaction fails.
   */
  datatype Fetched<F> = Fetched(ok: bool, rows: seq<Row<F>>, now: int, writeFails: bool)
  {
    predicate Succeeds() { ok && !writeFails }
  }

  /**
    `fetchAndCache`: a response that is not ok raises before the table is
    touched; a failed transaction raises and leaves the table as it was;
    otherwise the table holds the fetched rows, stamped, and none of the
    rows it held before.
   */
  function FetchAndCache<F>(t: Table<F>, name: TableName, f: Fetched<F>): (r: Result<Table<F>, Error>)
    ensures !f.ok ==> r == Failure(FetchFailed(name))
    ensures f.ok && f.writeFails ==> r == Failure(WriteFailed(name, StorageFault))
    ensures r.Success? <==> f.Succeeds()
    ensures r.Success? ==> forall y | y in r.value :: y.lastUpdated == f.now && y in Restamp(f.rows, f.now)
    ensures r.Success? ==> forall i | 0 <= i < |f.rows| && LastWithItsId(f.rows, i) ::
      f.rows[i].(lastUpdated := f.now) in r.value
    ensures r.Success? && DistinctIds(f.rows) ==> forall i | 0 <= i < |f.rows| ::
      f.rows[i].(lastUpdated := f.now) in r.value
  {
    if !f.ok then Failure(FetchFailed(name))
    else if f.writeFails then Failure(WriteFailed(name, StorageFault))
    else
      var stamped := Restamp(f.rows, f.now);
      assert forall i | 0 <= i < |f.rows| :: LastWithItsId(f.rows, i) <==> LastWithItsId(stamped, i);
      assert DistinctIds(f.rows) ==> DistinctIds(stamped);
      Success(ReplaceAll(stamped))
  }

  /**
    `reloadData`: users, then posts, then comments. The first failing step
    stops the later ones, tables already replaced stay replaced, and the
    error is swallowed: the reload always completes.
   */
  function ReloadData(s: Tables, users: Fetched<UserFields>, posts: Fetched<PostFields>,
                      comments: Fetched<CommentFields>): (r: Step)
    ensures r.outcome == Completed
    ensures !users.Succeeds() ==> r.tables == s
    ensures users.Succeeds() ==> r.tables.users == FetchAndCache(s.users, UsersTable, users).value
    ensures users.Succeeds() && !posts.Succeeds() ==> r.tables.posts == s.posts && r.tables.comments == s.comments
    ensures users.Succeeds() && posts.Succeeds() ==> r.tables.posts == FetchAndCache(s.posts, PostsTable, posts).value
    ensures users.Succeeds() && posts.Succeeds() && !comments.Succeeds() ==> r.tables.comments == s.comments
    ensures users.Succeeds() && posts.Succeeds() && comments.Succeeds() ==>
      r.tables.comments == FetchAndCache(s.comments, CommentsTable, comments).value
  {
    match FetchAndCache(s.users, UsersTable, users)
    case Failure(_) => Step(s, Completed)
    case Success(u) =>
      var s1 := s.(users := u);
      match FetchAndCache(s1.posts, PostsTable, posts)
      case Failure(_) => Step(s1, Completed)
      case Success(p) =>
        var s2 := s1.(posts := p);
        match FetchAndCache(s2.comments, CommentsTable, comments)
        case Failure(_) => Step(s2, Completed)
        case Success(c) => Step(s2.(comments := c), Completed)
  }

  lemma InSnapshot<F>(t: Table<F>, x: Row<F>)
    ensures x in Snapshot(t) <==> x in t
  {
    assert x in Snapshot(t) <==> x in multiset(Snapshot(t));
  }

  /** A snapshot is as long as its table, and each row of the table sits at some index of it. */
  lemma SnapshotCovers<F>(t: Table<F>)
    ensures |Snapshot(t)| == |t|
    ensures forall x :: x in t <==> exists k | 0 <= k < |Snapshot(t)| :: Snapshot(t)[k] == x
  {
    assert |Snapshot(t)| == |multiset(Snapshot(t))| == |multiset(t)| == |t|;
    forall x
      ensures x in t <==> exists k | 0 <= k < |Snapshot(t)| :: Snapshot(t)[k] == x
    {
      InSnapshot(t, x);
    }
  }

  /**
    Once `addUser` has stored a user, the selected-user feed for its id
    yields that row, stamped with the insertion time.
   */
  lemma AddedUserSelectable(s: Tables, user: User, now: int)
    requires user.id !in Ids(s.users)
    ensures GetUser(UsersOf(AddUser(s, user, now, false).tables), Int(user.id)) == Feed(Some(user.(lastUpdated := now)))
  {
    var t := AddUser(s, user, now, false).tables;
    var row := user.(lastUpdated := now);
    InSnapshot(t.users, row);
    SelectedUserExact(UsersOf(t), user.id, row);
  }

  /**
    Once `addPost` has stored a post, the selected-post feed for its id
    yields that row joined with its author and comments.
   */
  lemma AddedPostSelectable(s: Tables, post: Post, now: int)
    requires post.id !in Ids(s.posts)
    ensures var t := AddPost(s, post, now, false).tables;
      GetPost(PostsOf(t), Int(post.id))
      == Feed(Some(JoinPost(Snapshot(t.users), Snapshot(t.comments), post.(lastUpdated := now))))
  {
    var t := AddPost(s, post, now, false).tables;
    var row := post.(lastUpdated := now);
    InSnapshot(t.posts, row);
    SelectJoinedPost(Snapshot(t.users), Snapshot(t.posts), Snapshot(t.comments), row);
  }

  /**
    A user added and then a post by that user: the post's entry in the
    posts view names that user as its author, and carries no comments when
    no stored comment refers to the post.
   */
  lemma AddedPostJoinsAuthor(s: Tables, user: User, post: Post, now: int, later: int)
    requires user.id !in Ids(s.users) && post.id !in Ids(s.posts)
    requires post.fields.userId == user.id
    requires forall c | c in s.comments :: c.fields.postId != post.id
    ensures var t := AddPost(AddUser(s, user, now, false).tables, post, later, false).tables;
      var f := GetPost(PostsOf(t), Int(post.id));
      f.Feed? && f.latest.Some?
      && f.latest.value.user == Some(user.(lastUpdated := now))
      && f.latest.value.comments == []
  {
    var s1 := AddUser(s, user, now, false).tables;
    var t := AddPost(s1, post, later, false).tables;
    AddedPostSelectable(s1, post, later);
    var u := user.(lastUpdated := now);
    InSnapshot(t.users, u);
    var row := post.(lastUpdated := later);
    JoinedAuthorExact(Snapshot(t.users), Snapshot(t.comments), row, u);
    forall i | 0 <= i < |Snapshot(t.comments)| ensures Snapshot(t.comments)[i].fields.postId != post.id {
      InSnapshot(t.comments, Snapshot(t.comments)[i]);
    }
  }

  /**
    Once `addComment` has stored a comment, the selected-post feed of the
    post it refers to lists it among the post's comments.
   */
  lemma AddedCommentJoined(s: Tables, comment: Comment, p: Post)
    requires comment.id !in Ids(s.comments)
    requires p in s.posts && p.id == comment.fields.postId
    ensures var f := GetPost(PostsOf(AddComment(s, comment, false).tables), Int(p.id));
      f.Feed? && f.latest.Some? && comment in f.latest.value.comments
  {
    var t := AddComment(s, comment, false).tables;
    InSnapshot(t.posts, p);
    InSnapshot(t.comments, comment);
    SelectJoinedPost(Snapshot(t.users), Snapshot(t.posts), Snapshot(t.comments), p);
    var j := JoinPost(Snapshot(t.users), Snapshot(t.comments), p);
    assert comment in multiset(Snapshot(t.comments));
    assert comment in multiset(j.comments);
  }

  /**
    After a reload whose users step succeeded with distinct ids, the users
    view holds exactly the fetched users, stamped with the fetch time.
   */
  lemma ReloadedUsersExact(s: Tables, users: Fetched<UserFields>, posts: Fetched<PostFields>,
                           comments: Fetched<CommentFields>, y: User)
    requires users.Succeeds() && DistinctIds(users.rows)
    ensures y in UsersOf(ReloadData(s, users, posts, comments).tables) <==> y in Restamp(users.rows, users.now)
  {
    var t := ReloadData(s, users, posts, comments).tables;
    InSnapshot(t.users, y);
    if y in Restamp(users.rows, users.now) {
      var i :| 0 <= i < |users.rows| && Restamp(users.rows, users.now)[i] == y;
    }
  }
}
