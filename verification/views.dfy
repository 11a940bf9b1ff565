/**
  The derived views. Given the latest snapshot of each table, the posts
  view joins every post with its author and its comments, and the users
  view is the users snapshot itself. Selections pick one entity out of a
  view by id; an id argument that is not a number yields no feed at all.
 */
module Views {
  import opened Basics
  import opened Records
  import opened Seqs

  /** A post together with its author (absent when orphaned) and its comments. */
  datatype JoinedPost = JoinedPost(post: Post, user: Option<User>, comments: seq<Comment>)
  {
    /** The joined post keeps the post's own `id`. */
    function Id(): int { post.id }
  }

  /** A numeric argument as the route hands it over: an integer, or NaN. */
  datatype NumArg = Int(value: int) | NaN

  /** What `getUser`/`getPost` return: no feed for a NaN id, else a feed, shown by its value at the given view. */
  datatype Feed<T> = NoFeed | Feed(latest: Option<T>)

  function UserWithId(k: int): User -> bool
  {
    (u: User) => u.id == k
  }

  function CommentOnPost(k: int): Comment -> bool
  {
    (c: Comment) => c.fields.postId == k
  }

  function PostWithId(k: int): JoinedPost -> bool
  {
    (p: JoinedPost) => p.Id() == k
  }

  /** One element of the posts view: the post, its first matching user, its matching comments. */
  function JoinPost(users: seq<User>, comments: seq<Comment>, post: Post): (r: JoinedPost)
    ensures r.post == post
    ensures r.user.None? <==> forall i | 0 <= i < |users| :: users[i].id != post.fields.userId
    ensures r.user.Some? ==> exists i | 0 <= i < |users| ::
      users[i] == r.user.value && users[i].id == post.fields.userId
      && forall j | 0 <= j < i :: users[j].id != post.fields.userId
    ensures IsSubsequence(r.comments, comments)
    ensures forall i | 0 <= i < |r.comments| :: r.comments[i].fields.postId == post.id
    ensures forall c :: multiset(r.comments)[c] == if c.fields.postId == post.id then multiset(comments)[c] else 0
    ensures (forall i | 0 <= i < |comments| :: comments[i].fields.postId != post.id) ==> r.comments == []
  {
    JoinedPost(post, Find(users, UserWithId(post.fields.userId)), Filter(comments, CommentOnPost(post.id)))
  }

  /** The posts view: one joined entry per post of the snapshot, in snapshot order. */
  function PostsView(users: seq<User>, posts: seq<Post>, comments: seq<Comment>): (r: seq<JoinedPost>)
    ensures |r| == |posts|
    ensures forall k | 0 <= k < |r| :: r[k].post == posts[k]
    ensures forall k | 0 <= k < |r| :: r[k] == JoinPost(users, comments, posts[k])
  {
    seq(|posts|, k requires 0 <= k < |posts| => JoinPost(users, comments, posts[k]))
  }

  /** The users view: an element-wise copy of the users snapshot. */
  function UsersView(users: seq<User>): (r: seq<User>)
    ensures |r| == |users|
    ensures forall k | 0 <= k < |r| :: r[k] == users[k]
  {
    users[..]
  }

  /** The value of the selected-user feed: the first user of the view with the id, or absent. */
  function SelectedUser(view: seq<User>, id: int): (r: Option<User>)
    ensures r.None? <==> forall i | 0 <= i < |view| :: view[i].id != id
    ensures r.Some? ==> exists i | 0 <= i < |view| ::
      view[i] == r.value && view[i].id == id && forall j | 0 <= j < i :: view[j].id != id
  {
    Find(view, UserWithId(id))
  }

  /** The value of the selected-post feed: the first joined post of the view with the id, or absent. */
  function SelectedPost(view: seq<JoinedPost>, id: int): (r: Option<JoinedPost>)
    ensures r.None? <==> forall i | 0 <= i < |view| :: view[i].post.id != id
    ensures r.Some? ==> exists i | 0 <= i < |view| ::
      view[i] == r.value && view[i].post.id == id && forall j | 0 <= j < i :: view[j].post.id != id
  {
    Find(view, PostWithId(id))
  }

  /** `getUser`: NaN gives no feed; otherwise the feed selects by the integer id. */
  function GetUser(view: seq<User>, id: NumArg): (r: Feed<User>)
    ensures r.NoFeed? <==> id.NaN?
    ensures r.Feed? && r.latest.Some? ==> r.latest.value in view && r.latest.value.id == id.value
    ensures r.Feed? ==> (r.latest.None? <==> forall i | 0 <= i < |view| :: view[i].id != id.value)
    ensures r.Feed? ==> r.latest == SelectedUser(view, id.value)
  {
    if id.NaN? then NoFeed else Feed(SelectedUser(view, id.value))
  }

  /** `getPost`: NaN gives no feed; otherwise the feed selects by the integer id. */
  function GetPost(view: seq<JoinedPost>, id: NumArg): (r: Feed<JoinedPost>)
    ensures r.NoFeed? <==> id.NaN?
    ensures r.Feed? && r.latest.Some? ==> r.latest.value in view && r.latest.value.post.id == id.value
    ensures r.Feed? ==> (r.latest.None? <==> forall i | 0 <= i < |view| :: view[i].post.id != id.value)
    ensures r.Feed? ==> r.latest == SelectedPost(view, id.value)
  {
    if id.NaN? then NoFeed else Feed(SelectedPost(view, id.value))
  }

  /** Over a view with distinct ids, selection finds a user exactly when it is in the view with that id. */
  lemma SelectedUserExact(view: seq<User>, id: int, u: User)
    requires DistinctIds(view)
    ensures SelectedUser(view, id) == Some(u) <==> u in view && u.id == id
  {
    if u in view && u.id == id {
      FindUnique(view, UserWithId(id), u);
    }
  }

  /** Over users with distinct ids, a post's author is exactly the user whose id is the post's `userId`. */
  lemma JoinedAuthorExact(users: seq<User>, comments: seq<Comment>, post: Post, u: User)
    requires DistinctIds(users)
    ensures JoinPost(users, comments, post).user == Some(u) <==> u in users && u.id == post.fields.userId
  {
    SelectedUserExact(users, post.fields.userId, u);
  }

  /** No two entries of the posts view share a post id. */
  ghost predicate DistinctPostIds(view: seq<JoinedPost>)
  {
    forall i, j | 0 <= i < j < |view| :: view[i].post.id != view[j].post.id
  }

  /** Over a view with distinct ids, selection finds a post exactly when it is in the view with that id. */
  lemma SelectedPostExact(view: seq<JoinedPost>, id: int, p: JoinedPost)
    requires DistinctPostIds(view)
    ensures SelectedPost(view, id) == Some(p) <==> p in view && p.post.id == id
  {
    if p in view && p.post.id == id {
      FindUnique(view, PostWithId(id), p);
    }
  }

  /**
    Every post of the snapshot is selectable from the posts view by its
    id, and the selected entry is that post joined with its author and comments,
    provided the snapshot's ids are distinct.
   */
  lemma SelectJoinedPost(users: seq<User>, posts: seq<Post>, comments: seq<Comment>, p: Post)
    requires DistinctIds(posts) && p in posts
    ensures SelectedPost(PostsView(users, posts, comments), p.id) == Some(JoinPost(users, comments, p))
  {
    var view := PostsView(users, posts, comments);
    assert DistinctPostIds(view);
    var k :| 0 <= k < |posts| && posts[k] == p;
    assert view[k] == JoinPost(users, comments, p);
    SelectedPostExact(view, p.id, view[k]);
  }
}
