/**
  The three collections of the local store (users, posts, comments). Every
  row carries the store's integer primary key `id` and a `lastUpdated`
  timestamp, here an integer count of milliseconds; the entity's own
  fields sit in `fields`.
 */
module Records {

  datatype Row<F> = Row(id: int, fields: F, lastUpdated: int)

  datatype UserFields = UserFields(name: string, email: string, phone: string, website: string)

  /** `userId` refers to a user's `id`; nothing enforces that such a user exists. */
  datatype PostFields = PostFields(userId: int, title: string, body: string)

  /** `postId` refers to a post's `id`; nothing enforces that such a post exists. */
  datatype CommentFields = CommentFields(postId: int, name: string, email: string, body: string)

  type User = Row<UserFields>
  type Post = Row<PostFields>
  type Comment = Row<CommentFields>

  /** The primary keys occurring in `s`. */
  function Ids<F>(s: seq<Row<F>>): set<int>
  {
    set i | 0 <= i < |s| :: s[i].id
  }

  /** No two rows of `s` share a primary key. */
  ghost predicate DistinctIds<F>(s: seq<Row<F>>)
  {
    forall i, j | 0 <= i < j < |s| :: s[i].id != s[j].id
  }

  /** Rows in strictly ascending primary-key order, as the store lists a table. */
  ghost predicate KeyOrdered<F>(s: seq<Row<F>>)
  {
    forall i, j | 0 <= i < j < |s| :: s[i].id < s[j].id
  }

  /** The contents of one store table, listed in primary-key order. */
  type Table<F> = t: seq<Row<F>> | KeyOrdered(t) witness []

  lemma KeyOrderedDistinct<F>(t: seq<Row<F>>)
    requires KeyOrdered(t)
    ensures DistinctIds(t)
  {
  }
}
