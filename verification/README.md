# Local cache and derivation layer of a users/posts/comments viewer

This project models, in Dafny, the client-side service of a small browser
application that caches three related collections — users, posts and
comments — in a local store and derives live views from them. It also models
the breadcrumb trail that the application shell computes from the current
pathname.

What is modelled:

- **Tables** (`records.dfy`, `store.dfy`). Each table is the list of its rows in
  primary-key order, which is how the store lists a table. A row has an
  integer `id`, the entity's own fields and an integer `lastUpdated`
  timestamp. The store's `add` refuses a key that is already present. `put`
  inserts or overwrites by key. `bulkPut` is a sequence of puts. A reload
  step is `clear` followed by `bulkPut` in one transaction.
- **Snapshots** (`recency.dfy`). A snapshot is the table sorted newest first.
  The sort is stable, as `Array.prototype.sort` is, so rows with equal
  timestamps keep table order.
- **Views** (`views.dfy`). The posts view joins each post with the first user
  whose `id` is the post's `userId`, and with the comments whose `postId` is
  the post's `id`, in snapshot order. The users view is a copy of the users
  snapshot. The selections return the first view element with a given id.
  `getUser`/`getPost` give no feed at all for a NaN id.
- **Service** (`service.dfy`). `addUser`, `addPost`, `addComment`,
  `fetchAndCache` and `reloadData` are pure transitions on the three-table
  state. Each one returns the new tables and how the call settled: it
  completes, or it raises.
- **Breadcrumbs** (`breadcrumbs.dfy`). The pathname is split on `/` with
  JavaScript `split` semantics. Empty pieces are dropped. The trail is shown
  only when a segment remains, and link `k` targets `/` followed by segments
  `0..k` joined with `/`.
- `seqs.dfy` holds `find` and `filter` over sequences, with the subsequence
  relation. `basics.dfy` holds `Option` and `Result`.

Inputs the program takes from its environment are parameters:

- the clock (`now`);
- the key the store assigns to a new row (the `id` of the row handed to an add);
- whether a store write fails (`fault`, `writeFails`);
- the HTTP response of each reload step (`ok` and the decoded rows).

Error policy, as the code has it:

- `addUser` and `addPost` swallow a refused write.
- `addComment` re-raises it.
- `reloadData` stops at the first failing step and then swallows the error:
  the code at `src/services/api.js:158-160` catches it and only logs it.

## Model

| member | source | states |
|---|---|---|
| Seqs.Find | src/services/api.js:35 | `find` returns the first element satisfying the predicate, and is absent exactly when no element satisfies it |
| Seqs.FindUnique | src/services/api.js:74 | when at most one element can match, `find` returns exactly the element that matches |
| Seqs.Filter | src/services/api.js:36 | `filter` returns a subsequence of its input in which every element satisfies the predicate and every satisfying occurrence is kept, with the same multiplicity |
| Seqs.FilterUnique | src/services/api.js:36 | any subsequence with those three properties equals the `filter` result, so the contract determines it completely |
| Recency.SortByLastUpdated | src/services/api.js:14 | the snapshot is a permutation of the table's rows (same multiset) ordered by `lastUpdated` non-increasing |
| Recency.SortKeepsRows | src/services/api.js:14 | sorting keeps the number of rows and exactly the same members |
| Recency.SortStable | src/services/api.js:14 | for every timestamp, the rows carrying it appear in the snapshot in the order the table lists them (stable sort) |
| Recency.SortSorted | src/services/api.js:14 | a sequence that is already newest first is returned unchanged |
| Recency.SortIdempotent | src/services/api.js:20 | sorting a snapshot again changes nothing |
| Recency.SortDistinct | src/services/api.js:20 | sorting rows with distinct primary keys yields rows with distinct primary keys |
| Store.Put | src/services/api.js:149 | after `put`, the row is in the table, rows under other keys are kept, and the row it replaced under its key is gone |
| Store.PutNewKey | src/services/api.js:149 | a `put` under a key not yet present adds exactly one row |
| Store.Add | src/services/api.js:104 | `add` fails exactly on a storage fault or an existing key, with the matching error; on success the table gains exactly the new row |
| Store.BulkPut | src/services/api.js:149 | after `bulkPut`, every row is a put row or an untouched old row under a key not put, every old row under a key not put is kept, and the last row put under each key is present |
| Store.ReplaceAll | src/services/api.js:141-150 | after clear plus `bulkPut`, the table holds only given rows, and the last given row under each key; with distinct keys, all of them |
| Views.JoinPost | src/services/api.js:33-37 | a joined post keeps the post; its user is absent exactly when no user has the post's `userId`, and otherwise is the first such user; its comments are exactly the comments on the post, in snapshot order, and empty when there are none |
| Views.JoinedAuthorExact | src/services/api.js:35 | over users with distinct ids, the joined user is `u` exactly when `u` is a user whose id is the post's `userId` |
| Views.PostsView | src/services/api.js:31-38 | the posts view has one entry per post of the snapshot, in the same order, each carrying that post |
| Views.UsersView | src/services/api.js:47-49 | the users view is an element-wise copy of the users snapshot |
| Views.SelectedUser | src/services/api.js:83-84 | the selected user is the first user of the view with the id, and is absent exactly when no user has it |
| Views.SelectedPost | src/services/api.js:73-74 | the selected post is the first entry of the view with the id, and is absent exactly when no entry has it |
| Views.SelectedUserExact | src/services/api.js:84 | over a view with distinct ids, selection yields `u` exactly when `u` is in the view under that id |
| Views.SelectedPostExact | src/services/api.js:74 | over a view with distinct post ids, selection yields `p` exactly when `p` is in the view under that id |
| Views.SelectJoinedPost | src/services/api.js:73-74 | every post of a snapshot with distinct ids is selectable by its id, and yields that post joined with its author and comments |
| Views.GetUser | src/services/api.js:97-100 | a NaN id gives no feed; otherwise the feed's value is the first user of the view with that id, absent exactly when there is none |
| Views.GetPost | src/services/api.js:109-112 | a NaN id gives no feed; otherwise the feed's value is the first entry of the view with that id, absent exactly when there is none |
| Service.Snapshot | src/services/api.js:20 | a table's live snapshot is newest first, holds the table's rows as a multiset, and has distinct primary keys |
| Service.InSnapshot | src/services/api.js:20 | a row is in the snapshot exactly when it is in the table |
| Service.UsersOf | src/services/api.js:47-49 | the users view lists the users table newest first, holds exactly its rows with their multiplicities, and has distinct ids |
| Service.PostsOf | src/services/api.js:31-38 | the posts view has one entry per stored post, every stored post appears in it and only those, the entries follow the posts snapshot and so are newest first, and each entry is its post joined against the users and comments snapshots |
| Service.AddUser | src/services/api.js:102-108 | `addUser` always completes and never touches posts or comments; on a refused write the tables are unchanged; otherwise the users table gains exactly the user stamped with `now` |
| Service.AddPost | src/services/api.js:115-121 | `addPost` always completes and never touches users or comments; on a refused write the tables are unchanged; otherwise the posts table gains exactly the post stamped with `now` |
| Service.AddComment | src/services/api.js:122-130 | `addComment` raises exactly when the write is refused, leaving the tables unchanged, with the storage fault or the existing key as cause; otherwise the comments table gains exactly the comment as given, with no stamping |
| Service.FetchAndCache | src/services/api.js:134-151 | a response that is not ok raises before the table is touched; a failed transaction raises; otherwise every row of the table is a fetched row stamped with the fetch time, none of the previous rows survive, and each key's last fetched row is present |
| Service.ReloadData | src/services/api.js:131-161 | the reload always completes; it runs users, then posts, then comments; the first failing step leaves that table and all later tables unchanged, and tables replaced before it stay replaced |
| Service.AddedUserSelectable | src/services/api.js:97-108 | after `addUser` stores a user, the selected-user feed for its id yields that row stamped with the insertion time |
| Service.AddedPostSelectable | src/services/api.js:109-121 | after `addPost` stores a post, the selected-post feed for its id yields that row joined with its author and comments |
| Service.AddedPostJoinsAuthor | src/services/api.js:31-38 | a user added and then a post by that user: the post's view entry names that user and has no comments when none refer to it |
| Service.AddedCommentJoined | src/services/api.js:122-130 | after `addComment` stores a comment, the selected-post feed of the stored post it refers to lists it among that post's comments |
| Service.ReloadedUsersExact | src/services/api.js:141-150 | after a reload whose users step succeeded with distinct ids, the users view holds exactly the fetched users stamped with the fetch time |
| Breadcrumbs.Split | src/App.jsx:112 | `split("/")` returns at least one piece, no piece contains `/`, and joining the pieces with `/` gives back the pathname |
| Breadcrumbs.SplitJoin | src/App.jsx:112 | splitting the `/`-join of slash-free pieces gives back those pieces: split and join are inverse |
| Breadcrumbs.Segments | src/App.jsx:112 | every segment is non-empty and slash-free; the segments are the `split` pieces with the empty ones removed, in order |
| Breadcrumbs.BreadcrumbTrail | src/App.jsx:134-152 | the trail is hidden exactly when there is no segment; otherwise it shows the home link and one link per segment, labelled with it |
| Breadcrumbs.LinkTargetStep | src/App.jsx:140 | each link's target is the previous target followed by `/` and the next segment |
| Breadcrumbs.JoinSnoc | src/App.jsx:140 | joining with one more piece appends `/` and that piece |
| Breadcrumbs.LinkTargetsNest | src/App.jsx:140-143 | every link target is a proper prefix of each later one, so the link keys are distinct |
| Breadcrumbs.LastLinkTarget | src/App.jsx:140 | the last link targets `/` followed by all segments joined with `/` |
| Breadcrumbs.SegmentsOfCanonical | src/App.jsx:112 | a path made of `/` and non-empty slash-free segments joined by `/` has exactly those segments, and the root `/` has none |
| Breadcrumbs.FollowLink | src/App.jsx:139-140 | following link `k` leads to a path whose trail shows exactly the first `k + 1` segments |

## Left out

- Persistence: the store is an in-memory value, and each write is one atomic update of it. Durability across sessions, change detection (`liveQuery`) and the isolation that transactions give concurrent readers are not modelled.
- Key assignment: the auto-increment key generator is not modelled. The `id` of the row handed to an add stands for the key the store uses. `bulkPut` rows without an `id` are not modelled.
- Stream timing: `combineLatest`, `shareReplay`, `from`, subscriber fan-out and coalescing are not modelled. The views are pure functions of the current snapshot triple.
- GetUser: the live feed is represented by its value at one view. Re-emission as the view changes follows from applying it to each new view and is not modelled as a stream.
- GetPost: as GetUser.
- `appState$` (src/services/api.js:58-63) combines the two views, but nothing subscribes to it, so it is not modelled.
- `appStateSubject` (src/services/api.js:17) is a `BehaviorSubject` that starts at `null` and is never fed: its only `next` call, at src/services/api.js:65-70, is commented out. It is not modelled.
- Network: `fetch`, transport errors and JSON decoding are not modelled. A response is an `ok` flag with the decoded rows. A transport or decoding error would also raise before the table is touched, as a response that is not ok does.
- Storage read failures of a snapshot query are not modelled. Neither is the `|| []` fallback on src/services/api.js:20, which never applies, because a Promise is always truthy.
- Dates: timestamps are integers and the clock is a parameter. The ISO strings and `Date` arithmetic of the comparator are not modelled. A reload step calls `new Date()` once per row; the model uses one reading per step.
- Rows without a timestamp: a row stored without `last_updated` would make the comparator return NaN. This is not modelled, and every row has an integer timestamp.
- Typed fields: a post field named `user` or `comments` would be overwritten by the spread in the join. The model's fields are typed, so this cannot happen.
- Logging: the `console` calls, including the diagnostic on an absent selection, are not modelled.
- Route loaders: `parseInt` in src/loaders/index.js is not modelled. The id argument arrives already parsed as an integer or NaN.
- React rendering, dialogs, notifications and the rest of src/App.jsx (theme, `handleConfirmReload`) are not modelled.
