# Post resolver: a Dafny model

This project models the post resolver of a forum-style GraphQL server: the
keyset-paginated feed `posts(limit, cursor)`, the `textSnippet` field, the
lookup `post(id)` and the mutations `createPost`, `updatePost` and
`deletePost`, run against an in-memory `post` table.

- `Posts` (posts.dfy) holds the `Post` row, the `PostInput` argument, the
  `Option` and `Result` wrappers, and `TextSnippet`.
- `Feed` (feed.dfy) holds the feed as specification functions.
  - `RealLimit` is the `Math.min(50, limit)` clamp.
  - `CursorBound` is the truthiness test on the cursor.
  - `Filter`, `SortNewestFirst` and `Take` are the `WHERE`, `ORDER BY` and `LIMIT` clauses.
  - `Slice` is JavaScript's `slice(0, end)`.
  - `Paginate` gives the page for a non-negative limit.
  - `PostsQuery` covers every integer limit.
  - The lemmas about pages: size bounds, order, the cursor filter, the page as a prefix of the ordered rows, the sentinel rule for `hasMore`, and keyset continuation from one page to the next.
- `Store` (store.dfy) holds the class `PostStore`.
  - It keeps the table as a map from id to post, plus the serial counter of the id column.
  - Its methods are the resolver operations that read or change the table.
  - Its lemmas relate the table scan and retitling to the feed.

The SQL text of the feed query is not well formed as written: a comma is
missing after `u.username`, and `json_build_object` has a trailing comma. The
model follows what the query evidently means. It keeps the rows strictly
older than the cursor, orders them newest first and keeps the first
`realLimit + 1` of them.

The database leaves the order of posts with equal `createdAt` open. The model
settles it: a stable insertion sort over the table in id order. Keyset
pagination on `createdAt` alone can lose a post that shares its creation time
with the last post of a page and did not fit on that page. `TiedFirstPage` and
`TiedSecondPage` show such a post on neither page. With distinct creation
times, counted in whole milliseconds as under "## Left out", nothing is lost;
see `TwoPagesCoverNewestPosts`.

In three places the code does something other than what its own text
suggests, and the model follows the code.
- `deletePost` answers `true` even when the delete fails, although its `catch`
  returns `false`. The call is not awaited, so its failure never reaches the
  `catch`. `DeletePostAwaited` models what the `catch` evidently intends.
- `PostInput.points` is a required field, although its TypeScript declaration
  `points?` marks it optional. It is declared with `@Field()` and without
  `nullable`, and that is what the schema enforces.
- A negative `limit` is not rejected by the resolver, although PostgreSQL's
  `LIMIT` admits no negative count.
  - `limit = -1` queries `LIMIT 0`, so the fetch is empty. `slice(0, -1)` of
    that is empty too, and `hasMore` is `0 === 0`, which is true.
  - A `limit` below -1 sends a negative `LIMIT`, which PostgreSQL rejects.
  - `PostsQueryCases` states both cases.

## Model

| member | source | states |
|---|---|---|
| Posts.TextSnippet | server/resolvers/post.ts:27-30 | the snippet is a prefix of the text, of length 100, or of the whole text when it is shorter |
| Feed.RealLimit | server/resolvers/post.ts:39 | the clamped limit is at most 50 and at most `limit`, and equals one of them |
| Feed.CursorBound | server/resolvers/post.ts:43-45 | there is a bound exactly when the cursor is neither null nor empty, and it is the parsed cursor |
| Feed.Filter | server/resolvers/post.ts:57 | a post is kept exactly when it is a row the bound admits; no row is kept more often than it occurs |
| Feed.InsertPermutes | server/resolvers/post.ts:58 | inserting one post yields a permutation of the post plus the sequence |
| Feed.InsertKeepsOrder | server/resolvers/post.ts:58 | inserting into a newest-first sequence keeps it newest first |
| Feed.SortNewestFirst | server/resolvers/post.ts:58 | the result is a permutation of the input and is ordered by non-increasing `createdAt` |
| Feed.Take | server/resolvers/post.ts:59 | `LIMIT n` yields a prefix of length `n`, or the whole sequence when it is shorter |
| Feed.Slice | server/resolvers/post.ts:62 | `slice(0, end)` yields a prefix ending `end` entries in, or `-end` entries before the end when `end` is negative |
| Feed.Qualifies | server/resolvers/post.ts:57 | the `WHERE p."createdAt" < $2` test, true for every post when there is no cursor; `Filter` and `PageAdmitted` state what it admits |
| Feed.Query | server/resolvers/post.ts:47-60 | the feed query as meant: filter, order newest first, keep the first `n`; `PageIsPrefix` states the page through it |
| Feed.Ordered | server/resolvers/post.ts:57-58 | the admitted rows newest first; `OrderedMembers`, `OrderedNoDuplicates` and `SortNewestFirst` state its contents and order |
| Feed.Paginate | server/resolvers/post.ts:39-62 | the page for a non-negative `limit`; `PageContract`, `PageIsPrefix`, `SentinelExcluded`, `NoNewerPostSkipped` and `LastPageHoldsRest` state what it promises |
| Feed.PostsQuery | server/resolvers/post.ts:39-62 | the answer for every integer `limit`; `PostsQueryCases` and `PostsQueryPage` state what it promises |
| Feed.PostsQueryCases | server/resolvers/post.ts:39-62 | the query fails exactly when `limit < -1`; `limit = -1` yields an empty page with `hasMore`; a non-negative `limit` yields the page of `Paginate` |
| Feed.PostsQueryPage | server/resolvers/post.ts:39-62 | every answer is newest first and holds only admitted rows; for `limit >= 0` it has at most `min(50, limit)` posts and, without `hasMore`, every admitted row |
| Feed.PageContract | server/resolvers/post.ts:39-62 | a page has at most `min(50, limit)` posts, is newest first, holds only rows the cursor admits, and `hasMore` holds exactly when more rows are admitted than `realLimit` |
| Feed.PageAdmitted | server/resolvers/post.ts:57-62 | every post on a page is a row with `createdAt` below the cursor, when there is one |
| Feed.PageOrdered | server/resolvers/post.ts:58-62 | every page is in non-increasing `createdAt` order |
| Feed.PageIsPrefix | server/resolvers/post.ts:47-62 | the page is the first `realLimit` of the filtered, newest-first rows, and `hasMore` says that rows remain behind them |
| Feed.SentinelExcluded | server/resolvers/post.ts:40-62 | when `hasMore` holds, the page is exactly the first `realLimit` ordered rows and the sentinel row is not on it |
| Feed.NoNewerPostSkipped | server/resolvers/post.ts:57-62 | every admitted row newer than the last post of the page is on the page |
| Feed.LastPageHoldsRest | server/resolvers/post.ts:62 | without `hasMore`, every admitted row is on the page |
| Feed.NextPageIsOlder | server/resolvers/post.ts:43-62 | the page behind the last `createdAt` of a page holds only posts strictly older than every post of that page |
| Feed.OlderPostMeansHasMore | server/resolvers/post.ts:40-62 | an admitted row older than the last post of a non-empty page implies `hasMore` |
| Feed.HasMoreMeansOlderPost | server/resolvers/post.ts:40-62 | with distinct creation times, `hasMore` on a non-empty page implies an admitted row older than its last post |
| Feed.HasMoreIffOlderPostExists | server/resolvers/post.ts:40-62 | with distinct creation times, `hasMore` on a non-empty page holds exactly when an admitted row is older than its last post |
| Feed.TwoPagesCoverNewestPosts | server/resolvers/post.ts:43-62 | with distinct creation times, two consecutive pages together hold every admitted row down to the last post of the second |
| Feed.NewestPostLeadsFirstPage | server/resolvers/post.ts:58-62 | a post strictly newer than every other row is the first post of the first page |
| Feed.FilterWithoutCursor | server/resolvers/post.ts:57 | without a cursor no row is filtered out |
| Feed.OrderedMembers | server/resolvers/post.ts:57-58 | the ordered rows are exactly the admitted rows |
| Feed.OrderedNoDuplicates | server/resolvers/post.ts:57-58 | filtering and ordering a table without duplicates yields no duplicates |
| Feed.OrderedUniqueTimes | server/resolvers/post.ts:57-58 | filtering and ordering keeps creation times distinct |
| Feed.SortKeepsOrderedRows | server/resolvers/post.ts:58 | ordering rows that are already newest first leaves them unchanged |
| Feed.PageOfOrderedRows | server/resolvers/post.ts:47-62 | when the admitted rows are already newest first, the page is their first `realLimit` and `hasMore` says more remain |
| Feed.WalkFirstPage | server/resolvers/post.ts:39-62 | posts at 100, 90, 80, 70 with limit 2 give the first two posts and `hasMore` |
| Feed.WalkSecondPage | server/resolvers/post.ts:39-62 | the same posts behind cursor 90 give the last two posts and no `hasMore` |
| Feed.TiedFirstPage | server/resolvers/post.ts:39-62 | posts at 100, 90, 90 with limit 2 give the first two posts and `hasMore`, without the third |
| Feed.TiedSecondPage | server/resolvers/post.ts:39-62 | the same posts behind cursor 90 give an empty page, so the third post is on no page |
| Store.Scan | server/resolvers/post.ts:55 | the `FROM post` rows in id order; `ScanContents` and `ScanNoDuplicates` state its contents |
| Store.Retitled | server/resolvers/post.ts:96-97 | the post with its title replaced when it has the updated id; `ScanRetitled` and `PageRetitled` state its effect |
| Store.RetitleAll | server/resolvers/post.ts:96-97 | every row retitled, one for one; `RetitleAt` states each entry and `PageRetitled` the effect on pages |
| Store.ScanContents | server/resolvers/post.ts:55 | the table scan holds exactly the posts stored under ids in range, each under its own id |
| Store.ScanNoDuplicates | server/resolvers/post.ts:55 | the table scan holds each post once |
| Store.ScanBelow | server/resolvers/post.ts:78-81 | storing under a fresh id leaves the scan of the older ids unchanged |
| Store.ScanRetitled | server/resolvers/post.ts:96-97 | retitling the stored post retitles exactly that post in the scan |
| Store.FilterRetitled | server/resolvers/post.ts:95-97 | a title change does not change which rows the cursor admits |
| Store.InsertRetitled | server/resolvers/post.ts:95-97 | a title change does not change where a post is inserted |
| Store.SortRetitled | server/resolvers/post.ts:95-97 | a title change does not change the newest-first order |
| Store.PageRetitled | server/resolvers/post.ts:95-97 | after `updatePost` every page holds the same posts in the same order with the same `hasMore`, only retitled |
| Store.CreatedPostHeadsFeed | server/resolvers/post.ts:78-81 | a post created after every other post heads the first page |
| Store.PostStore.constructor | server/resolvers/post.ts:55 | an empty table with the id counter at 1 |
| Store.PostStore.Rows | server/resolvers/post.ts:55 | the table in id order; `RowsAreStored` states that it holds exactly the stored posts, once each |
| Store.PostStore.RowsAreStored | server/resolvers/post.ts:55 | a post is in the table scan exactly when it is stored under its id, and it is there once |
| Store.PostStore.FindPost | server/resolvers/post.ts:64-70 | a post comes back exactly when one is stored under the id, and it is that post |
| Store.PostStore.Posts | server/resolvers/post.ts:32-63 | the answer is `PostsQuery` of the table: an error exactly when `limit < -1`; otherwise newest first, stored posts only, under the cursor, at most `min(50, limit)`, and every admitted post when `hasMore` is false |
| Store.PostStore.CreatePost | server/resolvers/post.ts:71-82 | exactly one post is added, under the next id, with the input's fields and the session user as creator; the table scan gains it at its end |
| Store.PostStore.UpdatePost | server/resolvers/post.ts:83-100 | for an absent id nothing comes back and nothing changes; otherwise only that post's title changes, and the post is returned with the new title |
| Store.PostStore.DeletePost | server/resolvers/post.ts:101-112 | the answer is always `true`; the post is gone when the delete succeeds, and the table is unchanged when it fails |
| Store.PostStore.DeletePostAwaited | server/resolvers/post.ts:106-110 | the answer is `true` exactly when the delete succeeds, and then no post with that id is left |

## Findings

| source | as written | input that shows it | evidently intended | confidence | as-written member | corrected member |
|---|---|---|---|---|---|---|
| server/resolvers/post.ts:106-111 | `Post.delete(id)` is not awaited, so a failed delete rejects a promise outside the `try` and the mutation answers `true` | any `id` whose delete fails in the database | await the delete and answer `false` when it fails, as the `catch` says | not executed; high | Store.PostStore.DeletePost | Store.PostStore.DeletePostAwaited |

## Left out

- The database, the ORM and the SQL text are left out. The table is a map from id to post, and `Filter`, `SortNewestFirst` and `Take` model the query as it is evidently meant.
- The join with the `user` table and the `creator` object it builds are left out. A post carries only its `creatorId`.
- The order of posts with equal `createdAt` is left open by the database. The model fixes it as table (id) order.
- `parseInt` and `new Date(...)` on the cursor become the parameter `parse`. A cursor that does not parse is not modelled.
- Timestamps are whole milliseconds. The database's timestamp precision and time zones are not modelled.
- The clock that sets `createdAt` on insert becomes the parameter `now` of `CreatePost`.
- The failure of the database delete becomes the parameter `deleteFails`. The unhandled promise rejection it causes is not modelled.
- `isAuth`, the session and the request context are left out. The session user is the parameter `userId` of `CreatePost`.
- Nothing checks that the caller of `updatePost` or `deletePost` created the post. The source does no such check either.
- Asynchronous execution and concurrent requests are not modelled. Each operation runs to completion on its own.
- `Store.PostStore.UpdatePost` takes a `string`. A `null` or omitted title is not modelled, because what the ORM writes for it is outside this code. Since `typeof title !== undefined` always holds, a present title is always written.
- `Posts.TextSnippet` counts characters. `slice(0, 100)` counts UTF-16 code units, so a string with surrogate pairs is not modelled.
- Store.PostStore.FindPost: `id` is an `int`. The `id` argument of `post` is declared without `Int`, so GraphQL types it as `Float`, and a fractional id would make the database reject the lookup instead of finding nothing; that failure is not modelled.
- Store.PostStore.UpdatePost: `id` is an `int`; a fractional `Float` id, which the database would reject, is not modelled.
- Store.PostStore.DeletePost: `id` is an `int`; a fractional `Float` id, which the database would reject, is not modelled.
- Store.PostStore.DeletePostAwaited: `id` is an `int`; a fractional `Float` id, which the database would reject, is not modelled.
- `points` is an integer. The schema declares it without `Int`, so GraphQL types it as `Float`; fractional points are not modelled.
- The vote mutation and its tally are not part of this model. Their resolver is not among the core files.
- The client pages and components are presentation only and are left out.
