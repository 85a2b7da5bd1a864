/** The `posts` query of the post resolver: keyset pagination over the post
    table, newest first, with a sentinel row that tells whether more posts exist. */
module Feed {
  import opened Posts

  /** Largest page the resolver hands out, whatever limit the caller asks for. */
  const MaxPageSize: nat := 50

  /** The `PaginatedPosts` object the query returns. */
  datatype PaginatedPosts = PaginatedPosts(posts: seq<Post>, hasMore: bool)

  /** `Math.min(50, limit)`. */
  function RealLimit(limit: int): (r: int)
    ensures r <= MaxPageSize && r <= limit
    ensures r == MaxPageSize || r == limit
  {
    if MaxPageSize < limit then MaxPageSize else limit
  }

  /** The bound the query filters on. The raw argument is `null` or a string, and
      `if (cursor)` treats `null` and the empty string alike as "no cursor".
      `parse` stands for the conversion `new Date(parseInt(cursor))`. */
  function CursorBound(cursor: Option<string>, parse: string -> int): (b: Option<int>)
    ensures b.None? <==> cursor.None? || cursor.value == ""
    ensures b.Some? ==> b.value == parse(cursor.value)
  {
    if cursor.Some? && cursor.value != "" then Some(parse(cursor.value)) else None
  }

  /** The `WHERE p."createdAt" < $2` clause, present only when there is a cursor. */
  predicate Qualifies(p: Post, bound: Option<int>)
  {
    bound.None? || p.createdAt < bound.value
  }

  /** The rows that pass the `WHERE` clause, in table order. */
  function Filter(rows: seq<Post>, bound: Option<int>): (r: seq<Post>)
    ensures forall p :: p in r <==> p in rows && Qualifies(p, bound)
    ensures multiset(r) <= multiset(rows)
  {
    if rows == [] then []
    else
      assert rows == [rows[0]] + rows[1..];
      (if Qualifies(rows[0], bound) then [rows[0]] else []) + Filter(rows[1..], bound)
  }

  /** `ORDER BY p."createdAt" DESC`: no post comes before a newer one. */
  predicate NewestFirst(s: seq<Post>)
  {
    forall i, j :: 0 <= i < j < |s| ==> s[i].createdAt >= s[j].createdAt
  }

  /** No post occurs twice. */
  predicate NoDuplicates(s: seq<Post>)
  {
    forall p :: p in s ==> multiset(s)[p] == 1
  }

  /** No two different posts share a creation time. */
  predicate UniqueTimes(s: seq<Post>)
  {
    forall p, q :: p in s && q in s && p.createdAt == q.createdAt ==> p == q
  }

  /** Places `p` in front of the first post of `s` that is not newer than it. */
  function Insert(p: Post, s: seq<Post>): (r: seq<Post>)
    ensures |r| == |s| + 1
    decreases |s|
  {
    if s == [] || s[0].createdAt <= p.createdAt then [p] + s
    else [s[0]] + Insert(p, s[1..])
  }

  /** Inserting adds exactly `p`: the result is a permutation of `[p] + s`. */
  lemma {:induction false} InsertPermutes(p: Post, s: seq<Post>)
    ensures multiset(Insert(p, s)) == multiset(s) + multiset{p}
    decreases |s|
  {
    if s != [] && s[0].createdAt > p.createdAt {
      InsertPermutes(p, s[1..]);
      assert s == [s[0]] + s[1..];
    }
  }

  lemma InsertMembers(p: Post, s: seq<Post>)
    ensures forall x :: x in Insert(p, s) <==> x == p || x in s
  {
    InsertPermutes(p, s);
    forall x ensures x in Insert(p, s) <==> x == p || x in s {
      assert x in Insert(p, s) <==> x in multiset(Insert(p, s));
    }
  }

  /** Inserting into a newest-first sequence keeps it newest first. */
  lemma {:induction false} InsertKeepsOrder(p: Post, s: seq<Post>)
    requires NewestFirst(s)
    ensures NewestFirst(Insert(p, s))
    decreases |s|
  {
    if s != [] && s[0].createdAt > p.createdAt {
      var t := Insert(p, s[1..]);
      InsertKeepsOrder(p, s[1..]);
      InsertMembers(p, s[1..]);
      var r := Insert(p, s);
      assert r == [s[0]] + t;
      forall i, j | 0 <= i < j < |r| ensures r[i].createdAt >= r[j].createdAt {
        if i > 0 {
          assert r[i] == t[i - 1] && r[j] == t[j - 1];
        } else {
          assert r[j] == t[j - 1];
          assert t[j - 1] in t;
        }
      }
    }
  }

  /** The rows ordered newest first, by insertion. Rows with equal `createdAt`
      keep their table order; SQL leaves that order open. */
  function SortNewestFirst(s: seq<Post>): (r: seq<Post>)
    ensures |r| == |s|
    ensures multiset(r) == multiset(s)
    ensures NewestFirst(r)
  {
    if s == [] then []
    else
      assert s == [s[0]] + s[1..];
      var rest := SortNewestFirst(s[1..]);
      InsertKeepsOrder(s[0], rest);
      InsertPermutes(s[0], rest);
      Insert(s[0], rest)
  }

  /** `LIMIT n`, and equally JavaScript's `slice(0, n)`: the first `n` elements,
      or all of them when there are fewer. */
  function Take(s: seq<Post>, n: nat): (r: seq<Post>)
    ensures r <= s
    ensures |r| == if |s| < n then |s| else n
  {
    if |s| <= n then s else s[..n]
  }

  /** The feed query as the SQL text evidently means it: keep the rows the cursor
      admits, order them newest first, keep the first `n`. */
  function Query(rows: seq<Post>, bound: Option<int>, n: nat): seq<Post>
  {
    Take(SortNewestFirst(Filter(rows, bound)), n)
  }

  /** The rows that make up the feed behind a bound, newest first. */
  function Ordered(rows: seq<Post>, bound: Option<int>): seq<Post>
  {
    SortNewestFirst(Filter(rows, bound))
  }

  /** The resolver's `posts`: fetch `realLimit + 1` rows, hand out the first
      `realLimit`, and report whether the sentinel row came back. */
  function Paginate(rows: seq<Post>, limit: nat, bound: Option<int>): PaginatedPosts
  {
    var realLimit := RealLimit(limit);
    var fetched := Query(rows, bound, realLimit + 1);
    PaginatedPosts(Take(fetched, realLimit), |fetched| == realLimit + 1)
  }

  /** JavaScript's `slice(0, end)`: a negative `end` counts back from the end
      of the array. */
  function Slice(s: seq<Post>, end: int): (r: seq<Post>)
    ensures r <= s
    ensures |r| == if end >= 0 then (if |s| < end then |s| else end)
                   else (if |s| + end < 0 then 0 else |s| + end)
  {
    if end >= 0 then Take(s, end) else s[..if |s| + end < 0 then 0 else |s| + end]
  }

  /** The resolver's `posts` for every integer `limit` the schema admits. A
      `limit` below -1 makes `realLimit + 1` negative, and PostgreSQL rejects a
      negative `LIMIT`. */
  function PostsQuery(rows: seq<Post>, limit: int, bound: Option<int>): Result<PaginatedPosts>
  {
    var realLimit := RealLimit(limit);
    if realLimit + 1 < 0 then Failure("LIMIT must not be negative")
    else
      var fetched := Query(rows, bound, realLimit + 1);
      Ok(PaginatedPosts(Slice(fetched, realLimit), |fetched| == realLimit + 1))
  }

  /** How `PostsQuery` behaves across the range of `limit`: an error below -1; at
      -1 an empty page that nevertheless reports `hasMore`, since `LIMIT 0`
      returns no row and `slice(0, -1)` of nothing is nothing; otherwise the page
      of `Paginate`. */
  lemma PostsQueryCases(rows: seq<Post>, limit: int, bound: Option<int>)
    ensures PostsQuery(rows, limit, bound).Failure? <==> limit < -1
    ensures limit == -1 ==> PostsQuery(rows, limit, bound) == Ok(PaginatedPosts([], true))
    ensures limit >= 0 ==> PostsQuery(rows, limit, bound) == Ok(Paginate(rows, limit, bound))
  {
  }

  /** What every answer of `PostsQuery` satisfies: newest first, every post a
      row the cursor admits; for a non-negative `limit` at most `min(50, limit)`
      posts, and all admitted rows on the page when `hasMore` is false. */
  lemma PostsQueryPage(rows: seq<Post>, limit: int, bound: Option<int>)
    ensures var r := PostsQuery(rows, limit, bound);
            && (r.Ok? && limit >= 0 ==> |r.value.posts| <= MaxPageSize && |r.value.posts| <= limit)
            && (r.Ok? ==> NewestFirst(r.value.posts))
            && (r.Ok? ==> forall p :: p in r.value.posts ==> p in rows && Qualifies(p, bound))
            && (r.Ok? && limit >= 0 && !r.value.hasMore ==>
                  forall p :: p in rows && Qualifies(p, bound) ==> p in r.value.posts)
  {
    PostsQueryCases(rows, limit, bound);
    if limit >= 0 {
      PageContract(rows, limit, bound);
      LastPageHoldsRest(rows, limit, bound);
    }
  }

  /** What every page satisfies: at most `min(50, limit)` posts, newest first,
      each of them a row the cursor admits; `hasMore` exactly when the cursor
      admits more rows than the page may hold. */
  lemma PageContract(rows: seq<Post>, limit: nat, bound: Option<int>)
    ensures var page := Paginate(rows, limit, bound);
            && |page.posts| <= RealLimit(limit) <= MaxPageSize
            && |page.posts| <= limit
            && (page.hasMore <==> |Filter(rows, bound)| > RealLimit(limit))
            && NewestFirst(page.posts)
            && forall p :: p in page.posts ==> p in rows && Qualifies(p, bound)
  {
    PageIsPrefix(rows, limit, bound);
    PageAdmitted(rows, limit, bound);
    PageOrdered(rows, limit, bound);
  }

  /** Every post on a page is a row the bound admits. */
  lemma PageAdmitted(rows: seq<Post>, limit: nat, bound: Option<int>)
    ensures forall p :: p in Paginate(rows, limit, bound).posts ==> p in rows && Qualifies(p, bound)
  {
    PageIsPrefix(rows, limit, bound);
    OrderedMembers(rows, bound);
    TakeMembers(Ordered(rows, bound), RealLimit(limit));
  }

  /** A page is newest first. */
  lemma PageOrdered(rows: seq<Post>, limit: nat, bound: Option<int>)
    ensures NewestFirst(Paginate(rows, limit, bound).posts)
  {
    PageIsPrefix(rows, limit, bound);
    TakeKeepsOrder(Ordered(rows, bound), RealLimit(limit));
  }

  /** A prefix holds only entries of the sequence. */
  lemma TakeMembers(s: seq<Post>, n: nat)
    ensures forall p :: p in Take(s, n) ==> p in s
  {
    var t := Take(s, n);
    forall p | p in t ensures p in s {
      var i :| 0 <= i < |t| && t[i] == p;
      assert s[i] == p;
    }
  }

  /** A prefix of a newest-first sequence is newest first. */
  lemma TakeKeepsOrder(s: seq<Post>, n: nat)
    requires NewestFirst(s)
    ensures NewestFirst(Take(s, n))
  {
    var t := Take(s, n);
    assert forall i :: 0 <= i < |t| ==> t[i] == s[i];
  }

  function Last(s: seq<Post>): Post
    requires s != []
  {
    s[|s| - 1]
  }

  /** Two positions of a sequence without duplicates hold different posts. */
  lemma DistinctEntries(s: seq<Post>, i: int, j: int)
    requires NoDuplicates(s)
    requires 0 <= i < j < |s|
    ensures s[i] != s[j]
  {
    assert s == s[..j] + s[j..];
    assert multiset(s) == multiset(s[..j]) + multiset(s[j..]);
    assert s[i] in multiset(s[..j]);
    assert s[j..][0] == s[j];
    assert s[j] in multiset(s[j..]);
    assert s[j] in s;
  }

  /** In a newest-first sequence, everything newer than position `n - 1` sits
      before it. */
  lemma PrefixHoldsNewer(s: seq<Post>, n: nat)
    requires NewestFirst(s)
    requires 0 < n <= |s|
    ensures forall p :: p in s && p.createdAt > s[n - 1].createdAt ==> p in s[..n]
  {
    forall p | p in s && p.createdAt > s[n - 1].createdAt ensures p in s[..n] {
      var i :| 0 <= i < |s| && s[i] == p;
      assert i < n ==> s[..n][i] == p;
    }
  }

  /** Sorting rows that are already newest first leaves them as they are. */
  lemma {:induction false} SortKeepsOrderedRows(s: seq<Post>)
    requires NewestFirst(s)
    ensures SortNewestFirst(s) == s
  {
    if s != [] {
      SortKeepsOrderedRows(s[1..]);
      assert s == [s[0]] + s[1..];
    }
  }

  /** The last post of a newest-first sequence is its oldest. */
  lemma LastIsOldest(s: seq<Post>)
    requires NewestFirst(s) && s != []
    ensures forall i :: 0 <= i < |s| ==> s[i].createdAt >= Last(s).createdAt
  {
  }

  /** In a newest-first sequence, a post older than position `n - 1` sits behind it. */
  lemma OlderComesAfter(s: seq<Post>, n: nat)
    requires NewestFirst(s)
    requires 0 < n <= |s|
    ensures forall p :: p in s && p.createdAt < s[n - 1].createdAt ==> p in s[n..]
  {
    forall p | p in s && p.createdAt < s[n - 1].createdAt ensures p in s[n..] {
      var i :| 0 <= i < |s| && s[i] == p;
      assert i >= n ==> s[n..][i - n] == p;
    }
  }

  /** Without a cursor no row is filtered out. */
  lemma {:induction false} FilterWithoutCursor(rows: seq<Post>)
    ensures Filter(rows, None) == rows
  {
    if rows != [] {
      FilterWithoutCursor(rows[1..]);
      assert rows == [rows[0]] + rows[1..];
    }
  }

  /** The ordered rows are exactly the rows the bound admits. */
  lemma OrderedMembers(rows: seq<Post>, bound: Option<int>)
    ensures forall p :: p in Ordered(rows, bound) <==> p in rows && Qualifies(p, bound)
  {
    var s := Ordered(rows, bound);
    forall p ensures p in s <==> p in rows && Qualifies(p, bound) {
      assert p in s <==> p in multiset(s);
      assert p in Filter(rows, bound) <==> p in multiset(Filter(rows, bound));
    }
  }

  /** Filtering and ordering introduce no duplicates. */
  lemma OrderedNoDuplicates(rows: seq<Post>, bound: Option<int>)
    requires NoDuplicates(rows)
    ensures NoDuplicates(Ordered(rows, bound))
  {
    var s := Ordered(rows, bound);
    forall p | p in s ensures multiset(s)[p] == 1 {
      assert multiset(s)[p] == multiset(Filter(rows, bound))[p];
      assert p in multiset(s);
      OrderedMembers(rows, bound);
      assert p in rows;
    }
  }

  /** The page is a prefix of the admitted rows in newest-first order, as long as
      the page size or that whole list, whichever is shorter; `hasMore` says that
      the ordered rows go on behind it. */
  lemma PageIsPrefix(rows: seq<Post>, limit: nat, bound: Option<int>)
    ensures var page := Paginate(rows, limit, bound);
            var s := Ordered(rows, bound);
            && page.posts == Take(s, RealLimit(limit))
            && (page.hasMore <==> |s| > RealLimit(limit))
  {
  }

  /** When `hasMore` holds, the page is exactly the first `realLimit` ordered rows
      and the sentinel row behind them is not on it. */
  lemma SentinelExcluded(rows: seq<Post>, limit: nat, bound: Option<int>)
    requires NoDuplicates(rows)
    ensures var page := Paginate(rows, limit, bound);
            var s := Ordered(rows, bound);
            page.hasMore ==>
              && |s| > RealLimit(limit)
              && page.posts == s[..RealLimit(limit)]
              && s[RealLimit(limit)] !in page.posts
  {
    var page := Paginate(rows, limit, bound);
    var s := Ordered(rows, bound);
    var k := RealLimit(limit);
    PageIsPrefix(rows, limit, bound);
    if page.hasMore {
      OrderedNoDuplicates(rows, bound);
      if s[k] in page.posts {
        var i :| 0 <= i < k && page.posts[i] == s[k];
        DistinctEntries(s, i, k);
      }
    }
  }

  /** No admitted post newer than the last one on the page is left off it. */
  lemma NoNewerPostSkipped(rows: seq<Post>, limit: nat, bound: Option<int>)
    ensures var page := Paginate(rows, limit, bound);
            forall p ::
              (p in rows && Qualifies(p, bound) && page.posts != [] &&
               p.createdAt > Last(page.posts).createdAt) ==> p in page.posts
  {
    var page := Paginate(rows, limit, bound);
    var s := Ordered(rows, bound);
    var n := |page.posts|;
    PageIsPrefix(rows, limit, bound);
    OrderedMembers(rows, bound);
    if n > 0 {
      assert page.posts == s[..n];
      PrefixHoldsNewer(s, n);
    }
  }

  /** When `hasMore` is false, every admitted post is on the page. */
  lemma LastPageHoldsRest(rows: seq<Post>, limit: nat, bound: Option<int>)
    ensures var page := Paginate(rows, limit, bound);
            !page.hasMore ==> forall p :: p in rows && Qualifies(p, bound) ==> p in page.posts
  {
    PageIsPrefix(rows, limit, bound);
    OrderedMembers(rows, bound);
  }

  /** Keyset step: asking for the next page with the last `createdAt` as cursor
      yields only posts strictly older than every post on the previous page. */
  lemma NextPageIsOlder(rows: seq<Post>, limit: nat, bound: Option<int>, nextLimit: nat)
    requires Paginate(rows, limit, bound).posts != []
    ensures var prev := Paginate(rows, limit, bound).posts;
            var next := Paginate(rows, nextLimit, Some(Last(prev).createdAt)).posts;
            forall i, j :: 0 <= i < |prev| && 0 <= j < |next| ==> next[j].createdAt < prev[i].createdAt
  {
    var prev := Paginate(rows, limit, bound).posts;
    var next := Paginate(rows, nextLimit, Some(Last(prev).createdAt)).posts;
    PageOrdered(rows, limit, bound);
    PageAdmitted(rows, nextLimit, Some(Last(prev).createdAt));
    AllOlderThanPage(prev, next);
  }

  /** Every post of `next` being older than the last of the newest-first `prev`
      makes it older than each post of `prev`. */
  lemma AllOlderThanPage(prev: seq<Post>, next: seq<Post>)
    requires NewestFirst(prev) && prev != []
    requires forall q :: q in next ==> q.createdAt < Last(prev).createdAt
    ensures forall i, j :: 0 <= i < |prev| && 0 <= j < |next| ==> next[j].createdAt < prev[i].createdAt
  {
    forall i, j | 0 <= i < |prev| && 0 <= j < |next|
      ensures next[j].createdAt < prev[i].createdAt
    {
      assert next[j] in next;
      LastIsOldest(prev);
    }
  }

  /** An admitted post older than the last one on a non-empty page means the
      sentinel row came back. */
  lemma OlderPostMeansHasMore(rows: seq<Post>, limit: nat, bound: Option<int>, q: Post)
    requires Paginate(rows, limit, bound).posts != []
    requires q in rows && Qualifies(q, bound)
    requires q.createdAt < Last(Paginate(rows, limit, bound).posts).createdAt
    ensures Paginate(rows, limit, bound).hasMore
  {
    PageIsPrefix(rows, limit, bound);
    OrderedMembers(rows, bound);
    OlderMeansLonger(Ordered(rows, bound), RealLimit(limit), q);
  }

  /** If a post of a newest-first sequence is older than the last of its first
      `k` entries, the sequence is longer than `k`. */
  lemma OlderMeansLonger(s: seq<Post>, k: nat, q: Post)
    requires NewestFirst(s) && Take(s, k) != []
    requires q in s && q.createdAt < Last(Take(s, k)).createdAt
    ensures |s| > k
  {
    var n := |Take(s, k)|;
    OlderComesAfter(s, n);
    assert q in s[n..];
  }

  /** With distinct creation times, the sentinel row is strictly older than the
      last post on the page. */
  lemma HasMoreMeansOlderPost(rows: seq<Post>, limit: nat, bound: Option<int>)
    requires NoDuplicates(rows) && UniqueTimes(rows)
    requires Paginate(rows, limit, bound).posts != []
    requires Paginate(rows, limit, bound).hasMore
    ensures var page := Paginate(rows, limit, bound);
            exists q :: q in rows && Qualifies(q, bound) && q.createdAt < Last(page.posts).createdAt
  {
    var s := Ordered(rows, bound);
    var k := RealLimit(limit);
    PageIsPrefix(rows, limit, bound);
    OrderedNoDuplicates(rows, bound);
    OrderedUniqueTimes(rows, bound);
    SentinelIsOlder(s, k);
    assert s[k] in s;
    OrderedMembers(rows, bound);
  }

  /** In a newest-first sequence without duplicates or shared creation times,
      the entry after the first `k` is strictly older than the last of them. */
  lemma SentinelIsOlder(s: seq<Post>, k: nat)
    requires NewestFirst(s) && NoDuplicates(s) && UniqueTimes(s)
    requires Take(s, k) != [] && |s| > k
    ensures s[k].createdAt < Last(Take(s, k)).createdAt
  {
    assert Last(Take(s, k)) == s[k - 1];
    DistinctEntries(s, k - 1, k);
    assert s[k] in s && s[k - 1] in s;
  }

  /** Filtering and ordering keep creation times distinct. */
  lemma OrderedUniqueTimes(rows: seq<Post>, bound: Option<int>)
    requires UniqueTimes(rows)
    ensures UniqueTimes(Ordered(rows, bound))
  {
    OrderedMembers(rows, bound);
  }

  /** With distinct creation times, `hasMore` on a non-empty page holds exactly
      when some admitted post is strictly older than the last one on the page. */
  lemma HasMoreIffOlderPostExists(rows: seq<Post>, limit: nat, bound: Option<int>)
    requires NoDuplicates(rows) && UniqueTimes(rows)
    requires Paginate(rows, limit, bound).posts != []
    ensures var page := Paginate(rows, limit, bound);
            page.hasMore <==>
              exists q :: q in rows && Qualifies(q, bound) && q.createdAt < Last(page.posts).createdAt
  {
    var page := Paginate(rows, limit, bound);
    if page.hasMore {
      HasMoreMeansOlderPost(rows, limit, bound);
    }
    if exists q :: q in rows && Qualifies(q, bound) && q.createdAt < Last(page.posts).createdAt {
      var q :| q in rows && Qualifies(q, bound) && q.createdAt < Last(page.posts).createdAt;
      OlderPostMeansHasMore(rows, limit, bound, q);
    }
  }

  /** With distinct creation times, keyset pagination skips nothing: every post
      admitted by the first page's bound that is not older than the last post of
      the following page lies on one of the two pages. */
  lemma TwoPagesCoverNewestPosts(rows: seq<Post>, limit: nat, bound: Option<int>, nextLimit: nat)
    requires UniqueTimes(rows)
    requires Paginate(rows, limit, bound).posts != []
    requires Paginate(rows, nextLimit, Some(Last(Paginate(rows, limit, bound).posts).createdAt)).posts != []
    ensures var prev := Paginate(rows, limit, bound).posts;
            var next := Paginate(rows, nextLimit, Some(Last(prev).createdAt)).posts;
            forall q :: q in rows && Qualifies(q, bound) && q.createdAt >= Last(next).createdAt ==>
                          q in prev || q in next
  {
    var prev := Paginate(rows, limit, bound).posts;
    var nextBound := Some(Last(prev).createdAt);
    NoNewerPostSkipped(rows, limit, bound);
    NoNewerPostSkipped(rows, nextLimit, nextBound);
    PageAdmitted(rows, limit, bound);
    PageAdmitted(rows, nextLimit, nextBound);
    CoverUpToLast(rows, bound, prev, Paginate(rows, nextLimit, nextBound).posts);
  }

  /** Two consecutive runs of rows, each holding every admitted row newer than
      its last one, hold every admitted row down to the last of the second. */
  lemma CoverUpToLast(rows: seq<Post>, bound: Option<int>, prev: seq<Post>, next: seq<Post>)
    requires UniqueTimes(rows) && prev != [] && next != []
    requires Last(prev) in rows && Last(next) in rows
    requires forall p ::
               (p in rows && Qualifies(p, bound) && prev != [] &&
                p.createdAt > Last(prev).createdAt) ==> p in prev
    requires forall p ::
               (p in rows && Qualifies(p, Some(Last(prev).createdAt)) && next != [] &&
                p.createdAt > Last(next).createdAt) ==> p in next
    ensures forall q :: q in rows && Qualifies(q, bound) && q.createdAt >= Last(next).createdAt ==>
                          q in prev || q in next
  {
    forall q | q in rows && Qualifies(q, bound) && q.createdAt >= Last(next).createdAt
      ensures q in prev || q in next
    {
      if q.createdAt == Last(prev).createdAt {
        assert q == Last(prev);
      } else if q.createdAt == Last(next).createdAt {
        assert q == Last(next);
      } else if q.createdAt < Last(prev).createdAt {
        assert Qualifies(q, Some(Last(prev).createdAt));
      }
    }
  }

  /** A post strictly newer than every other row heads the first page. */
  lemma NewestPostLeadsFirstPage(rows: seq<Post>, limit: nat, p: Post)
    requires p in rows && limit >= 1
    requires forall q :: q in rows && q != p ==> q.createdAt < p.createdAt
    ensures Paginate(rows, limit, None).posts != []
    ensures Paginate(rows, limit, None).posts[0] == p
  {
    var s := Ordered(rows, None);
    PageIsPrefix(rows, limit, None);
    OrderedMembers(rows, None);
    var i :| 0 <= i < |s| && s[i] == p;
    assert s[0] in rows;
    assert i == 0 || s[0].createdAt >= s[i].createdAt;
  }

  /** When the admitted rows are already newest first in table order, a page
      is simply the first rows of the table that the cursor admits. */
  lemma PageOfOrderedRows(rows: seq<Post>, limit: nat, bound: Option<int>)
    requires NewestFirst(Filter(rows, bound))
    ensures var admitted := Filter(rows, bound);
            Paginate(rows, limit, bound) ==
              PaginatedPosts(Take(admitted, RealLimit(limit)), |admitted| > RealLimit(limit))
  {
    var admitted := Filter(rows, bound);
    SortKeepsOrderedRows(admitted);
    var k := RealLimit(limit);
    assert Take(Take(admitted, k + 1), k) == Take(admitted, k);
  }

  lemma WalkRowsOrdered(rows: seq<Post>)
    requires |rows| == 4
    requires rows[0].createdAt == 100 && rows[1].createdAt == 90
    requires rows[2].createdAt == 80 && rows[3].createdAt == 70
    ensures NewestFirst(rows)
  {
  }

  /** Four posts created at 100, 90, 80 and 70, pages of two: the first page
      holds the posts at 100 and 90 and reports more ... */
  lemma WalkFirstPage(rows: seq<Post>)
    requires |rows| == 4
    requires rows[0].createdAt == 100 && rows[1].createdAt == 90
    requires rows[2].createdAt == 80 && rows[3].createdAt == 70
    ensures Paginate(rows, 2, None) == PaginatedPosts(rows[..2], true)
  {
    WalkRowsOrdered(rows);
    FilterWithoutCursor(rows);
    PageOfOrderedRows(rows, 2, None);
  }

  /** Cursor 90 admits the posts at 80 and 70. */
  lemma WalkSecondFilter(rows: seq<Post>)
    requires |rows| == 4
    requires rows[0].createdAt == 100 && rows[1].createdAt == 90
    requires rows[2].createdAt == 80 && rows[3].createdAt == 70
    ensures Filter(rows, Some(90)) == rows[2..]
  {
    assert Filter(rows[3..], Some(90)) == rows[3..] by {
      assert rows[3..][1..] == [];
    }
    assert Filter(rows[2..], Some(90)) == rows[2..] by {
      assert rows[2..][1..] == rows[3..];
    }
    assert Filter(rows[1..], Some(90)) == rows[2..] by {
      assert rows[1..][1..] == rows[2..];
    }
  }

  /** ... and the page behind cursor 90 holds the posts at 80 and 70 and reports
      no more. */
  lemma WalkSecondPage(rows: seq<Post>)
    requires |rows| == 4
    requires rows[0].createdAt == 100 && rows[1].createdAt == 90
    requires rows[2].createdAt == 80 && rows[3].createdAt == 70
    ensures Paginate(rows, 2, Some(90)) == PaginatedPosts(rows[2..], false)
  {
    WalkSecondFilter(rows);
    assert NewestFirst(rows[2..]);
    PageOfOrderedRows(rows, 2, Some(90));
  }

  /** Keyset pagination on `createdAt` alone loses a post that shares its
      creation time with the last post of a page: with posts created at 100, 90
      and 90 and pages of two, the first page ends with the first post at 90 and
      reports more ... */
  lemma TiedFirstPage(rows: seq<Post>)
    requires |rows| == 3 && rows[0] != rows[2] && rows[1] != rows[2]
    requires rows[0].createdAt == 100 && rows[1].createdAt == 90 && rows[2].createdAt == 90
    ensures Paginate(rows, 2, None) == PaginatedPosts(rows[..2], true)
    ensures rows[2] !in Paginate(rows, 2, None).posts
  {
    SortKeepsOrderedRows(rows);
    FilterWithoutCursor(rows);
    assert Take(rows, 3) == rows;
  }

  /** ... yet the page behind cursor 90 is empty, so the second post at 90 is on
      neither page. */
  lemma TiedSecondPage(rows: seq<Post>)
    requires |rows| == 3
    requires rows[0].createdAt == 100 && rows[1].createdAt == 90 && rows[2].createdAt == 90
    ensures Paginate(rows, 2, Some(90)) == PaginatedPosts([], false)
  {
    assert Filter(rows, Some(90)) == [] by {
      assert Filter(rows[2..], Some(90)) == [] by {
        assert rows[2..][1..] == [];
      }
      assert Filter(rows[1..], Some(90)) == [] by {
        assert rows[1..][1..] == rows[2..];
      }
    }
  }
}
