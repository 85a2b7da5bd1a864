/** The post table and the resolver operations that read and change it:
    `post`, `posts`, `createPost`, `updatePost` and `deletePost`. */
module Store {
  import opened Posts
  import opened Feed

  /** Every post is stored under its own id. */
  predicate KeyedById(m: map<int, Post>)
  {
    forall k :: k in m ==> m[k].id == k
  }

  /** The table's rows in id order: the posts of `m` stored under ids 0 .. n - 1. */
  function Scan(m: map<int, Post>, n: int): seq<Post>
    decreases n
  {
    if n <= 0 then [] else Scan(m, n - 1) + (if n - 1 in m then [m[n - 1]] else [])
  }

  /** The scan below `n` holds exactly the posts stored under ids below `n`. */
  lemma {:induction false} ScanContents(m: map<int, Post>, n: int)
    requires KeyedById(m)
    ensures forall k :: 0 <= k < n && k in m ==> m[k] in Scan(m, n)
    ensures forall p :: p in Scan(m, n) ==> 0 <= p.id < n && p.id in m && m[p.id] == p
    decreases n
  {
    if n > 0 {
      ScanContents(m, n - 1);
    }
  }

  /** A table scan holds each post once. */
  lemma {:induction false} ScanNoDuplicates(m: map<int, Post>, n: int)
    requires KeyedById(m)
    ensures NoDuplicates(Scan(m, n))
    decreases n
  {
    if n > 0 {
      ScanNoDuplicates(m, n - 1);
      ScanContents(m, n - 1);
      var prev := Scan(m, n - 1);
      if n - 1 in m {
        var r := Scan(m, n);
        assert r == prev + [m[n - 1]];
        assert m[n - 1] !in prev;
        forall p | p in r ensures multiset(r)[p] == 1 {
          assert multiset(r)[p] == multiset(prev)[p] + multiset([m[n - 1]])[p];
        }
      }
    }
  }

  /** Storing under an id at or beyond `n` does not change the scan below `n`. */
  lemma {:induction false} ScanBelow(m: map<int, Post>, n: int, k: int, p: Post)
    requires n <= k
    ensures Scan(m[k := p], n) == Scan(m, n)
    decreases n
  {
    if n > 0 {
      ScanBelow(m, n - 1, k, p);
    }
  }

  /** The post `p` with its title replaced when its id is `id`. */
  function Retitled(p: Post, id: int, title: string): Post
  {
    if p.id == id then p.(title := title) else p
  }

  /** `Retitled` applied to every row. */
  function RetitleAll(s: seq<Post>, id: int, title: string): (r: seq<Post>)
    ensures |r| == |s|
  {
    if s == [] then [] else [Retitled(s[0], id, title)] + RetitleAll(s[1..], id, title)
  }

  /** Entry `i` of the retitled sequence is entry `i` retitled. */
  lemma {:induction false} RetitleAt(s: seq<Post>, id: int, title: string)
    ensures forall i :: 0 <= i < |s| ==> RetitleAll(s, id, title)[i] == Retitled(s[i], id, title)
  {
    if s != [] {
      RetitleAt(s[1..], id, title);
      var r := RetitleAll(s, id, title);
      forall i | 0 <= i < |s| ensures r[i] == Retitled(s[i], id, title) {
        if i > 0 {
          assert r[i] == RetitleAll(s[1..], id, title)[i - 1];
          assert s[i] == s[1..][i - 1];
        }
      }
    }
  }

  /** Retitling distributes over concatenation. */
  lemma {:induction false} RetitleConcat(a: seq<Post>, b: seq<Post>, id: int, title: string)
    ensures RetitleAll(a + b, id, title) == RetitleAll(a, id, title) + RetitleAll(b, id, title)
  {
    var l := RetitleAll(a + b, id, title);
    var ra := RetitleAll(a, id, title);
    var rb := RetitleAll(b, id, title);
    RetitleAt(a + b, id, title);
    RetitleAt(a, id, title);
    RetitleAt(b, id, title);
    forall i | 0 <= i < |l| ensures l[i] == (ra + rb)[i] {
      if i < |a| {
        assert (a + b)[i] == a[i] && (ra + rb)[i] == ra[i];
      } else {
        assert (a + b)[i] == b[i - |a|] && (ra + rb)[i] == rb[i - |a|];
      }
    }
  }

  /** Without a post of that id, retitling changes nothing. */
  lemma RetitleAbsent(s: seq<Post>, id: int, title: string)
    requires forall p :: p in s ==> p.id != id
    ensures RetitleAll(s, id, title) == s
  {
    var r := RetitleAll(s, id, title);
    RetitleAt(s, id, title);
    forall i | 0 <= i < |s| ensures r[i] == s[i] {
      assert s[i] in s;
    }
  }

  /** Retitling the post stored under `id` retitles it in the scan. */
  lemma {:induction false} ScanRetitled(m: map<int, Post>, n: int, id: int, title: string)
    requires KeyedById(m) && id in m
    ensures Scan(m[id := m[id].(title := title)], n) == RetitleAll(Scan(m, n), id, title)
    decreases n
  {
    if n > 0 {
      ScanRetitled(m, n - 1, id, title);
      var m' := m[id := m[id].(title := title)];
      var prev := Scan(m, n - 1);
      var tail := if n - 1 in m then [m[n - 1]] else [];
      var tail' := if n - 1 in m' then [m'[n - 1]] else [];
      assert Scan(m', n) == Scan(m', n - 1) + tail';
      assert tail' == RetitleAll(tail, id, title) by {
        assert n - 1 in m' <==> n - 1 in m;
        assert n - 1 in m ==> m'[n - 1] == Retitled(m[n - 1], id, title);
      }
      RetitleConcat(prev, tail, id, title);
      assert Scan(m', n - 1) == RetitleAll(prev, id, title);
      calc {
        Scan(m', n);
        Scan(m', n - 1) + tail';
        RetitleAll(prev, id, title) + RetitleAll(tail, id, title);
        RetitleAll(prev + tail, id, title);
        { assert Scan(m, n) == prev + tail; }
        RetitleAll(Scan(m, n), id, title);
      }
    }
  }

  /** A title is not part of what the feed filters or orders on. */
  lemma {:induction false} FilterRetitled(s: seq<Post>, bound: Option<int>, id: int, title: string)
    ensures Filter(RetitleAll(s, id, title), bound) == RetitleAll(Filter(s, bound), id, title)
  {
    if s != [] {
      var x := Retitled(s[0], id, title);
      var t := RetitleAll(s[1..], id, title);
      var head := if Qualifies(s[0], bound) then [s[0]] else [];
      FilterRetitled(s[1..], bound, id, title);
      RetitleCons(s, id, title);
      assert Filter([x] + t, bound) == (if Qualifies(x, bound) then [x] else []) + Filter(t, bound) by {
        FilterHead([x] + t, bound);
        assert ([x] + t)[0] == x && ([x] + t)[1..] == t;
      }
      FilterHead(s, bound);
      RetitleHead(s[0], bound, id, title);
      RetitleConcat(head, Filter(s[1..], bound), id, title);
    }
  }

  /** One step of `RetitleAll`. */
  lemma RetitleCons(s: seq<Post>, id: int, title: string)
    requires s != []
    ensures RetitleAll(s, id, title) == [Retitled(s[0], id, title)] + RetitleAll(s[1..], id, title)
  {
  }

  /** Retitling does not change whether a bound admits a post. */
  lemma RetitleHead(p: Post, bound: Option<int>, id: int, title: string)
    ensures var x := Retitled(p, id, title);
            RetitleAll(if Qualifies(p, bound) then [p] else [], id, title)
              == if Qualifies(x, bound) then [x] else []
  {
    assert RetitleAll([p], id, title) == [Retitled(p, id, title)];
  }

  /** `Filter` on a non-empty sequence, split at its head. */
  lemma FilterHead(s: seq<Post>, bound: Option<int>)
    requires s != []
    ensures Filter(s, bound) == (if Qualifies(s[0], bound) then [s[0]] else []) + Filter(s[1..], bound)
  {
  }

  lemma {:induction false} InsertRetitled(p: Post, s: seq<Post>, id: int, title: string)
    ensures Insert(Retitled(p, id, title), RetitleAll(s, id, title)) == RetitleAll(Insert(p, s), id, title)
    decreases |s|
  {
    if s != [] && s[0].createdAt > p.createdAt {
      InsertRetitled(p, s[1..], id, title);
      InsertRetitledStep(p, s, id, title);
    } else {
      RetitleCons([p] + s, id, title);
      assert ([p] + s)[0] == p && ([p] + s)[1..] == s;
    }
  }

  /** The inductive step of `InsertRetitled`: past a strictly newer head. */
  lemma InsertRetitledStep(p: Post, s: seq<Post>, id: int, title: string)
    requires s != [] && s[0].createdAt > p.createdAt
    requires Insert(Retitled(p, id, title), RetitleAll(s[1..], id, title))
               == RetitleAll(Insert(p, s[1..]), id, title)
    ensures Insert(Retitled(p, id, title), RetitleAll(s, id, title)) == RetitleAll(Insert(p, s), id, title)
  {
    var x := Retitled(p, id, title);
    var y := Retitled(s[0], id, title);
    var t := RetitleAll(s[1..], id, title);
    calc {
      Insert(x, RetitleAll(s, id, title));
      { RetitleCons(s, id, title); }
      Insert(x, [y] + t);
      { InsertStep(x, [y] + t); assert ([y] + t)[0] == y && ([y] + t)[1..] == t; }
      [y] + Insert(x, t);
      [y] + RetitleAll(Insert(p, s[1..]), id, title);
      { var u := [s[0]] + Insert(p, s[1..]);
        RetitleCons(u, id, title);
        assert u[0] == s[0] && u[1..] == Insert(p, s[1..]); }
      RetitleAll([s[0]] + Insert(p, s[1..]), id, title);
      { InsertStep(p, s); }
      RetitleAll(Insert(p, s), id, title);
    }
  }

  /** One step of `Insert` past a strictly newer head. */
  lemma InsertStep(p: Post, s: seq<Post>)
    requires s != [] && s[0].createdAt > p.createdAt
    ensures Insert(p, s) == [s[0]] + Insert(p, s[1..])
  {
  }

  lemma {:induction false} SortRetitled(s: seq<Post>, id: int, title: string)
    ensures SortNewestFirst(RetitleAll(s, id, title)) == RetitleAll(SortNewestFirst(s), id, title)
  {
    if s != [] {
      SortRetitled(s[1..], id, title);
      RetitleCons(s, id, title);
      InsertRetitled(s[0], SortNewestFirst(s[1..]), id, title);
    }
  }

  lemma TakeRetitled(s: seq<Post>, n: nat, id: int, title: string)
    ensures Take(RetitleAll(s, id, title), n) == RetitleAll(Take(s, n), id, title)
  {
    RetitleAt(s, id, title);
    RetitleAt(Take(s, n), id, title);
  }

  /** Retitling a post changes no page beyond that post's title: the same posts
      in the same order, and the same `hasMore`. */
  lemma PageRetitled(rows: seq<Post>, limit: nat, bound: Option<int>, id: int, title: string)
    ensures var page := Paginate(rows, limit, bound);
            Paginate(RetitleAll(rows, id, title), limit, bound) ==
              PaginatedPosts(RetitleAll(page.posts, id, title), page.hasMore)
  {
    var k := RealLimit(limit);
    var s := Ordered(rows, bound);
    FilterRetitled(rows, bound, id, title);
    SortRetitled(Filter(rows, bound), id, title);
    assert Ordered(RetitleAll(rows, id, title), bound) == RetitleAll(s, id, title);
    PageIsPrefix(rows, limit, bound);
    PageIsPrefix(RetitleAll(rows, id, title), limit, bound);
    TakeRetitled(s, k, id, title);
  }

  /** A post created after every other post heads the first page. */
  lemma CreatedPostHeadsFeed(rows: seq<Post>, p: Post, limit: nat)
    requires limit >= 1
    requires forall q :: q in rows ==> q.createdAt < p.createdAt
    ensures Paginate(rows + [p], limit, None).posts != []
    ensures Paginate(rows + [p], limit, None).posts[0] == p
  {
    NewestPostLeadsFirstPage(rows + [p], limit, p);
  }

  /** The data behind the resolver: the `post` table. */
  class PostStore {
    /** The rows of the table, by id. */
    var byId: map<int, Post>
    /** The next value of the table's serial id column. */
    var nextId: int

    ghost predicate Valid()
      reads this
    {
      && 1 <= nextId
      && KeyedById(byId)
      && forall id :: id in byId ==> 1 <= id < nextId
    }

    /** The table in id order. */
    function Rows(): seq<Post>
      reads this
    {
      Scan(byId, nextId)
    }

    /** An empty table. */
    constructor ()
      ensures Valid()
      ensures byId == map[] && nextId == 1
    {
      byId := map[];
      nextId := 1;
    }

    /** The table scan holds exactly the stored posts, each once. */
    lemma RowsAreStored()
      requires Valid()
      ensures forall p :: p in Rows() <==> p.id in byId && byId[p.id] == p
      ensures NoDuplicates(Rows())
    {
      ScanContents(byId, nextId);
      ScanNoDuplicates(byId, nextId);
    }

    /** `post(id)`: the post stored under `id`, if any. */
    method FindPost(id: int) returns (r: Option<Post>)
      requires Valid()
      ensures r.Some? <==> id in byId
      ensures r.Some? ==> r.value == byId[id] && r.value.id == id
    {
      if id in byId {
        r := Some(byId[id]);
      } else {
        r := None;
      }
    }

    /** `posts(limit, cursor)`: one page of the feed, newest first. `parse` stands
        for the conversion of the cursor string into a timestamp. */
    method Posts(limit: int, cursor: Option<string>, parse: string -> int)
        returns (r: Result<PaginatedPosts>)
      requires Valid()
      ensures r == PostsQuery(Rows(), limit, CursorBound(cursor, parse))
      ensures r.Failure? <==> limit < -1
      ensures limit == -1 ==> r == Ok(PaginatedPosts([], true))
      ensures limit >= 0 ==> r.Ok? && r.value == Paginate(Rows(), limit, CursorBound(cursor, parse))
      ensures r.Ok? && limit >= 0 ==>
                |r.value.posts| <= MaxPageSize && |r.value.posts| <= limit
      ensures r.Ok? ==> NewestFirst(r.value.posts)
      ensures r.Ok? ==> forall p :: p in r.value.posts ==>
                p.id in byId && byId[p.id] == p && Qualifies(p, CursorBound(cursor, parse))
      ensures r.Ok? && limit >= 0 && !r.value.hasMore ==>
                forall id :: id in byId && Qualifies(byId[id], CursorBound(cursor, parse)) ==>
                  byId[id] in r.value.posts
    {
      var realLimit := RealLimit(limit);
      var realLimitPlusOne := realLimit + 1;
      // The query's parameters: `$1` is the row count, `$2` the cursor's time.
      var replacements: seq<int> := [realLimitPlusOne];
      if cursor.Some? && cursor.value != "" {
        replacements := replacements + [parse(cursor.value)];
      }
      var bound := if |replacements| == 2 then Some(replacements[1]) else None;
      assert bound == CursorBound(cursor, parse);
      PostsQueryCases(Rows(), limit, bound);
      if realLimitPlusOne < 0 {
        return Failure("LIMIT must not be negative");
      }
      var fetched := Query(Rows(), bound, realLimitPlusOne);
      r := Ok(PaginatedPosts(Slice(fetched, realLimit), |fetched| == realLimitPlusOne));
      assert r == PostsQuery(Rows(), limit, bound);
      PostsQueryPage(Rows(), limit, bound);
      RowsAreStored();
    }

    /** `createPost(input)` by the signed-in user `userId` at time `now`: the
        table assigns the next serial id and the creation time. */
    method CreatePost(input: PostInput, userId: int, now: int) returns (p: Post)
      requires Valid()
      modifies this
      ensures Valid()
      ensures p == Post(old(nextId), input.title, input.text, input.points, userId, now)
      ensures p.id !in old(byId)
      ensures byId == old(byId)[p.id := p] && |byId| == |old(byId)| + 1
      ensures nextId == old(nextId) + 1
      ensures Rows() == old(Rows()) + [p]
    {
      p := Post(nextId, input.title, input.text, input.points, userId, now);
      ScanBelow(byId, nextId, nextId, p);
      byId := byId[nextId := p];
      nextId := nextId + 1;
    }

    /** `updatePost(id, title)`: nothing when no post has that id; otherwise the
        post with its title replaced. The source's guard `typeof title !==
        undefined` compares a type name with the value `undefined` and so always
        holds: the title is always written. */
    method UpdatePost(id: int, title: string) returns (r: Option<Post>)
      requires Valid()
      modifies this
      ensures Valid() && nextId == old(nextId)
      ensures id !in old(byId) ==> r == None && byId == old(byId)
      ensures id in old(byId) ==>
                && r == Some(old(byId)[id].(title := title))
                && byId == old(byId)[id := r.value]
      ensures Rows() == RetitleAll(old(Rows()), id, title)
    {
      if id !in byId {
        RowsAreStored();
        RetitleAbsent(Rows(), id, title);
        return None;
      }
      var post := byId[id];
      ScanRetitled(byId, nextId, id, title);
      post := post.(title := title);
      byId := byId[id := post];
      r := Some(post);
    }

    /** `deletePost(id)`: the delete is not awaited, so a failure of it
        (`deleteFails`) never reaches the `catch`, and the answer is always
        `true`. */
    method DeletePost(id: int, deleteFails: bool) returns (ok: bool)
      requires Valid()
      modifies this
      ensures Valid() && nextId == old(nextId)
      ensures ok
      ensures byId == if deleteFails then old(byId) else old(byId) - {id}
      ensures !deleteFails ==> forall p :: p in Rows() ==> p.id != id
    {
      if !deleteFails {
        byId := byId - {id};
        RowsAreStored();
      }
      ok := true;
    }

    /** `deletePost(id)` as its `try`/`catch` evidently means it: the delete is
        awaited, and a failure of it answers `false` and leaves the table as it
        was. */
    method DeletePostAwaited(id: int, deleteFails: bool) returns (ok: bool)
      requires Valid()
      modifies this
      ensures Valid() && nextId == old(nextId)
      ensures ok <==> !deleteFails
      ensures byId == if ok then old(byId) - {id} else old(byId)
      ensures ok ==> forall p :: p in Rows() ==> p.id != id
    {
      if deleteFails {
        return false;
      }
      byId := byId - {id};
      RowsAreStored();
      ok := true;
    }
  }
}
