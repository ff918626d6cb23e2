/**
 * The posts service: cursor pagination written out step by step, and the create, read,
 * update and delete operations over the posts table. The table behind the injected
 * repository is the field `rows`, in creation order.
 */
module Posts {
  import opened Js
  import opened Pagination
  import opened PaginationProperties

  datatype CreatePostDto = CreatePostDto(title: string, content: string)

  datatype UpdatePostDto = UpdatePostDto(title: Option<string>, content: Option<string>)

  /** The row `createPost` saves: the author by id, the request's title and content,
      no images, no likes and no comments. */
  function NewPost(authorId: int, dto: CreatePostDto, id: int, createdAt: int): Post
  {
    Post(id, authorId, dto.title, dto.content, None, [], 0, 0, createdAt)
  }

  /** The request `generatePosts` sends for its i-th post. */
  function GeneratedDto(i: nat): CreatePostDto
  {
    CreatePostDto("임의로 생성된 Post Title " + IntToString(i), "임의로 생성된 Post Content " + IntToString(i))
  }

  /** `updatePost`'s changes to the found row: title and content are replaced only by truthy values. */
  function ApplyUpdate(post: Post, dto: UpdatePostDto): Post
  {
    var p := if TruthyString(dto.title) then post.(title := dto.title.value) else post;
    if TruthyString(dto.content) then p.(content := dto.content.value) else p
  }

  /** `findOne({ where: { id } })`: the index of the first row with that id. */
  function IndexOfId(rows: seq<Post>, id: int): (r: Option<nat>)
    ensures r.Some? ==>
      && r.value < |rows| && rows[r.value].id == id
      && forall k :: 0 <= k < r.value ==> rows[k].id != id
    ensures r.None? <==> forall k :: 0 <= k < |rows| ==> rows[k].id != id
  {
    if rows == [] then None
    else if rows[0].id == id then Some(0)
    else
      var r := IndexOfId(rows[1..], id);
      if r.None? then None else Some(r.value + 1)
  }

  /** `repository.delete(id)`: the rows whose id differs, in order. */
  function WithoutId(rows: seq<Post>, id: int): (r: seq<Post>)
    ensures forall p :: p in r <==> p in rows && p.id != id
  {
    if rows == [] then []
    else (if rows[0].id != id then [rows[0]] else []) + WithoutId(rows[1..], id)
  }

  /** Ids and timestamps the database hands out for `count` new rows: positive, increasing,
      above every stored id, and not earlier than any stored row. */
  ghost predicate FreshStamps(rows: seq<Post>, ids: seq<int>, times: seq<int>, count: nat)
  {
    && |ids| == count && |times| == count
    && (forall i :: 0 <= i < count ==> ids[i] > 0)
    && (forall i, j :: 0 <= i < j < count ==> ids[i] < ids[j] && times[i] <= times[j])
    && (forall k, i :: 0 <= k < |rows| && 0 <= i < count ==> rows[k].id < ids[i] && rows[k].createdAt <= times[i])
  }

  /** The first `n` posts `generatePosts` saves. */
  function Generated(userId: int, ids: seq<int>, times: seq<int>, n: nat): seq<Post>
    requires n <= |ids| && n <= |times|
  {
    seq(n, j requires 0 <= j < n => NewPost(userId, GeneratedDto(j), ids[j], times[j]))
  }

  lemma GeneratedStep(userId: int, ids: seq<int>, times: seq<int>, n: nat)
    requires n < |ids| && n < |times|
    ensures Generated(userId, ids, times, n + 1) ==
      Generated(userId, ids, times, n) + [NewPost(userId, GeneratedDto(n), ids[n], times[n])]
  {
  }

  /** Every row is below the stamps from the `from`-th on: a smaller id, an earlier or
      equal creation time. */
  ghost predicate StampsAbove(rows: seq<Post>, ids: seq<int>, times: seq<int>, from: nat)
  {
    forall k, j :: 0 <= k < |rows| && from <= j < |ids| && j < |times| ==>
      rows[k].id < ids[j] && rows[k].createdAt <= times[j]
  }

  /** The i-th stamps are fresh for rows below every stamp from the i-th on. */
  lemma NextStampFresh(rows: seq<Post>, ids: seq<int>, times: seq<int>, i: nat)
    requires FreshStamps([], ids, times, |ids|) && i < |ids|
    requires StampsAbove(rows, ids, times, i)
    ensures FreshStamps(rows, [ids[i]], [times[i]], 1)
  {
  }

  /** After appending the post stamped with the i-th id and time, every row is still
      below the stamps after the i-th. */
  lemma StampsStayFresh(before: seq<Post>, post: Post, ids: seq<int>, times: seq<int>, i: nat)
    requires FreshStamps([], ids, times, |ids|) && i < |ids|
    requires post.id == ids[i] && post.createdAt == times[i]
    requires StampsAbove(before, ids, times, i)
    ensures StampsAbove(before + [post], ids, times, i + 1)
  {
    var rows := before + [post];
    forall k, j | 0 <= k < |rows| && i + 1 <= j < |ids| && j < |times|
      ensures rows[k].id < ids[j] && rows[k].createdAt <= times[j]
    {
      if k < |before| {
        assert rows[k] == before[k];
      }
    }
  }

  /** The stamps handed to `generatePosts`, in terms of the two predicates above. */
  lemma FreshStampsSplit(rows: seq<Post>, ids: seq<int>, times: seq<int>, count: nat)
    requires FreshStamps(rows, ids, times, count)
    ensures FreshStamps([], ids, times, |ids|) && StampsAbove(rows, ids, times, 0)
  {
  }

  class PostsService {
    /** The posts table, in creation order. */
    var rows: seq<Post>

    ghost predicate Valid()
      reads this
    {
      CreationOrdered(rows) && forall p :: p in rows ==> p.id > 0
    }

    constructor (initial: seq<Post>)
      requires CreationOrdered(initial) && forall p :: p in initial ==> p.id > 0
      ensures Valid() && rows == initial
    {
      rows := initial;
    }

    /** `cursorPaginatePosts`: choose the id condition, fetch, and build the next link
        by copying the request's entries one key at a time. */
    method CursorPaginatePosts(dto: PaginatePostDto, protocol: string, host: string) returns (r: CursorPage)
      requires WellTyped(dto)
      ensures r == CursorPaginate(rows, dto, protocol, host)
    {
      var where := NoFilter;
      var lt, mt := Get(dto, LESS_THAN), Get(dto, MORE_THAN);
      if Truthy(lt) {
        where := LessThan(lt.n);
      } else if Truthy(mt) {
        where := MoreThan(if mt.Undefined? then 0 else mt.n);
      }
      assert where == CursorWhere(dto);
      var posts := Find(rows, where, DirectionOf(dto), TakeOf(dto));
      var lastItem := if |posts| > 0 && |posts| == TakeOf(dto) then Some(posts[|posts| - 1]) else None;
      assert lastItem == LastItem(posts, TakeOf(dto));
      var next: Option<Url> := None;
      if lastItem.Some? {
        var query := EchoQuery(dto);
        var key: string;
        if Get(dto, ORDER) == Str("ASC") {
          key := MORE_THAN;
        } else {
          key := LESS_THAN;
        }
        assert key == CursorKey(Get(dto, ORDER));
        query := query + [(key, IntToString(lastItem.value.id))];
        assert query == NextQuery(dto, lastItem.value.id);
        next := Some(Url(protocol, host, "/posts", query));
      }
      r := CursorPage(posts, if lastItem.Some? then Some(lastItem.value.id) else None, |posts|, next);
    }

    /** The loop of `cursorPaginatePosts` over `Object.keys(dto)`: append each truthy entry
        whose key is not a cursor key, in key order. */
    method EchoQuery(dto: PaginatePostDto) returns (query: seq<(string, string)>)
      ensures query == EchoPairs(dto)
    {
      query := [];
      var i := 0;
      while i < |dto|
        invariant 0 <= i <= |dto|
        invariant query == EchoPairs(dto[..i])
      {
        var (key, value) := dto[i];
        if Truthy(value) {
          if key != MORE_THAN && key != LESS_THAN {
            query := query + [(key, ToQueryString(value))];
          }
        }
        EchoPairsStep(dto, i);
        i := i + 1;
      }
      assert dto[..i] == dto;
    }

    /** `getPostById`: the row with that id, or NotFound. */
    method GetPostById(id: int) returns (r: Result<Post>)
      ensures r.Ok? ==> r.value in rows && r.value.id == id
      ensures r.Err? <==> forall p :: p in rows ==> p.id != id
      ensures r.Err? ==> r.error == NotFoundException
    {
      var k := IndexOfId(rows, id);
      if k.None? {
        return Err(NotFoundException);
      }
      r := Ok(rows[k.value]);
    }

    /** `createPost`: saves a new row with the id and timestamp the database assigns. */
    method CreatePost(authorId: int, dto: CreatePostDto, id: int, createdAt: int) returns (post: Post)
      requires Valid()
      requires FreshStamps(rows, [id], [createdAt], 1)
      modifies this
      ensures Valid()
      ensures rows == old(rows) + [post]
      ensures post.id == id && post.authorId == authorId && post.createdAt == createdAt
      ensures post.title == dto.title && post.content == dto.content
      ensures post.likeCount == 0 && post.commentCount == 0 && post.images == [] && post.image == None
    {
      post := NewPost(authorId, dto, id, createdAt);
      AppendKeepsOrder(rows, post);
      rows := rows + [post];
    }

    /** `generatePosts`: one hundred posts by `userId`, the i-th titled and worded with i. */
    method GeneratePosts(userId: int, ids: seq<int>, times: seq<int>)
      requires Valid()
      requires FreshStamps(rows, ids, times, 100)
      modifies this
      ensures Valid()
      ensures |rows| == |old(rows)| + 100 && rows[..|old(rows)|] == old(rows)
      ensures forall i :: 0 <= i < 100 ==>
        rows[|old(rows)| + i] == NewPost(userId, GeneratedDto(i), ids[i], times[i])
    {
      FreshStampsSplit(rows, ids, times, 100);
      var i := 0;
      while i < 100
        invariant 0 <= i <= 100
        invariant Valid()
        invariant rows == old(rows) + Generated(userId, ids, times, i)
        invariant StampsAbove(rows, ids, times, i)
      {
        ghost var before := rows;
        NextStampFresh(rows, ids, times, i);
        var post := CreatePost(userId, GeneratedDto(i), ids[i], times[i]);
        assert post == NewPost(userId, GeneratedDto(i), ids[i], times[i]);
        GeneratedStep(userId, ids, times, i);
        StampsStayFresh(before, post, ids, times, i);
        i := i + 1;
      }
      assert rows[..|old(rows)|] == old(rows);
    }

    /** `updatePost`: NotFound for an unknown id; otherwise title and content are
        overwritten by truthy values only, and the row is saved in place. */
    method UpdatePost(postId: int, dto: UpdatePostDto) returns (r: Result<Post>)
      requires Valid()
      modifies this
      ensures Valid()
      ensures IndexOfId(old(rows), postId).None? ==> r == Err(NotFoundException) && rows == old(rows)
      ensures IndexOfId(old(rows), postId).Some? ==>
        var k := IndexOfId(old(rows), postId).value;
        r == Ok(ApplyUpdate(old(rows)[k], dto)) && rows == old(rows)[k := r.value]
    {
      var k := IndexOfId(rows, postId);
      if k.None? {
        return Err(NotFoundException);
      }
      var post := rows[k.value];
      if TruthyString(dto.title) {
        post := post.(title := dto.title.value);
      }
      if TruthyString(dto.content) {
        post := post.(content := dto.content.value);
      }
      rows := rows[k.value := post];
      r := Ok(post);
    }

    /** `deletePost`: NotFound for an unknown id; otherwise the row is deleted and the id returned. */
    method DeletePost(postId: int) returns (r: Result<int>)
      requires Valid()
      modifies this
      ensures Valid()
      ensures IndexOfId(old(rows), postId).None? ==> r == Err(NotFoundException) && rows == old(rows)
      ensures IndexOfId(old(rows), postId).Some? ==> r == Ok(postId) && rows == WithoutId(old(rows), postId)
    {
      var k := IndexOfId(rows, postId);
      if k.None? {
        return Err(NotFoundException);
      }
      WithoutIdKeepsOrder(rows, postId);
      rows := WithoutId(rows, postId);
      r := Ok(postId);
    }
  }

  // ---------------------------------------------------------------------------
  // Properties of the operations
  // ---------------------------------------------------------------------------

  /** A row with a fresh id and timestamp appended keeps the table in creation order. */
  lemma AppendKeepsOrder(rows: seq<Post>, post: Post)
    requires CreationOrdered(rows) && forall p :: p in rows ==> p.id > 0
    requires FreshStamps(rows, [post.id], [post.createdAt], 1)
    ensures CreationOrdered(rows + [post]) && forall p :: p in rows + [post] ==> p.id > 0
  {
    var after := rows + [post];
    assert [post.id][0] == post.id && [post.createdAt][0] == post.createdAt;
    assert post.id > 0;
    forall i, j | 0 <= i < j < |after|
      ensures after[i].id < after[j].id && after[i].createdAt <= after[j].createdAt
    {
      assert after[i] == rows[i];
      if j < |rows| {
        assert after[j] == rows[j];
      }
    }
  }

  lemma {:induction false} WithoutIdKeepsOrder(rows: seq<Post>, id: int)
    requires CreationOrdered(rows)
    ensures CreationOrdered(WithoutId(rows, id))
  {
    if rows != [] {
      var t := WithoutId(rows[1..], id);
      TailOrdered(rows);
      WithoutIdKeepsOrder(rows[1..], id);
      forall k | 0 <= k < |t|
        ensures rows[0].id < t[k].id && rows[0].createdAt <= t[k].createdAt
      {
        assert t[k] in rows[1..];
        var m :| 0 <= m < |rows[1..]| && rows[1..][m] == t[k];
        assert rows[m + 1] == t[k];
      }
      if rows[0].id != id {
        ConsOrdered(rows[0], t);
      }
    }
  }

  /** An update replaces title and content only with truthy values and leaves every other field. */
  lemma ApplyUpdateRule(post: Post, dto: UpdatePostDto)
    ensures var p := ApplyUpdate(post, dto);
      && p.title == (if TruthyString(dto.title) then dto.title.value else post.title)
      && p.content == (if TruthyString(dto.content) then dto.content.value else post.content)
      && p.(title := post.title, content := post.content) == post
  {
  }

  /** Applying the same update twice is applying it once; an update with no truthy field
      (absent or empty strings) changes nothing. */
  lemma ApplyUpdateIdempotent(post: Post, dto: UpdatePostDto)
    ensures ApplyUpdate(ApplyUpdate(post, dto), dto) == ApplyUpdate(post, dto)
    ensures !TruthyString(dto.title) && !TruthyString(dto.content) ==> ApplyUpdate(post, dto) == post
  {
  }

  /** After a create, reading the new id returns the new row. */
  lemma GetAfterCreate(rows: seq<Post>, authorId: int, dto: CreatePostDto, id: int, createdAt: int)
    requires FreshStamps(rows, [id], [createdAt], 1)
    ensures var after := rows + [NewPost(authorId, dto, id, createdAt)];
      IndexOfId(after, id) == Some(|rows|)
  {
    var after := rows + [NewPost(authorId, dto, id, createdAt)];
    var r := IndexOfId(after, id);
    assert after[|rows|].id == id;
    assert [id][0] == id;
  }

  /** After an update, reading the id returns the updated row. */
  lemma GetAfterUpdate(rows: seq<Post>, k: nat, dto: UpdatePostDto)
    requires k < |rows| && IndexOfId(rows, rows[k].id) == Some(k)
    ensures IndexOfId(rows[k := ApplyUpdate(rows[k], dto)], rows[k].id) == Some(k)
  {
    var after := rows[k := ApplyUpdate(rows[k], dto)];
    assert forall j :: 0 <= j < k ==> after[j] == rows[j];
  }

  /** After a delete, the id is gone and every other row is still there. */
  lemma GetAfterDelete(rows: seq<Post>, id: int)
    ensures IndexOfId(WithoutId(rows, id), id) == None
    ensures forall p :: p in rows && p.id != id ==> p in WithoutId(rows, id)
  {
    var r := WithoutId(rows, id);
    forall k | 0 <= k < |r|
      ensures r[k].id != id
    {
      assert r[k] in r;
    }
  }

  /** The hundred generated posts have pairwise different titles and contents. */
  lemma GeneratedPostsDistinct(i: nat, j: nat)
    requires i != j
    ensures GeneratedDto(i).title != GeneratedDto(j).title
    ensures GeneratedDto(i).content != GeneratedDto(j).content
  {
    IntToStringRoundTrip(i);
    IntToStringRoundTrip(j);
    var tp, cp := "임의로 생성된 Post Title ", "임의로 생성된 Post Content ";
    assert (tp + IntToString(i))[|tp|..] == IntToString(i);
    assert (tp + IntToString(j))[|tp|..] == IntToString(j);
    assert (cp + IntToString(i))[|cp|..] == IntToString(i);
    assert (cp + IntToString(j))[|cp|..] == IntToString(j);
  }
}
