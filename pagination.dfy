/**
 * Post pagination of the posts service: the rows of the posts table, the query the
 * repository runs for one page (an id filter, an order on createdAt, a limit), the
 * request object with its keys in enumeration order, the cursor page with its `next`
 * link, and the page-number page.
 */
module Pagination {
  import opened Js

  /** A row of the posts table. `id` and `createdAt` are assigned by the database
      and stay abstract numbers here; `authorId` stands for the author relation. */
  datatype Post = Post(
    id: int,
    authorId: int,
    title: string,
    content: string,
    image: Option<string>,
    images: seq<string>,
    likeCount: int,
    commentCount: int,
    createdAt: int)

  // ---------------------------------------------------------------------------
  // The repository query: filter on id, order on createdAt, limit
  // ---------------------------------------------------------------------------

  /** The `where.id` condition: absent, `LessThan(b)` or `MoreThan(b)`. */
  datatype IdFilter = NoFilter | LessThan(bound: int) | MoreThan(bound: int)

  predicate Matches(p: Post, f: IdFilter)
  {
    match f
    case NoFilter => true
    case LessThan(b) => p.id < b
    case MoreThan(b) => p.id > b
  }

  /** The rows that satisfy `f`, in table order. */
  function Filter(s: seq<Post>, f: IdFilter): (r: seq<Post>)
    ensures |r| <= |s|
    ensures forall p :: p in r <==> p in s && Matches(p, f)
  {
    if s == [] then [] else (if Matches(s[0], f) then [s[0]] else []) + Filter(s[1..], f)
  }

  datatype Direction = Asc | Desc

  /** The key rows are ordered by: createdAt ascending, or descending. */
  function SortKey(p: Post, dir: Direction): int
  {
    if dir == Asc then p.createdAt else -p.createdAt
  }

  ghost predicate SortedBy(s: seq<Post>, dir: Direction)
  {
    forall i, j :: 0 <= i < j < |s| ==> SortKey(s[i], dir) <= SortKey(s[j], dir)
  }

  /** Places `x` before the first row that does not come strictly earlier. */
  function Insert(x: Post, s: seq<Post>, dir: Direction): (r: seq<Post>)
    ensures multiset(r) == multiset(s) + multiset{x}
  {
    if s == [] || SortKey(x, dir) <= SortKey(s[0], dir) then [x] + s
    else
      assert s == [s[0]] + s[1..];
      [s[0]] + Insert(x, s[1..], dir)
  }

  lemma {:induction false} InsertSorted(x: Post, s: seq<Post>, dir: Direction)
    requires SortedBy(s, dir)
    ensures SortedBy(Insert(x, s, dir), dir)
  {
    if s != [] && SortKey(x, dir) > SortKey(s[0], dir) {
      var t := Insert(x, s[1..], dir);
      InsertSorted(x, s[1..], dir);
      assert s == [s[0]] + s[1..];
      forall k | 0 <= k < |t|
        ensures SortKey(s[0], dir) <= SortKey(t[k], dir)
      {
        InsertMember(x, s[1..], dir, t[k]);
        if t[k] != x {
          var m :| 0 <= m < |s[1..]| && s[1..][m] == t[k];
          assert s[m + 1] == t[k];
        }
      }
      SortedCons(s[0], t, dir);
    }
  }

  lemma InsertMember(x: Post, s: seq<Post>, dir: Direction, p: Post)
    requires p in Insert(x, s, dir)
    ensures p == x || p in s
  {
    assert p in multiset(Insert(x, s, dir));
  }

  /** A row that comes no later than every row of a sorted list can go in front of it. */
  lemma SortedCons(p: Post, t: seq<Post>, dir: Direction)
    requires SortedBy(t, dir)
    requires forall m :: 0 <= m < |t| ==> SortKey(p, dir) <= SortKey(t[m], dir)
    ensures SortedBy([p] + t, dir)
  {
    var r := [p] + t;
    forall i, j | 0 <= i < j < |r|
      ensures SortKey(r[i], dir) <= SortKey(r[j], dir)
    {
      assert r[j] == t[j - 1];
      if i > 0 { assert r[i] == t[i - 1]; }
    }
  }

  /** `ORDER BY createdAt`: a stable insertion sort, rows with equal keys keep
      their table order. */
  function SortByCreatedAt(s: seq<Post>, dir: Direction): (r: seq<Post>)
    ensures multiset(r) == multiset(s)
    ensures |r| == |s|
    ensures SortedBy(r, dir)
  {
    if s == [] then []
    else
      assert s == [s[0]] + s[1..];
      InsertSorted(s[0], SortByCreatedAt(s[1..], dir), dir);
      Insert(s[0], SortByCreatedAt(s[1..], dir), dir)
  }

  /** The first `n` rows (`take`). */
  function Prefix(s: seq<Post>, n: nat): seq<Post>
  {
    if n <= |s| then s[..n] else s
  }

  /** The rows after the first `n` (`skip`). */
  function Drop(s: seq<Post>, n: nat): seq<Post>
  {
    if n <= |s| then s[n..] else []
  }

  /** `repository.find({ where, order: { createdAt }, take })`. */
  function Find(rows: seq<Post>, where: IdFilter, dir: Direction, take: nat): seq<Post>
  {
    Prefix(SortByCreatedAt(Filter(rows, where), dir), take)
  }

  // ---------------------------------------------------------------------------
  // The pagination request
  // ---------------------------------------------------------------------------

  const TAKE := "take"
  const PAGE := "page"
  const ORDER := "order__createdAt"
  const LESS_THAN := "where__id__less_than"
  const MORE_THAN := "where__id__more_than"

  type Entry = (string, Value)

  /** The request object as its keys enumerate (`Object.keys(dto)`), each with its value. */
  type PaginatePostDto = seq<Entry>

  /** `dto[key]`: the value under `key`, or `undefined` when the key is absent. */
  function Get(dto: PaginatePostDto, key: string): Value
  {
    if dto == [] then Undefined
    else if dto[|dto| - 1].0 == key then dto[|dto| - 1].1
    else Get(dto[..|dto| - 1], key)
  }

  ghost predicate DistinctKeys(dto: PaginatePostDto)
  {
    forall i, j :: 0 <= i < j < |dto| ==> dto[i].0 != dto[j].0
  }

  /** The request keys whose declared type is number. */
  predicate IsNumericKey(k: string)
  {
    k == TAKE || k == PAGE || k == LESS_THAN || k == MORE_THAN
  }

  /** Numeric keys hold numbers, every other key a string, any key may be undefined. */
  predicate EntryWellTyped(e: Entry)
  {
    if IsNumericKey(e.0) then !e.1.Str? else !e.1.Num?
  }

  /** The request as validation lets it through: one value per key, declared types,
      a page size of at least one, and an order of 'ASC' or 'DESC'. */
  ghost predicate WellTyped(dto: PaginatePostDto)
  {
    && DistinctKeys(dto)
    && (forall i :: 0 <= i < |dto| ==> EntryWellTyped(dto[i]))
    && CursorBoundsNumeric(dto)
    && Get(dto, TAKE).Num? && Get(dto, TAKE).n >= 1
    && (Get(dto, ORDER) == Str("ASC") || Get(dto, ORDER) == Str("DESC"))
  }

  function TakeOf(dto: PaginatePostDto): nat
    requires WellTyped(dto)
  {
    Get(dto, TAKE).n
  }

  function DirectionOf(dto: PaginatePostDto): Direction
  {
    if Get(dto, ORDER) == Str("ASC") then Asc else Desc
  }

  predicate CursorBoundsNumeric(dto: PaginatePostDto)
  {
    !Get(dto, LESS_THAN).Str? && !Get(dto, MORE_THAN).Str?
  }

  /** The id condition of a cursor request: `less_than` is consulted first, and
      `more_than` only when `less_than` is falsy; `?? 0` is kept as written. */
  function CursorWhere(dto: PaginatePostDto): IdFilter
    requires CursorBoundsNumeric(dto)
  {
    var lt := Get(dto, LESS_THAN);
    var mt := Get(dto, MORE_THAN);
    if Truthy(lt) then LessThan(lt.n)
    else if Truthy(mt) then MoreThan(if mt.Undefined? then 0 else mt.n)
    else NoFilter
  }

  // ---------------------------------------------------------------------------
  // The cursor page and its next link
  // ---------------------------------------------------------------------------

  /** A URL as protocol, host, path and the ordered list of its query pairs. */
  datatype Url = Url(protocol: string, host: string, path: string, query: seq<(string, string)>)

  /** `{ data, cursor: { after }, count, next }`. */
  datatype CursorPage = CursorPage(data: seq<Post>, after: Option<int>, count: nat, next: Option<Url>)

  /** An entry the next link copies: a truthy value under a key other than the two cursor keys. */
  predicate Echoed(e: Entry)
  {
    Truthy(e.1) && e.0 != MORE_THAN && e.0 != LESS_THAN
  }

  /** The entries the next link copies, in key order. */
  function EchoEntries(dto: PaginatePostDto): (r: PaginatePostDto)
    ensures forall e :: e in r <==> e in dto && Echoed(e)
  {
    if dto == [] then []
    else EchoEntries(dto[..|dto| - 1]) + (if Echoed(dto[|dto| - 1]) then [dto[|dto| - 1]] else [])
  }

  /** The query pairs the loop over `Object.keys(dto)` appends. */
  function EchoPairs(dto: PaginatePostDto): (r: seq<(string, string)>)
    ensures |r| == |EchoEntries(dto)|
    ensures forall i :: 0 <= i < |r| ==>
      r[i] == (EchoEntries(dto)[i].0, ToQueryString(EchoEntries(dto)[i].1))
  {
    if dto == [] then []
    else
      var e := dto[|dto| - 1];
      EchoPairs(dto[..|dto| - 1]) + (if Echoed(e) then [(e.0, ToQueryString(e.1))] else [])
  }

  /** The cursor key the next link carries: `more_than` for 'ASC', `less_than` for any other order. */
  function CursorKey(order: Value): string
  {
    if order == Str("ASC") then MORE_THAN else LESS_THAN
  }

  /** The query of the next link: the copied pairs, then the new cursor pair. */
  function NextQuery(dto: PaginatePostDto, lastId: int): seq<(string, string)>
  {
    EchoPairs(dto) + [(CursorKey(Get(dto, ORDER)), IntToString(lastId))]
  }

  /** The page's last item, present only when the page is non-empty and exactly `take` long. */
  function LastItem(posts: seq<Post>, take: int): Option<Post>
  {
    if |posts| > 0 && |posts| == take then Some(posts[|posts| - 1]) else None
  }

  /** `cursorPaginatePosts` as one value. */
  function CursorPaginate(rows: seq<Post>, dto: PaginatePostDto, protocol: string, host: string): CursorPage
    requires WellTyped(dto)
  {
    var posts := Find(rows, CursorWhere(dto), DirectionOf(dto), TakeOf(dto));
    var last := LastItem(posts, TakeOf(dto));
    CursorPage(
      posts,
      if last.Some? then Some(last.value.id) else None,
      |posts|,
      if last.Some? then Some(Url(protocol, host, "/posts", NextQuery(dto, last.value.id))) else None)
  }

  // ---------------------------------------------------------------------------
  // The page-number page
  // ---------------------------------------------------------------------------

  /** `{ data, total }`. */
  datatype PagePage = PagePage(data: seq<Post>, total: nat)

  /** The rows page `page` (from 1) skips when pages are `take` rows long. */
  function Skip(take: nat, page: nat): nat
    requires page >= 1
  {
    take * (page - 1)
  }

  /** The rows of page `page` (from 1) when pages are `take` rows long. */
  function PageSlice(s: seq<Post>, take: nat, page: nat): seq<Post>
    requires page >= 1
  {
    Prefix(Drop(s, Skip(take, page)), take)
  }

  /** `pagePaginatePosts`: `findAndCount` with skip `take * (page - 1)`. */
  function PagePaginate(rows: seq<Post>, dto: PaginatePostDto): PagePage
    requires WellTyped(dto) && Get(dto, PAGE).Num? && Get(dto, PAGE).n >= 1
  {
    PagePage(PageSlice(SortByCreatedAt(rows, DirectionOf(dto)), TakeOf(dto), Get(dto, PAGE).n), |rows|)
  }

  // ---------------------------------------------------------------------------
  // Reading a next link back as a request
  // ---------------------------------------------------------------------------

  /** A query pair as the request object receives it: numeric keys converted with `Number`. */
  function ParseEntry(q: (string, string)): Entry
  {
    (q.0, if IsNumericKey(q.0) then Num(ParseInt(q.1)) else Str(q.1))
  }

  /** The request object built from a query string. */
  function ParseRequest(query: seq<(string, string)>): PaginatePostDto
  {
    if query == [] then [] else ParseRequest(query[..|query| - 1]) + [ParseEntry(query[|query| - 1])]
  }

  /** The request a client sends by following the next link. */
  function NextRequest(dto: PaginatePostDto, lastId: int): PaginatePostDto
  {
    EchoEntries(dto) + [(CursorKey(Get(dto, ORDER)), Num(lastId))]
  }
}
