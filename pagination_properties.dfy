/**
 * What the pagination of the posts service promises: which id condition a request
 * selects, what the cursor page and its next link hold, that the next link reads
 * back as the same request with only the cursor advanced, that following next links
 * from the first page visits every row once in id order, and that page-number pages
 * tile the ordered table.
 */
module PaginationProperties {
  import opened Js
  import opened Pagination

  // ---------------------------------------------------------------------------
  // Rows, filters and order
  // ---------------------------------------------------------------------------

  /** Rows as the database creates them: ids strictly increasing, createdAt never decreasing. */
  ghost predicate CreationOrdered(rows: seq<Post>)
  {
    forall i, j :: 0 <= i < j < |rows| ==> rows[i].id < rows[j].id && rows[i].createdAt <= rows[j].createdAt
  }

  lemma {:induction false} FilterAppend(a: seq<Post>, b: seq<Post>, f: IdFilter)
    ensures Filter(a + b, f) == Filter(a, f) + Filter(b, f)
  {
    if a == [] {
      assert a + b == b;
    } else {
      assert (a + b)[0] == a[0];
      assert (a + b)[1..] == a[1..] + b;
      FilterAppend(a[1..], b, f);
    }
  }

  lemma TailOrdered(s: seq<Post>)
    requires CreationOrdered(s) && s != []
    ensures CreationOrdered(s[1..])
  {
    forall i, j | 0 <= i < j < |s[1..]|
      ensures s[1..][i].id < s[1..][j].id && s[1..][i].createdAt <= s[1..][j].createdAt
    {
      assert s[1..][i] == s[i + 1] && s[1..][j] == s[j + 1];
    }
  }

  lemma ConsOrdered(x: Post, t: seq<Post>)
    requires CreationOrdered(t)
    requires forall k :: 0 <= k < |t| ==> x.id < t[k].id && x.createdAt <= t[k].createdAt
    ensures CreationOrdered([x] + t)
  {
    var r := [x] + t;
    forall i, j | 0 <= i < j < |r|
      ensures r[i].id < r[j].id && r[i].createdAt <= r[j].createdAt
    {
      assert r[j] == t[j - 1];
      if i > 0 { assert r[i] == t[i - 1]; }
    }
  }

  lemma {:induction false} FilterKeepsCreationOrder(s: seq<Post>, f: IdFilter)
    requires CreationOrdered(s)
    ensures CreationOrdered(Filter(s, f))
  {
    if s != [] {
      var t := Filter(s[1..], f);
      TailOrdered(s);
      FilterKeepsCreationOrder(s[1..], f);
      forall k | 0 <= k < |t|
        ensures s[0].id < t[k].id && s[0].createdAt <= t[k].createdAt
      {
        assert t[k] in s[1..];
        var m :| 0 <= m < |s[1..]| && s[1..][m] == t[k];
        assert s[m + 1] == t[k];
      }
      if Matches(s[0], f) {
        ConsOrdered(s[0], t);
      }
    }
  }

  /** Ordering rows that are already in order changes nothing: the sort is stable. */
  lemma {:induction false} SortOfSortedIsIdentity(s: seq<Post>, dir: Direction)
    requires SortedBy(s, dir)
    ensures SortByCreatedAt(s, dir) == s
  {
    if s != [] {
      assert SortedBy(s[1..], dir) by {
        forall i, j | 0 <= i < j < |s[1..]|
          ensures SortKey(s[1..][i], dir) <= SortKey(s[1..][j], dir)
        {
          assert s[1..][i] == s[i + 1] && s[1..][j] == s[j + 1];
        }
      }
      SortOfSortedIsIdentity(s[1..], dir);
      assert s == [s[0]] + s[1..];
    }
  }

  lemma {:induction false} FilterAllMatch(s: seq<Post>, f: IdFilter)
    requires forall p :: p in s ==> Matches(p, f)
    ensures Filter(s, f) == s
  {
    if s != [] {
      assert s == [s[0]] + s[1..];
      FilterAllMatch(s[1..], f);
    }
  }

  /** Filtering twice is filtering once by the narrower condition. */
  lemma {:induction false} FilterNarrow(s: seq<Post>, f: IdFilter, g: IdFilter)
    requires forall p :: p in s && Matches(p, g) ==> Matches(p, f)
    ensures Filter(Filter(s, f), g) == Filter(s, g)
  {
    if s != [] {
      assert s == [s[0]] + s[1..];
      FilterNarrow(s[1..], f, g);
      var head := if Matches(s[0], f) then [s[0]] else [];
      FilterAppend(head, Filter(s[1..], f), g);
      assert Filter(head, g) == if Matches(s[0], g) then [s[0]] else [] by {
        if Matches(s[0], f) {
          assert head[1..] == [];
        }
      }
    }
  }

  /** In rows with increasing ids, the rows after the k-th are those with a larger id. */
  lemma {:induction false} FilterAfter(s: seq<Post>, k: nat)
    requires CreationOrdered(s)
    requires k < |s|
    ensures Filter(s, MoreThan(s[k].id)) == s[k + 1..]
  {
    TailOrdered(s);
    if k == 0 {
      forall p | p in s[1..]
        ensures Matches(p, MoreThan(s[0].id))
      {
        var m :| 0 <= m < |s[1..]| && s[1..][m] == p;
        assert s[m + 1] == p;
      }
      FilterAllMatch(s[1..], MoreThan(s[0].id));
    } else {
      assert s[1..][k - 1] == s[k];
      FilterAfter(s[1..], k - 1);
      assert s[1..][k..] == s[k + 1..];
    }
  }

  // ---------------------------------------------------------------------------
  // Reading the request
  // ---------------------------------------------------------------------------

  lemma {:induction false} GetAbsent(dto: PaginatePostDto, k: string)
    requires forall i :: 0 <= i < |dto| ==> dto[i].0 != k
    ensures Get(dto, k) == Undefined
  {
    if dto != [] {
      GetAbsent(dto[..|dto| - 1], k);
    }
  }

  lemma {:induction false} GetAppend(dto: PaginatePostDto, e: Entry, k: string)
    ensures Get(dto + [e], k) == if e.0 == k then e.1 else Get(dto, k)
  {
    assert (dto + [e])[..|dto|] == dto;
  }

  /** `r` is `s` with some elements left out and the others kept in their order. */
  ghost predicate Subsequence<T>(r: seq<T>, s: seq<T>)
    decreases |s|
  {
    if s == [] then r == []
    else
      (r != [] && r[|r| - 1] == s[|s| - 1] && Subsequence(r[..|r| - 1], s[..|s| - 1]))
      || Subsequence(r, s[..|s| - 1])
  }

  /** The copied entries keep the request's key order: they are a subsequence of it. */
  lemma {:induction false} EchoEntriesInOrder(dto: PaginatePostDto)
    ensures Subsequence(EchoEntries(dto), dto)
  {
    if dto != [] {
      var init := dto[..|dto| - 1];
      EchoEntriesInOrder(init);
      var r := EchoEntries(dto);
      if Echoed(dto[|dto| - 1]) {
        assert r[..|r| - 1] == EchoEntries(init);
      } else {
        assert r == EchoEntries(init);
      }
    }
  }

  lemma {:induction false} EchoKeepsDistinctKeys(dto: PaginatePostDto)
    requires DistinctKeys(dto)
    ensures DistinctKeys(EchoEntries(dto))
  {
    if dto != [] {
      var init, e := dto[..|dto| - 1], dto[|dto| - 1];
      EchoKeepsDistinctKeys(init);
      var t := EchoEntries(init);
      forall k | 0 <= k < |t|
        ensures t[k].0 != e.0
      {
        assert t[k] in init;
      }
    }
  }

  /** The copied entries hold each non-cursor key's value when it is truthy, and nothing else. */
  lemma {:induction false} GetEcho(dto: PaginatePostDto, k: string)
    requires DistinctKeys(dto)
    ensures k != LESS_THAN && k != MORE_THAN ==>
      Get(EchoEntries(dto), k) == if Truthy(Get(dto, k)) then Get(dto, k) else Undefined
    ensures k == LESS_THAN || k == MORE_THAN ==> Get(EchoEntries(dto), k) == Undefined
  {
    if k == LESS_THAN || k == MORE_THAN {
      var t := EchoEntries(dto);
      forall i | 0 <= i < |t|
        ensures t[i].0 != k
      {
        assert t[i] in t;
      }
      GetAbsent(t, k);
    } else if dto != [] {
      var init, e := dto[..|dto| - 1], dto[|dto| - 1];
      GetEcho(init, k);
      if Echoed(e) {
        GetAppend(EchoEntries(init), e, k);
      } else {
        assert EchoEntries(dto) == EchoEntries(init);
      }
      if e.0 == k {
        GetAbsent(init, k);
      }
    }
  }

  // ---------------------------------------------------------------------------
  // The id condition
  // ---------------------------------------------------------------------------

  /** `less_than` wins: when it is truthy the condition is `id < less_than`,
      whatever `more_than` holds. */
  lemma LessThanTakesPrecedence(dto: PaginatePostDto, v: Value)
    requires CursorBoundsNumeric(dto)
    requires Truthy(Get(dto, LESS_THAN))
    requires !v.Str?
    ensures CursorBoundsNumeric(dto + [(MORE_THAN, v)])
    ensures CursorWhere(dto + [(MORE_THAN, v)]) == CursorWhere(dto) == LessThan(Get(dto, LESS_THAN).n)
  {
    GetAppend(dto, (MORE_THAN, v), LESS_THAN);
    GetAppend(dto, (MORE_THAN, v), MORE_THAN);
  }

  /** `more_than` is consulted only when `less_than` is falsy, its `?? 0` fallback is
      never taken, and with both bounds falsy there is no condition at all. */
  lemma CursorWherePrecedence(dto: PaginatePostDto)
    requires CursorBoundsNumeric(dto)
    ensures CursorWhere(dto).MoreThan? <==> !Truthy(Get(dto, LESS_THAN)) && Truthy(Get(dto, MORE_THAN))
    ensures CursorWhere(dto).MoreThan? ==>
      CursorWhere(dto).bound != 0 && Get(dto, MORE_THAN) == Num(CursorWhere(dto).bound)
    ensures CursorWhere(dto) == NoFilter <==> !Truthy(Get(dto, LESS_THAN)) && !Truthy(Get(dto, MORE_THAN))
    ensures forall p :: Matches(p, CursorWhere(dto)) <==>
      (Truthy(Get(dto, LESS_THAN)) ==> p.id < Get(dto, LESS_THAN).n) &&
      (!Truthy(Get(dto, LESS_THAN)) && Truthy(Get(dto, MORE_THAN)) ==> p.id > Get(dto, MORE_THAN).n)
  {
  }

  // ---------------------------------------------------------------------------
  // The cursor page and its next link
  // ---------------------------------------------------------------------------

  /** The page holds at most `take` rows that meet the cursor condition, in createdAt
      order; `count` is its length; a cursor and a next link exist exactly when the page
      is exactly `take` long, and then `after` is the last row's id; a short page holds
      every remaining row. */
  lemma CursorPageShape(rows: seq<Post>, dto: PaginatePostDto, protocol: string, host: string)
    requires WellTyped(dto)
    ensures var r := CursorPaginate(rows, dto, protocol, host);
      && r.count == |r.data| <= TakeOf(dto)
      && (forall p :: p in r.data ==> p in rows && Matches(p, CursorWhere(dto)))
      && SortedBy(r.data, DirectionOf(dto))
      && (r.after.Some? <==> |r.data| == TakeOf(dto))
      && (r.next.Some? <==> |r.data| == TakeOf(dto))
      && (r.after.Some? ==>
            && r.after.value == r.data[|r.data| - 1].id
            && r.next.value == Url(protocol, host, "/posts", NextQuery(dto, r.after.value)))
      && (|r.data| < TakeOf(dto) ==> r.data == SortByCreatedAt(Filter(rows, CursorWhere(dto)), DirectionOf(dto)))
  {
    var r := CursorPaginate(rows, dto, protocol, host);
    var sorted := SortByCreatedAt(Filter(rows, CursorWhere(dto)), DirectionOf(dto));
    var t := TakeOf(dto);
    forall p | p in r.data
      ensures p in rows && Matches(p, CursorWhere(dto))
    {
      assert p in sorted;
      assert p in multiset(sorted);
    }
    if t <= |sorted| {
      assert r.data == sorted[..t];
      forall i, j | 0 <= i < j < |r.data|
        ensures SortKey(r.data[i], DirectionOf(dto)) <= SortKey(r.data[j], DirectionOf(dto))
      {
        assert r.data[i] == sorted[i] && r.data[j] == sorted[j];
      }
    }
  }

  /** A query pair that some copied entry of the request writes. */
  ghost predicate CopiedPair(q: (string, string), dto: PaginatePostDto)
  {
    exists e :: e in dto && Echoed(e) && q == (e.0, ToQueryString(e.1))
  }

  /** The next link's query: every truthy non-cursor entry of the request, in key order,
      then one cursor pair, `more_than` for 'ASC' and `less_than` otherwise, holding the
      last id in decimal. No pair but the last has a cursor key. */
  lemma NextQueryShape(dto: PaginatePostDto, lastId: int)
    ensures var q := NextQuery(dto, lastId);
      && |q| >= 1
      && q[|q| - 1] == (CursorKey(Get(dto, ORDER)), IntToString(lastId))
      && (Get(dto, ORDER) == Str("ASC") ==> q[|q| - 1].0 == MORE_THAN)
      && (Get(dto, ORDER) != Str("ASC") ==> q[|q| - 1].0 == LESS_THAN)
      && (forall i :: 0 <= i < |dto| && Echoed(dto[i]) ==> (dto[i].0, ToQueryString(dto[i].1)) in q[..|q| - 1])
      && (forall i :: 0 <= i < |q| - 1 ==>
            q[i].0 != LESS_THAN && q[i].0 != MORE_THAN && CopiedPair(q[i], dto))
  {
    var q := NextQuery(dto, lastId);
    var es := EchoEntries(dto);
    var ps := EchoPairs(dto);
    assert q[..|q| - 1] == ps;
    assert |q| - 1 == |ps|;
    forall i | 0 <= i < |dto| && Echoed(dto[i])
      ensures (dto[i].0, ToQueryString(dto[i].1)) in ps
    {
      assert dto[i] in es;
      var m :| 0 <= m < |es| && es[m] == dto[i];
      assert ps[m] == (dto[i].0, ToQueryString(dto[i].1));
    }
    forall i | 0 <= i < |q| - 1
      ensures q[i].0 != LESS_THAN && q[i].0 != MORE_THAN && CopiedPair(q[i], dto)
    {
      var e := es[i];
      assert q[i] == ps[i] == (e.0, ToQueryString(e.1));
      assert e in dto && Echoed(e);
    }
  }

  lemma {:induction false} ParseRequestAppend(a: seq<(string, string)>, b: seq<(string, string)>)
    ensures ParseRequest(a + b) == ParseRequest(a) + ParseRequest(b)
  {
    if b != [] {
      var init := b[..|b| - 1];
      assert (a + b)[..|a + b| - 1] == a + init;
      ParseRequestAppend(a, init);
    } else {
      assert a + b == a;
    }
  }

  /** The pairs of one more entry: those before it, then its own pair if it is copied. */
  lemma EchoPairsStep(dto: PaginatePostDto, i: nat)
    requires i < |dto|
    ensures EchoPairs(dto[..i + 1]) ==
      EchoPairs(dto[..i]) + (if Echoed(dto[i]) then [(dto[i].0, ToQueryString(dto[i].1))] else [])
  {
    assert dto[..i + 1][..i] == dto[..i];
  }

  lemma {:induction false} EchoRoundTrip(dto: PaginatePostDto)
    requires forall i :: 0 <= i < |dto| ==> EntryWellTyped(dto[i])
    ensures ParseRequest(EchoPairs(dto)) == EchoEntries(dto)
  {
    if dto != [] {
      var init, e := dto[..|dto| - 1], dto[|dto| - 1];
      assert forall i :: 0 <= i < |init| ==> init[i] == dto[i];
      EchoRoundTrip(init);
      if Echoed(e) {
        assert EntryWellTyped(dto[|dto| - 1]);
        if e.1.Num? {
          IntToStringRoundTrip(e.1.n);
        }
        assert ParseEntry((e.0, ToQueryString(e.1))) == e;
        ParseRequestAppend(EchoPairs(init), [(e.0, ToQueryString(e.1))]);
      } else {
        assert EchoPairs(dto) == EchoPairs(init);
      }
    }
  }

  /** Following the next link sends the request back with its truthy non-cursor entries
      and the new cursor entry: the query string loses nothing the request needs. */
  lemma NextQueryRoundTrip(dto: PaginatePostDto, lastId: int)
    requires WellTyped(dto)
    ensures ParseRequest(NextQuery(dto, lastId)) == NextRequest(dto, lastId)
  {
    var ck := CursorKey(Get(dto, ORDER));
    EchoRoundTrip(dto);
    ParseRequestAppend(EchoPairs(dto), [(ck, IntToString(lastId))]);
    IntToStringRoundTrip(lastId);
    assert ParseRequest([(ck, IntToString(lastId))]) == [(ck, Num(lastId))] by {
      assert [(ck, IntToString(lastId))][..0] == [];
    }
  }

  /** The request behind the next link is valid, keeps page size, order and every other
      truthy entry, and has its cursor moved to the last id in the direction of the order. */
  lemma NextRequestKeepsRequest(dto: PaginatePostDto, lastId: int)
    requires WellTyped(dto)
    ensures var next := NextRequest(dto, lastId);
      && WellTyped(next)
      && TakeOf(next) == TakeOf(dto)
      && Get(next, ORDER) == Get(dto, ORDER)
      && (forall k :: k != LESS_THAN && k != MORE_THAN ==>
            Get(next, k) == if Truthy(Get(dto, k)) then Get(dto, k) else Undefined)
      && Get(next, CursorKey(Get(dto, ORDER))) == Num(lastId)
      && CursorWhere(next) ==
           if lastId == 0 then NoFilter
           else if Get(dto, ORDER) == Str("ASC") then MoreThan(lastId) else LessThan(lastId)
  {
    var next := NextRequest(dto, lastId);
    NextRequestWellTyped(dto, lastId);
    forall k
      ensures Get(next, k) == NextRequestValue(dto, lastId, k)
    {
      NextRequestGet(dto, lastId, k);
    }
    assert Get(next, TAKE) == Get(dto, TAKE) && Get(next, ORDER) == Get(dto, ORDER);
  }

  /** What the next request holds under key `k`: the new cursor under the cursor key,
      nothing under the other cursor key, and the truthy entries of the request. */
  function NextRequestValue(dto: PaginatePostDto, lastId: int, k: string): Value
  {
    if k == CursorKey(Get(dto, ORDER)) then Num(lastId)
    else if k == LESS_THAN || k == MORE_THAN then Undefined
    else if Truthy(Get(dto, k)) then Get(dto, k) else Undefined
  }

  lemma NextRequestGet(dto: PaginatePostDto, lastId: int, k: string)
    requires DistinctKeys(dto)
    ensures Get(NextRequest(dto, lastId), k) == NextRequestValue(dto, lastId, k)
  {
    GetAppend(EchoEntries(dto), (CursorKey(Get(dto, ORDER)), Num(lastId)), k);
    GetEcho(dto, k);
  }

  /** The next request is as well-typed as the request. */
  lemma NextRequestWellTyped(dto: PaginatePostDto, lastId: int)
    requires WellTyped(dto)
    ensures WellTyped(NextRequest(dto, lastId))
    ensures Get(NextRequest(dto, lastId), TAKE) == Get(dto, TAKE)
    ensures Get(NextRequest(dto, lastId), ORDER) == Get(dto, ORDER)
  {
    var ck := CursorKey(Get(dto, ORDER));
    var es := EchoEntries(dto);
    var next := NextRequest(dto, lastId);
    EchoKeepsDistinctKeys(dto);
    assert DistinctKeys(next) by {
      forall i | 0 <= i < |es|
        ensures es[i].0 != ck
      {
        assert es[i] in es;
      }
    }
    forall i | 0 <= i < |next|
      ensures EntryWellTyped(next[i])
    {
      if i < |es| {
        assert next[i] == es[i] && es[i] in es;
        var m :| 0 <= m < |dto| && dto[m] == es[i];
      }
    }
    forall k
      ensures Get(next, k) == NextRequestValue(dto, lastId, k)
    {
      NextRequestGet(dto, lastId, k);
    }
  }

  // ---------------------------------------------------------------------------
  // Following next links
  // ---------------------------------------------------------------------------

  /** An ascending cursor request without a `less_than` bound over rows as the database
      creates them (positive ids). The lemmas below about following next links also rely
      on `SortByCreatedAt` returning rows with equal `createdAt` in id order. */
  ghost predicate Continuable(rows: seq<Post>, dto: PaginatePostDto)
  {
    && CreationOrdered(rows)
    && (forall p :: p in rows ==> p.id > 0)
    && WellTyped(dto)
    && Get(dto, ORDER) == Str("ASC")
    && !CursorWhere(dto).LessThan?
  }

  /** Over rows in creation order, an ascending query is the filtered rows' prefix. */
  lemma AscendingFind(rows: seq<Post>, w: IdFilter, take: nat)
    requires CreationOrdered(rows)
    ensures CreationOrdered(Filter(rows, w))
    ensures Find(rows, w, Asc, take) == Prefix(Filter(rows, w), take)
  {
    var f := Filter(rows, w);
    FilterKeepsCreationOrder(rows, w);
    assert SortedBy(f, Asc);
    SortOfSortedIsIdentity(f, Asc);
  }

  /** The request behind an ascending next link selects the rows after the last id. */
  lemma AscendingNextRequest(dto: PaginatePostDto, lastId: int)
    requires WellTyped(dto) && Get(dto, ORDER) == Str("ASC") && lastId > 0
    ensures var next := ParseRequest(NextQuery(dto, lastId));
      && WellTyped(next)
      && Get(next, ORDER) == Str("ASC")
      && TakeOf(next) == TakeOf(dto)
      && CursorWhere(next) == MoreThan(lastId)
  {
    NextQueryRoundTrip(dto, lastId);
    NextRequestKeepsRequest(dto, lastId);
  }

  /** The rows a filter without an upper bound selects after its first `t` are the
      rows with an id above the t-th one's. */
  lemma RowsAfterPage(rows: seq<Post>, w: IdFilter, t: nat)
    requires CreationOrdered(rows) && !w.LessThan?
    requires 1 <= t <= |Filter(rows, w)|
    ensures var f := Filter(rows, w);
      Filter(rows, MoreThan(f[t - 1].id)) == f[t..] && f == f[..t] + f[t..]
  {
    var f := Filter(rows, w);
    var last := f[t - 1];
    assert last in f;
    assert Filter(f, MoreThan(last.id)) == Filter(rows, MoreThan(last.id)) by {
      AboveMatchingRow(rows, w, last);
      FilterNarrow(rows, w, MoreThan(last.id));
    }
    assert Filter(f, MoreThan(last.id)) == f[t..] by {
      FilterKeepsCreationOrder(rows, w);
      FilterAfter(f, t - 1);
    }
    assert f == f[..t] + f[t..];
  }

  /** A filter without an upper bound selects every row above a row it selects. */
  lemma AboveMatchingRow(rows: seq<Post>, w: IdFilter, last: Post)
    requires !w.LessThan? && Matches(last, w)
    ensures forall p :: p in rows && Matches(p, MoreThan(last.id)) ==> Matches(p, w)
  {
  }

  /** One step of a client following next links: a page without a next link holds every
      remaining row; a page with one is non-empty, and the rows the request selects are
      this page followed by the rows the next link's request selects. */
  lemma NextPageContinues(rows: seq<Post>, dto: PaginatePostDto, protocol: string, host: string)
    requires Continuable(rows, dto)
    ensures var r := CursorPaginate(rows, dto, protocol, host);
      && (r.next.None? ==> r.data == Filter(rows, CursorWhere(dto)))
      && (r.next.Some? ==>
            var next := ParseRequest(r.next.value.query);
            && |r.data| > 0
            && Continuable(rows, next)
            && TakeOf(next) == TakeOf(dto)
            && Filter(rows, CursorWhere(dto)) == r.data + Filter(rows, CursorWhere(next)))
  {
    var w := CursorWhere(dto);
    var f := Filter(rows, w);
    var t := TakeOf(dto);
    var r := CursorPaginate(rows, dto, protocol, host);
    assert r.data == Prefix(f, t) by {
      AscendingFind(rows, w, t);
    }
    if t <= |f| {
      var last := f[t - 1];
      assert last in f && last in rows;
      assert r.next == Some(Url(protocol, host, "/posts", NextQuery(dto, last.id)));
      AscendingNextRequest(dto, last.id);
      RowsAfterPage(rows, w, t);
    } else {
      assert r.next.None? && r.data == f;
    }
  }

  /** A page is at most `take` long, and it has a next link exactly when it is full. */
  lemma NextIffFull(rows: seq<Post>, dto: PaginatePostDto, protocol: string, host: string)
    requires WellTyped(dto)
    ensures var r := CursorPaginate(rows, dto, protocol, host);
      |r.data| <= TakeOf(dto) && (r.next.Some? <==> |r.data| == TakeOf(dto))
  {
  }

  /** What one step of a walk needs: a page without a next link is short; one with a next
      link is full, and its next request continues with fewer rows left to visit. */
  lemma WalkStep(rows: seq<Post>, dto: PaginatePostDto, protocol: string, host: string)
    requires Continuable(rows, dto)
    ensures var r := CursorPaginate(rows, dto, protocol, host);
      && (r.next.None? ==> |r.data| < TakeOf(dto))
      && (r.next.Some? ==>
            var next := ParseRequest(r.next.value.query);
            && Continuable(rows, next)
            && |r.data| == TakeOf(next) == TakeOf(dto)
            && |Filter(rows, CursorWhere(next))| < |Filter(rows, CursorWhere(dto))|)
  {
    NextIffFull(rows, dto, protocol, host);
    NextPageContinues(rows, dto, protocol, host);
  }

  /** The pages a client collects by following next links until there is none. */
  ghost function Walk(rows: seq<Post>, dto: PaginatePostDto, protocol: string, host: string): seq<seq<Post>>
    requires Continuable(rows, dto)
    decreases |Filter(rows, CursorWhere(dto))|
  {
    var r := CursorPaginate(rows, dto, protocol, host);
    WalkStep(rows, dto, protocol, host);
    if r.next.None? then [r.data]
    else [r.data] + Walk(rows, ParseRequest(r.next.value.query), protocol, host)
  }

  /** Full pages of `take` rows, then one short page. */
  ghost predicate FullThenShort(pages: seq<seq<Post>>, take: nat)
  {
    && |pages| >= 1
    && (forall i :: 0 <= i < |pages| - 1 ==> |pages[i]| == take)
    && |pages[|pages| - 1]| < take
  }

  /** A walk is a sequence of full pages followed by one short page. */
  lemma {:induction false} WalkShape(rows: seq<Post>, dto: PaginatePostDto, protocol: string, host: string)
    requires Continuable(rows, dto)
    ensures FullThenShort(Walk(rows, dto, protocol, host), TakeOf(dto))
    decreases |Filter(rows, CursorWhere(dto))|
  {
    var r := CursorPaginate(rows, dto, protocol, host);
    var t := TakeOf(dto);
    WalkStep(rows, dto, protocol, host);
    if r.next.None? {
      assert Walk(rows, dto, protocol, host) == [r.data];
    } else {
      var next := ParseRequest(r.next.value.query);
      var rest := Walk(rows, next, protocol, host);
      assert Walk(rows, dto, protocol, host) == [r.data] + rest;
      WalkShape(rows, next, protocol, host);
      FullPageThenWalk(r.data, rest, t);
    }
  }

  /** A full page in front of a walk is still a walk. */
  lemma FullPageThenWalk(page: seq<Post>, rest: seq<seq<Post>>, take: nat)
    requires |page| == take && FullThenShort(rest, take)
    ensures FullThenShort([page] + rest, take)
  {
    var pages := [page] + rest;
    forall i | 0 <= i < |pages| - 1
      ensures |pages[i]| == take
    {
      if i > 0 {
        assert pages[i] == rest[i - 1];
      }
    }
  }

  function Flatten(pages: seq<seq<Post>>): seq<Post>
  {
    if pages == [] then [] else pages[0] + Flatten(pages[1..])
  }

  lemma {:induction false} FlattenAppend(a: seq<seq<Post>>, b: seq<seq<Post>>)
    ensures Flatten(a + b) == Flatten(a) + Flatten(b)
  {
    if a == [] {
      assert a + b == b;
    } else {
      assert (a + b)[1..] == a[1..] + b;
      FlattenAppend(a[1..], b);
    }
  }

  /** Following next links from a request visits exactly the rows it selects, each once,
      in table (id) order. */
  lemma {:induction false} WalkVisitsEveryRowOnce(rows: seq<Post>, dto: PaginatePostDto, protocol: string, host: string)
    requires Continuable(rows, dto)
    ensures Flatten(Walk(rows, dto, protocol, host)) == Filter(rows, CursorWhere(dto))
    decreases |Filter(rows, CursorWhere(dto))|
  {
    var r := CursorPaginate(rows, dto, protocol, host);
    NextPageContinues(rows, dto, protocol, host);
    if r.next.None? {
      assert Flatten([r.data]) == r.data + Flatten([]);
    } else {
      var next := ParseRequest(r.next.value.query);
      WalkVisitsEveryRowOnce(rows, next, protocol, host);
      var rest := Walk(rows, next, protocol, host);
      assert ([r.data] + rest)[1..] == rest;
    }
  }

  /** From the first page (no cursor in the request), following next links visits every
      row of the table exactly once, in increasing id order. */
  lemma FirstPageWalkVisitsAllRows(rows: seq<Post>, dto: PaginatePostDto, protocol: string, host: string)
    requires Continuable(rows, dto)
    requires !Truthy(Get(dto, MORE_THAN))
    ensures Flatten(Walk(rows, dto, protocol, host)) == rows
  {
    WalkVisitsEveryRowOnce(rows, dto, protocol, host);
    FilterAllMatch(rows, NoFilter);
  }

  // ---------------------------------------------------------------------------
  // Page-number pages
  // ---------------------------------------------------------------------------

  /** A window of `take` rows after the first `skip`. */
  lemma WindowShape(s: seq<Post>, skip: nat, take: nat)
    ensures var w := Prefix(Drop(s, skip), take);
      && |w| <= take
      && (forall p :: p in w ==> p in s)
      && (skip >= |s| ==> w == [])
      && (skip + take <= |s| ==> w == s[skip..skip + take])
      && (skip <= |s| <= skip + take ==> w == s[skip..])
  {
  }

  lemma SortedRowsAreRows(rows: seq<Post>, dir: Direction)
    ensures forall p :: p in SortByCreatedAt(rows, dir) <==> p in rows
  {
    var sorted := SortByCreatedAt(rows, dir);
    forall p
      ensures p in sorted <==> p in rows
    {
      assert p in sorted <==> p in multiset(sorted);
      assert p in rows <==> p in multiset(rows);
    }
  }

  /** A page-number page holds at most `take` rows of the table, those after the first
      `take * (page - 1)` in createdAt order; `total` is the number of rows, whatever
      the page and its size. */
  lemma PagePaginateShape(rows: seq<Post>, dto: PaginatePostDto)
    requires WellTyped(dto) && Get(dto, PAGE).Num? && Get(dto, PAGE).n >= 1
    ensures var r := PagePaginate(rows, dto);
      && r.total == |rows|
      && |r.data| <= TakeOf(dto)
      && (forall p :: p in r.data ==> p in rows)
      && (Skip(TakeOf(dto), Get(dto, PAGE).n) >= |rows| ==> r.data == [])
  {
    var sorted := SortByCreatedAt(rows, DirectionOf(dto));
    SortedRowsAreRows(rows, DirectionOf(dto));
    WindowOfRows(sorted, rows, Skip(TakeOf(dto), Get(dto, PAGE).n), TakeOf(dto));
  }

  /** Which rows of the `createdAt` order a page-number page holds: the `take` after the
      first `take * (page - 1)`, or all that remain after them when fewer are left. */
  lemma PagePaginateWindow(rows: seq<Post>, dto: PaginatePostDto)
    requires WellTyped(dto) && Get(dto, PAGE).Num? && Get(dto, PAGE).n >= 1
    ensures var r := PagePaginate(rows, dto);
      var sorted := SortByCreatedAt(rows, DirectionOf(dto));
      var skip, take := Skip(TakeOf(dto), Get(dto, PAGE).n), TakeOf(dto);
      && (skip + take <= |rows| ==> r.data == sorted[skip..skip + take])
      && (skip <= |rows| <= skip + take ==> r.data == sorted[skip..])
  {
    PageSliceCases(SortByCreatedAt(rows, DirectionOf(dto)), TakeOf(dto), Get(dto, PAGE).n);
  }

  lemma PageSliceCases(s: seq<Post>, take: nat, page: nat)
    requires page >= 1
    ensures var skip := Skip(take, page);
      && (skip + take <= |s| ==> PageSlice(s, take, page) == s[skip..skip + take])
      && (skip <= |s| <= skip + take ==> PageSlice(s, take, page) == s[skip..])
  {
    WindowShape(s, Skip(take, page), take);
  }

  /** A window over an ordering of the rows, in terms of the rows. */
  lemma WindowOfRows(sorted: seq<Post>, rows: seq<Post>, skip: nat, take: nat)
    requires |sorted| == |rows| && forall p :: p in sorted ==> p in rows
    ensures var w := Prefix(Drop(sorted, skip), take);
      && |w| <= take
      && (forall p :: p in w ==> p in rows)
      && (skip >= |rows| ==> w == [])
      && (skip + take <= |rows| ==> w == sorted[skip..skip + take])
      && (skip <= |rows| <= skip + take ==> w == sorted[skip..])
  {
    WindowShape(sorted, skip, take);
  }

  /** Pages 1 to k, each of `take` rows. */
  function FirstPages(s: seq<Post>, take: nat, k: nat): seq<seq<Post>>
  {
    if k == 0 then [] else FirstPages(s, take, k - 1) + [PageSlice(s, take, k)]
  }

  /** The first `a` rows followed by the `take` rows after them are the first `a + take`. */
  lemma PrefixThenWindow(s: seq<Post>, a: nat, take: nat)
    ensures Prefix(s, a) + Prefix(Drop(s, a), take) == Prefix(s, a + take)
  {
    if a + take <= |s| {
      assert s[..a + take] == s[..a] + s[a..][..take];
    } else if a <= |s| {
      assert s == s[..a] + s[a..];
    }
  }

  lemma SkipStep(take: nat, k: nat)
    requires k >= 1
    ensures Skip(take, k) + take == take * k
  {
  }

  /** Consecutive page-number pages tile the ordered rows: pages 1 to k are the first
      `k * take` rows, so once `k * take` reaches the row count every row is on exactly
      one page. */
  lemma {:induction false} PagesTile(s: seq<Post>, take: nat, k: nat)
    ensures Flatten(FirstPages(s, take, k)) == Prefix(s, take * k)
    ensures take * k >= |s| ==> Flatten(FirstPages(s, take, k)) == s
  {
    if k > 0 {
      var a, init, page := Skip(take, k), FirstPages(s, take, k - 1), PageSlice(s, take, k);
      assert Flatten(init) == Prefix(s, a) by {
        PagesTile(s, take, k - 1);
      }
      assert Flatten(init + [page]) == Flatten(init) + page by {
        FlattenAppend(init, [page]);
        assert Flatten([page]) == page + Flatten([]);
      }
      assert Prefix(s, a) + page == Prefix(s, take * k) by {
        PrefixThenWindow(s, a, take);
        SkipStep(take, k);
      }
    }
  }
}
