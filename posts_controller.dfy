/**
 * The early posts controller: a module-level list of posts, read, appended to, patched
 * and filtered by the route handlers. The list is the field `posts` of the controller.
 */
module PostsController {
  import opened Js

  datatype PostModel = PostModel(
    id: int,
    author: string,
    title: string,
    content: string,
    likeCount: int,
    commentCount: int)

  /** The two posts the list starts with. */
  function InitialPosts(): seq<PostModel>
  {
    [ PostModel(1, "string;", "string;", "string;", 3, 3),
      PostModel(2, "2;", "string;", "string;", 3, 3) ]
  }

  ghost predicate IdsIncreasing(posts: seq<PostModel>)
  {
    forall i, j :: 0 <= i < j < |posts| ==> posts[i].id < posts[j].id
  }

  /** A handler argument as it arrives: a number, or the object holding every route
      parameter by name (as strings). */
  datatype Argument = NumberArg(n: int) | ParamsObject(params: seq<(string, string)>)

  /** `post.id === arg`: strict equality holds only between numbers of equal value,
      never between a number and an object. */
  predicate StrictEqualsId(id: int, arg: Argument)
  {
    arg.NumberArg? && arg.n == id
  }

  /** `posts.find((post) => post.id === arg)`: the index of the first post that matches. */
  function FindMatching(posts: seq<PostModel>, arg: Argument): (r: Option<nat>)
    ensures r.Some? ==>
      && r.value < |posts| && StrictEqualsId(posts[r.value].id, arg)
      && forall k :: 0 <= k < r.value ==> !StrictEqualsId(posts[k].id, arg)
    ensures r.None? <==> forall k :: 0 <= k < |posts| ==> !StrictEqualsId(posts[k].id, arg)
  {
    if posts == [] then None
    else if StrictEqualsId(posts[0].id, arg) then Some(0)
    else
      var r := FindMatching(posts[1..], arg);
      if r.None? then None else Some(r.value + 1)
  }

  /** `posts.find((post) => post.id === id)` for a numeric id: the first post with that id. */
  function FindById(posts: seq<PostModel>, id: int): (r: Option<nat>)
    ensures r.Some? ==>
      && r.value < |posts| && posts[r.value].id == id
      && forall k :: 0 <= k < r.value ==> posts[k].id != id
    ensures r.None? <==> forall k :: 0 <= k < |posts| ==> posts[k].id != id
  {
    FindMatching(posts, NumberArg(id))
  }

  /** The value left after writing each truthy patch in turn over `current`: the last
      truthy patch, or `current` when none is truthy. */
  function LastTruthy(current: string, patches: seq<Option<string>>): string
  {
    if patches == [] then current
    else if TruthyString(patches[|patches| - 1]) then patches[|patches| - 1].value
    else LastTruthy(current, patches[..|patches| - 1])
  }

  /** The found post after `patchPosts` as written: every truthy field of the request is
      written to `author`, so the last truthy of author, title, content wins. */
  function PatchAsWritten(post: PostModel, author: Option<string>, title: Option<string>, content: Option<string>): PostModel
  {
    post.(author := LastTruthy(post.author, [author, title, content]))
  }

  /** The patch evidently intended: each truthy field of the request replaces the field
      of the same name. */
  function PatchIntended(post: PostModel, author: Option<string>, title: Option<string>, content: Option<string>): PostModel
  {
    post.(
      author := if TruthyString(author) then author.value else post.author,
      title := if TruthyString(title) then title.value else post.title,
      content := if TruthyString(content) then content.value else post.content)
  }

  /** `posts.map((prevPost) => (prevPost.id === id ? post : prevPost))`. */
  function Replaced(posts: seq<PostModel>, id: int, post: PostModel): seq<PostModel>
  {
    seq(|posts|, k requires 0 <= k < |posts| => if posts[k].id == id then post else posts[k])
  }

  /** `posts.filter((post) => post.id !== id)`. */
  function Removed(posts: seq<PostModel>, id: int): seq<PostModel>
  {
    if posts == [] then []
    else (if posts[0].id != id then [posts[0]] else []) + Removed(posts[1..], id)
  }

  class PostsController {
    /** The module-level list of posts. */
    var posts: seq<PostModel>

    ghost predicate Valid()
      reads this
    {
      IdsIncreasing(posts)
    }

    constructor ()
      ensures Valid() && posts == InitialPosts()
    {
      posts := InitialPosts();
    }

    /** `getPosts`: the whole list. */
    method GetPosts() returns (r: seq<PostModel>)
      ensures r == posts
    {
      r := posts;
    }

    /** `getPost` as written: the argument is whatever `@Param()` injects, and the
        first post strictly equal to it is returned, or NotFound. */
    method GetPostAsWritten(arg: Argument) returns (r: Result<PostModel>)
      ensures r.Ok? ==>
        exists k :: 0 <= k < |posts| && posts[k] == r.value && StrictEqualsId(posts[k].id, arg) &&
          forall j :: 0 <= j < k ==> !StrictEqualsId(posts[j].id, arg)
      ensures r.Err? <==> forall k :: 0 <= k < |posts| ==> !StrictEqualsId(posts[k].id, arg)
      ensures r.Err? ==> r.error == NotFoundException
    {
      var k := FindMatching(posts, arg);
      if k.None? {
        return Err(NotFoundException);
      }
      r := Ok(posts[k.value]);
    }

    /** `getPost` as evidently intended, with the numeric `id` route parameter: the first
        post with that id, or NotFound. */
    method GetPost(id: int) returns (r: Result<PostModel>)
      ensures r.Ok? ==>
        && r.value.id == id
        && exists k :: 0 <= k < |posts| && posts[k] == r.value && forall j :: 0 <= j < k ==> posts[j].id != id
      ensures r.Err? <==> forall k :: 0 <= k < |posts| ==> posts[k].id != id
      ensures r.Err? ==> r.error == NotFoundException
    {
      var k := FindById(posts, id);
      if k.None? {
        return Err(NotFoundException);
      }
      r := Ok(posts[k.value]);
    }

    /** `postPosts`: appends a post whose id is one more than the last post's; on an empty
        list reading the last post's id throws a TypeError and nothing changes. */
    method PostPosts(author: string, title: string, content: string) returns (r: Result<PostModel>)
      requires Valid()
      modifies this
      ensures Valid()
      ensures old(posts) == [] ==> r == Err(TypeError) && posts == old(posts)
      ensures old(posts) != [] ==>
        && r == Ok(PostModel(old(posts)[|old(posts)| - 1].id + 1, author, title, content, 0, 0))
        && posts == old(posts) + [r.value]
    {
      if |posts| == 0 {
        return Err(TypeError);
      }
      var post := PostModel(posts[|posts| - 1].id + 1, author, title, content, 0, 0);
      AppendNextIdKeepsIncreasing(posts, post);
      posts := posts + [post];
      r := Ok(post);
    }

    /** `patchPosts`: NotFound for an unknown id; otherwise each truthy field of the request
        is written to the found post's `author`, in the order author, title, content, and
        every post with that id is replaced by the patched post. */
    method PatchPosts(id: int, author: Option<string>, title: Option<string>, content: Option<string>)
      returns (r: Result<PostModel>)
      requires Valid()
      modifies this
      ensures Valid()
      ensures FindById(old(posts), id).None? ==> r == Err(NotFoundException) && posts == old(posts)
      ensures FindById(old(posts), id).Some? ==>
        var found := old(posts)[FindById(old(posts), id).value];
        && r == Ok(PatchAsWritten(found, author, title, content))
        && posts == Replaced(old(posts), id, r.value)
    {
      var k := FindById(posts, id);
      if k.None? {
        return Err(NotFoundException);
      }
      var post := posts[k.value];
      ghost var old_author := post.author;
      ghost var patches := [author, title, content];
      assert patches[..1][..0] == [] && patches[..1][0] == author;
      if TruthyString(author) {
        post := post.(author := author.value);
      }
      assert post.author == LastTruthy(old_author, patches[..1]);
      assert patches[..2][..1] == patches[..1] && patches[..2][1] == title;
      if TruthyString(title) {
        post := post.(author := title.value);
      }
      assert post.author == LastTruthy(old_author, patches[..2]);
      assert patches[..3][..2] == patches[..2] && patches[..3][2] == content;
      if TruthyString(content) {
        post := post.(author := content.value);
      }
      assert patches[..3] == patches;
      assert post.author == LastTruthy(old_author, patches);
      posts := Replaced(posts, id, post);
      r := Ok(post);
    }

    /** `patchPosts` as evidently intended: the same lookup and replacement, but each
        truthy field of the request replaces the field of the same name. */
    method PatchPostsIntended(id: int, author: Option<string>, title: Option<string>, content: Option<string>)
      returns (r: Result<PostModel>)
      requires Valid()
      modifies this
      ensures Valid()
      ensures FindById(old(posts), id).None? ==> r == Err(NotFoundException) && posts == old(posts)
      ensures FindById(old(posts), id).Some? ==>
        var k := FindById(old(posts), id).value;
        && r == Ok(PatchIntended(old(posts)[k], author, title, content))
        && posts == old(posts)[k := r.value]
    {
      var k := FindById(posts, id);
      if k.None? {
        return Err(NotFoundException);
      }
      var post := posts[k.value];
      if TruthyString(author) {
        post := post.(author := author.value);
      }
      if TruthyString(title) {
        post := post.(title := title.value);
      }
      if TruthyString(content) {
        post := post.(content := content.value);
      }
      ReplacedIsPointUpdate(posts, id, post);
      posts := Replaced(posts, id, post);
      r := Ok(post);
    }

    /** `deletePosts`: drops every post with that id and returns the id; never throws. */
    method DeletePosts(id: int) returns (r: int)
      requires Valid()
      modifies this
      ensures Valid()
      ensures r == id && posts == Removed(old(posts), id)
    {
      RemovedKeepsIncreasing(posts, id);
      posts := Removed(posts, id);
      r := id;
    }
  }

  // ---------------------------------------------------------------------------
  // Properties of the handlers
  // ---------------------------------------------------------------------------

  /** Appending a post with the last id plus one keeps ids strictly increasing. */
  lemma AppendNextIdKeepsIncreasing(posts: seq<PostModel>, post: PostModel)
    requires IdsIncreasing(posts) && posts != []
    requires post.id == posts[|posts| - 1].id + 1
    ensures IdsIncreasing(posts + [post])
  {
    var after := posts + [post];
    forall i, j | 0 <= i < j < |after|
      ensures after[i].id < after[j].id
    {
      assert after[i] == posts[i];
      if j < |posts| {
        assert after[j] == posts[j];
      } else if i < |posts| - 1 {
        assert posts[i].id < posts[|posts| - 1].id;
      }
    }
  }

  lemma {:induction false} RemovedKeepsIncreasing(posts: seq<PostModel>, id: int)
    requires IdsIncreasing(posts)
    ensures IdsIncreasing(Removed(posts, id))
  {
    if posts != [] {
      var t := Removed(posts[1..], id);
      IncreasingTail(posts);
      RemovedMembers(posts[1..], id);
      RemovedKeepsIncreasing(posts[1..], id);
      if posts[0].id != id {
        forall m | 0 <= m < |t|
          ensures posts[0].id < t[m].id
        {
          assert t[m] in t;
          var n :| 0 <= n < |posts[1..]| && posts[1..][n] == t[m];
        }
        IncreasingCons(posts[0], t);
      }
    }
  }

  /** With increasing ids, replacing every post that has the id is replacing the one found,
      and patching keeps the ids, so the list stays increasing and its length is kept. */
  lemma ReplacedIsPointUpdate(posts: seq<PostModel>, id: int, post: PostModel)
    requires IdsIncreasing(posts) && FindById(posts, id).Some?
    ensures var k := FindById(posts, id).value;
      Replaced(posts, id, post) == posts[k := post]
    ensures post.id == id ==> IdsIncreasing(Replaced(posts, id, post))
  {
    var k := FindById(posts, id).value;
    var r := Replaced(posts, id, post);
    forall j | 0 <= j < |posts|
      ensures r[j] == posts[k := post][j]
    {
      if j != k {
        assert posts[j].id != posts[k].id;
      }
    }
  }

  /** `i` is the last truthy patch. */
  ghost predicate LastTruthyAt(patches: seq<Option<string>>, i: int)
  {
    && 0 <= i < |patches| && TruthyString(patches[i])
    && forall j :: i < j < |patches| ==> !TruthyString(patches[j])
  }

  /** The field written by successive truthy patches holds the value of the last truthy
      patch, or its old value when no patch is truthy. */
  lemma {:induction false} LastTruthyIsLast(current: string, patches: seq<Option<string>>)
    ensures (forall i :: 0 <= i < |patches| ==> !TruthyString(patches[i])) ==>
      LastTruthy(current, patches) == current
    ensures forall i :: LastTruthyAt(patches, i) ==> LastTruthy(current, patches) == patches[i].value
  {
    if patches != [] {
      var front := patches[..|patches| - 1];
      var last := |patches| - 1;
      LastTruthyIsLast(current, front);
      forall i | LastTruthyAt(patches, i)
        ensures LastTruthy(current, patches) == patches[i].value
      {
        if i < last {
          assert !TruthyString(patches[last]);
          assert LastTruthyAt(front, i) by {
            forall j | i < j < |front|
              ensures !TruthyString(front[j])
            {
              assert front[j] == patches[j];
            }
            assert front[i] == patches[i];
          }
        }
      }
      if forall i :: 0 <= i < |patches| ==> !TruthyString(patches[i]) {
        assert forall i :: 0 <= i < |front| ==> front[i] == patches[i];
      }
    }
  }

  /** As written, a patch never changes title or content: `author` takes the content if
      it is truthy, else the title if it is truthy, else the author if it is truthy. */
  lemma PatchAsWrittenRule(post: PostModel, author: Option<string>, title: Option<string>, content: Option<string>)
    ensures var r := PatchAsWritten(post, author, title, content);
      && r.(author := post.author) == post
      && r.author == (if TruthyString(content) then content.value
                      else if TruthyString(title) then title.value
                      else if TruthyString(author) then author.value
                      else post.author)
  {
    var patches := [author, title, content];
    LastTruthyIsLast(post.author, patches);
    if TruthyString(content) {
      assert LastTruthyAt(patches, 2);
    } else if TruthyString(title) {
      assert LastTruthyAt(patches, 1);
    } else if TruthyString(author) {
      assert LastTruthyAt(patches, 0);
    }
  }

  /** The discrepancy: patching the first post's title leaves its title as it was and
      writes the new title into its author. */
  lemma PatchAsWrittenMisplacesTitle()
    ensures var p := InitialPosts()[0];
      var r := PatchAsWritten(p, None, Some("new title"), None);
      r.title == "string;" != "new title" && r.author == "new title"
  {
    PatchAsWrittenRule(InitialPosts()[0], None, Some("new title"), None);
  }

  /** The intended patch: each field takes its truthy patch or keeps its value, id and
      counters never change, and patching twice is patching once. */
  lemma PatchIntendedRule(post: PostModel, author: Option<string>, title: Option<string>, content: Option<string>)
    ensures var r := PatchIntended(post, author, title, content);
      && r.author == (if TruthyString(author) then author.value else post.author)
      && r.title == (if TruthyString(title) then title.value else post.title)
      && r.content == (if TruthyString(content) then content.value else post.content)
      && r.id == post.id && r.likeCount == post.likeCount && r.commentCount == post.commentCount
      && PatchIntended(r, author, title, content) == r
  {
  }

  /** The discrepancy: `@Param()` with no name injects the route-parameter object, which
      is never strictly equal to a post id, so `getPost` finds nothing whatever the list. */
  lemma ParamsObjectNeverFound(posts: seq<PostModel>, params: seq<(string, string)>)
    ensures FindMatching(posts, ParamsObject(params)) == None
    ensures posts == InitialPosts() ==> FindById(posts, 1) == Some(0)
  {
    if posts == InitialPosts() {
      assert posts[0].id == 1;
    }
  }

  /** A post with an id below every id of an increasing list can go in front of it. */
  lemma IncreasingCons(p: PostModel, t: seq<PostModel>)
    requires IdsIncreasing(t)
    requires forall m :: 0 <= m < |t| ==> p.id < t[m].id
    ensures IdsIncreasing([p] + t)
  {
    var r := [p] + t;
    forall i, j | 0 <= i < j < |r|
      ensures r[i].id < r[j].id
    {
      assert r[j] == t[j - 1];
      if i > 0 { assert r[i] == t[i - 1]; }
    }
  }

  lemma IncreasingTail(posts: seq<PostModel>)
    requires IdsIncreasing(posts) && posts != []
    ensures IdsIncreasing(posts[1..])
    ensures forall m :: 0 <= m < |posts| - 1 ==> posts[0].id < posts[1..][m].id
  {
    assert forall m :: 0 <= m < |posts| - 1 ==> posts[1..][m] == posts[m + 1];
  }

  /** Deleting keeps exactly the posts whose id differs. */
  lemma {:induction false} RemovedMembers(posts: seq<PostModel>, id: int)
    ensures forall p :: p in Removed(posts, id) <==> p in posts && p.id != id
  {
    if posts != [] {
      RemovedMembers(posts[1..], id);
      assert posts == [posts[0]] + posts[1..];
    }
  }

  /** Deleting an id no post has leaves the list as it was. */
  lemma {:induction false} RemovedAbsent(posts: seq<PostModel>, id: int)
    requires FindById(posts, id).None?
    ensures Removed(posts, id) == posts
  {
    if posts != [] {
      assert FindById(posts[1..], id).None?;
      RemovedAbsent(posts[1..], id);
      assert posts == [posts[0]] + posts[1..];
    }
  }

  /** With increasing ids, deleting an id that is present removes the one post found and
      keeps the others in order. */
  lemma {:induction false} RemovedIsPointDelete(posts: seq<PostModel>, id: int)
    requires IdsIncreasing(posts) && FindById(posts, id).Some?
    ensures var k := FindById(posts, id).value;
      Removed(posts, id) == posts[..k] + posts[k + 1..]
  {
    var k := FindById(posts, id).value;
    forall m | 0 <= m < |posts| && m != k
      ensures posts[m].id != posts[k].id
    {
      assert m < k ==> posts[m].id < posts[k].id;
      assert m > k ==> posts[k].id < posts[m].id;
    }
    RemovedAt(posts, k);
  }

  /** Deleting the id of the post at `k`, when no other post has that id, removes that
      post only. */
  lemma {:induction false} RemovedAt(posts: seq<PostModel>, k: nat)
    requires k < |posts|
    requires forall m :: 0 <= m < |posts| && m != k ==> posts[m].id != posts[k].id
    ensures Removed(posts, posts[k].id) == posts[..k] + posts[k + 1..]
  {
    var id := posts[k].id;
    var rest := posts[1..];
    assert Removed(posts, id) == (if posts[0].id != id then [posts[0]] else []) + Removed(rest, id);
    if k == 0 {
      forall m | 0 <= m < |rest|
        ensures rest[m].id != id
      {
        assert rest[m] == posts[m + 1];
      }
      RemovedAbsent(rest, id);
      assert posts[k + 1..] == rest;
    } else {
      forall m | 0 <= m < |rest| && m != k - 1
        ensures rest[m].id != rest[k - 1].id
      {
        assert rest[m] == posts[m + 1];
      }
      assert rest[k - 1] == posts[k] && posts[0].id != id;
      RemovedAt(rest, k - 1);
      assert posts[..k] + posts[k + 1..] == [posts[0]] + (rest[..k - 1] + rest[k..]);
    }
  }
}
