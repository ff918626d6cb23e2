# Posts core of a NestJS blog backend, in Dafny

This project models the posts core of a NestJS/TypeORM blog backend and proves
properties of it. The core has three parts.

- **Post pagination and the post operations of `PostsService`**
  (`src/posts/posts.service.ts`).
  - Cursor pagination chooses one id condition from the two optional cursor bounds. It
    fetches at most `take` rows ordered by `createdAt`. When the page is full, it builds
    a `next` link: every truthy request entry except the two cursor keys, in key order,
    then one new cursor pair.
  - Page-number pagination skips `take * (page - 1)` rows and reports the total row
    count.
  - The create, read, update and delete operations act on the posts table.
- **The in-memory post list of the early `PostsController`**
  (`src/posts/posts.controller.ts`). It is a module-level array that the route handlers
  read, append to, patch and filter.
- **The upload rules of `CommonModule`** (`src/common/common.module.ts`).
  - The `fileFilter` accepts a file only when Node's `path.extname` of its original name
    is `.jpg`, `.jpeg` or `.png`.
  - The `filename` rule stores the file under a generated id followed by that
    extension.

Files:

- `js.dfy` (module `Js`): the JavaScript semantics the core relies on:
  - `undefined`, numbers and strings in a request, and their truthiness;
  - thrown HTTP exceptions as a `Result`;
  - `String(n)` and `Number(s)` for integers.
- `pagination.dfy` (module `Pagination`):
  - the `Post` row;
  - the repository query, abstracted as filter on id, stable sort on `createdAt`, then
    limit;
  - the request object, as its entries in `Object.keys` order;
  - the cursor page with its `next` URL, given as protocol, host, path and the ordered
    list of query pairs that `URLSearchParams.append` builds;
  - the page-number page;
  - reading a `next` link back as a request.
- `pagination_properties.dfy` (module `PaginationProperties`): the properties of both
  pagination modes. The main one: a client that keeps following `next` links from an
  ascending request without a `where__id__less_than` bound visits every row it selects
  exactly once, in table order, when ids are positive and rows with equal `createdAt`
  come back in id order.
- `posts_service.dfy` (module `Posts`):
  - the class `PostsService`, whose field `rows` is the table behind the repository, in
    creation order;
  - `CursorPaginatePosts`, written out with its loop over the request keys (`EchoQuery`) and proved
    equal to the pagination function;
  - the create, read, update and delete methods.
- `posts_controller.dfy` (module `PostsController`): the class `PostsController`, whose
  field `posts` is the module-level list.
- `upload.dfy` (module `Upload`): POSIX `path.extname`, the filter and the filename rule.

## Model

| member | source | states |
|---|---|---|
| `Js.IntToStringRoundTrip` | src/posts/posts.service.ts:175 | The decimal text written for an id into the next link reads back with `Number` as the same id, negative ids included. |
| `Pagination.Filter` | src/posts/posts.service.ts:119-133 | The `where.id` condition keeps exactly the rows that meet it and never adds rows. |
| `Pagination.SortByCreatedAt` | src/posts/posts.service.ts:127-131 | The order on `createdAt` is a permutation of the rows, sorted ascending for 'ASC' and descending otherwise. |
| `Pagination.EchoEntries` | src/posts/posts.service.ts:156-165 | An entry is copied into the next link exactly when its value is truthy and its key is neither cursor key. |
| `PaginationProperties.EchoEntriesInOrder` | src/posts/posts.service.ts:156-165 | The copied entries are a subsequence of the request: the loop skips entries but keeps the key order. |
| `Pagination.EchoPairs` | src/posts/posts.service.ts:156-165 | The copied query pairs are the copied entries in key order, each value as `String(value)`. |
| `PaginationProperties.CursorWherePrecedence` | src/posts/posts.service.ts:121-125 | `more_than` is used exactly when `less_than` is falsy and `more_than` truthy. Then the bound is its non-zero value, so `?? 0` is never taken. With both falsy there is no condition, and a row matches exactly the truthy bound's comparison. |
| `PaginationProperties.LessThanTakesPrecedence` | src/posts/posts.service.ts:121-122 | With a truthy `less_than`, the condition is `id < less_than` whatever `more_than` holds. |
| `PaginationProperties.CursorPageShape` | src/posts/posts.service.ts:127-196 | The page holds at most `take` rows that meet the condition, in `createdAt` order, and `count` is its length. `after` and `next` exist exactly when the page is exactly `take` long. Then `after` is the last row's id and `next` is `protocol://host/posts` with the next query. A short page holds every remaining row. |
| `PaginationProperties.NextIffFull` | src/posts/posts.service.ts:138-148 | A page is never longer than `take`, and it has a next link exactly when it is full. |
| `PaginationProperties.NextQueryShape` | src/posts/posts.service.ts:156-175 | The next query is every truthy non-cursor entry (and only those, as `String(value)`), then one last pair. That pair is `where__id__more_than` for 'ASC' and `where__id__less_than` otherwise, holding the last id in decimal. No other pair has a cursor key. |
| `PaginationProperties.EchoRoundTrip` | src/posts/posts.service.ts:156-165 | Reading the copied pairs back as a request gives back the copied entries. |
| `PaginationProperties.NextQueryRoundTrip` | src/posts/posts.service.ts:156-175 | Reading the next query back as a request gives the copied entries followed by the new cursor entry. |
| `PaginationProperties.NextRequestWellTyped` | src/posts/posts.service.ts:156-175 | The request read back from a next link is as valid as the request: one value per key, declared types, and the same `take` and order as the request. |
| `PaginationProperties.NextRequestKeepsRequest` | src/posts/posts.service.ts:118-175 | The request behind a next link is valid. It keeps `take`, the order and every other truthy entry, and drops falsy ones. Its cursor key holds the last id, and its condition is `id > last` for 'ASC' and `id < last` otherwise. A last id of 0 gives no condition. |
| `PaginationProperties.NextPageContinues` | src/posts/posts.service.ts:118-196 | Ascending and without a `where__id__less_than` bound, over rows in creation order with positive ids and ties in `createdAt` returned in id order: a page without a next link holds every remaining selected row. A page with one is non-empty, and the selected rows are this page followed by those the next link's request selects. |
| `PaginationProperties.WalkShape` | src/posts/posts.service.ts:138-148 | From an ascending request without a `where__id__less_than` bound, over rows with positive ids, with ties in `createdAt` returned in id order: following next links until there is none gives a sequence of full pages, then one short page. |
| `PaginationProperties.WalkVisitsEveryRowOnce` | src/posts/posts.service.ts:118-196 | Following next links from an ascending request without a `where__id__less_than` bound, over rows with positive ids, with ties in `createdAt` returned in id order, visits exactly the rows it selects, each once, in table order. |
| `PaginationProperties.FirstPageWalkVisitsAllRows` | src/posts/posts.service.ts:118-196 | From an ascending first-page request (no cursor), over rows with positive ids, with ties in `createdAt` returned in id order, following next links visits every row of the table exactly once, in increasing id order. |
| `PaginationProperties.PagePaginateShape` | src/posts/posts.service.ts:96-115 | `total` is the row count whatever `page` and `take` are. `data` holds at most `take` rows, all of them rows of the table, and nothing once `take * (page - 1)` reaches the row count. |
| `PaginationProperties.PagePaginateWindow` | src/posts/posts.service.ts:100-109 | `data` is the `take` rows after the first `take * (page - 1)` in `createdAt` order, or all that remain after them when fewer are left. |
| `PaginationProperties.PagesTile` | src/posts/posts.service.ts:103-105 | Pages 1 to k are the first `take * k` ordered rows, so consecutive pages cover every row exactly once. |
| `Posts.PostsService.EchoQuery` | src/posts/posts.service.ts:156-165 | The loop over `Object.keys(dto)` builds exactly the copied query pairs: each truthy non-cursor entry, in key order, as `String(value)`. |
| `Posts.PostsService.CursorPaginatePosts` | src/posts/posts.service.ts:118-197 | The whole method, with that loop, computes exactly the cursor page specified by the pagination function. |
| `Posts.PostsService.GetPostById` | src/posts/posts.service.ts:199-212 | It returns a stored row with that id, and raises NotFound exactly when no row has it. |
| `Posts.PostsService.CreatePost` | src/posts/posts.service.ts:244-258 | It appends one row with the given author, title and content, no images and zero counters, under the id and timestamp the database assigns. The table stays in creation order. |
| `Posts.PostsService.GeneratePosts` | src/posts/posts.service.ts:70-78 | It appends exactly 100 posts by the user, the i-th with the i-th generated title and content, and keeps every earlier row. |
| `Posts.PostsService.UpdatePost` | src/posts/posts.service.ts:260-284 | An absent id raises NotFound and changes nothing. Otherwise only the found row changes, by the truthy-only update rule. |
| `Posts.PostsService.DeletePost` | src/posts/posts.service.ts:286-300 | An absent id raises NotFound and changes nothing. Otherwise every row with that id is removed and the id is returned. |
| `Posts.IndexOfId` | src/posts/posts.service.ts:263-267 | It gives the first row with the id, and nothing exactly when no row has it. |
| `Posts.WithoutId` | src/posts/posts.service.ts:297 | The rows left are exactly those whose id differs. |
| `Posts.AppendKeepsOrder` | src/posts/posts.service.ts:244-258 | A saved row with a fresh id and timestamp keeps ids increasing and timestamps non-decreasing. |
| `Posts.WithoutIdKeepsOrder` | src/posts/posts.service.ts:297 | Deleting keeps the table in creation order. |
| `Posts.ApplyUpdateRule` | src/posts/posts.service.ts:273-279 | Title and content are replaced only by truthy values, so an empty string keeps the old value. Every other field is unchanged. |
| `Posts.ApplyUpdateIdempotent` | src/posts/posts.service.ts:273-279 | Applying an update twice is applying it once, and an update with no truthy field changes nothing. |
| `Posts.GetAfterCreate` | src/posts/posts.service.ts:244-258 | After a create, looking up the new id finds the new row. |
| `Posts.GetAfterUpdate` | src/posts/posts.service.ts:260-284 | After an update, looking up the id finds the updated row at the same place. |
| `Posts.GetAfterDelete` | src/posts/posts.service.ts:286-300 | After a delete the id is no longer found, and every other row is still there. |
| `Posts.GeneratedPostsDistinct` | src/posts/posts.service.ts:71-76 | Different indices give different generated titles and different generated contents. |
| `PostsController.PostsController.constructor` | src/posts/posts.controller.ts:23-40 | The list starts with posts 1 and 2 as declared, ids increasing. |
| `PostsController.PostsController.GetPosts` | src/posts/posts.controller.ts:46-49 | It returns the whole list. |
| `PostsController.PostsController.GetPostAsWritten` | src/posts/posts.controller.ts:51-60 | It returns the first post strictly equal to the injected argument, and raises NotFound exactly when there is none. |
| `PostsController.PostsController.GetPost` | src/posts/posts.controller.ts:51-60 | With a numeric id: the first post with that id, with NotFound exactly when no post has it. |
| `PostsController.PostsController.PostPosts` | src/posts/posts.controller.ts:62-80 | On a non-empty list it appends a post with id last id + 1, zero counters and the given fields, and returns it. Ids stay increasing. On an empty list it throws a TypeError and changes nothing. |
| `PostsController.PostsController.PatchPosts` | src/posts/posts.controller.ts:82-110 | An absent id raises NotFound and changes nothing. Otherwise the found post is patched as written, every post with that id is replaced by it, and ids stay increasing. |
| `PostsController.PostsController.PatchPostsIntended` | src/posts/posts.controller.ts:82-110 | The corrected patch: each truthy field replaces the field of the same name, and only the found post changes. |
| `PostsController.PostsController.DeletePosts` | src/posts/posts.controller.ts:112-117 | Every post with that id is dropped and the id is returned, even when it is absent. Ids stay increasing. |
| `PostsController.FindMatching` | src/posts/posts.controller.ts:53 | `find` gives the first post strictly equal to the argument, and nothing exactly when none is. |
| `PostsController.FindById` | src/posts/posts.controller.ts:89 | `find` with a numeric id gives the first post with that id, and nothing exactly when none has it. |
| `PostsController.ParamsObjectNeverFound` | src/posts/posts.controller.ts:52-53 | The route-parameter object is never strictly equal to a post id, so `getPost` as written finds nothing, even where a numeric lookup finds post 1. |
| `PostsController.LastTruthyIsLast` | src/posts/posts.controller.ts:95-105 | After the three conditional writes, the field holds the last truthy patch, or its old value when none is truthy. |
| `PostsController.PatchAsWrittenRule` | src/posts/posts.controller.ts:95-105 | As written, title and content never change. `author` becomes the content if it is truthy, else the title if it is truthy, else the author if it is truthy, else it is unchanged. |
| `PostsController.PatchAsWrittenMisplacesTitle` | src/posts/posts.controller.ts:99-101 | Patching post 1's title leaves the title "string;" and puts the new title into `author`. |
| `PostsController.PatchIntendedRule` | src/posts/posts.controller.ts:95-105 | In the corrected patch each field takes its truthy patch or keeps its value. Id and counters never change, and patching twice is patching once. |
| `PostsController.AppendNextIdKeepsIncreasing` | src/posts/posts.controller.ts:68-77 | Appending a post with the last id + 1 keeps ids strictly increasing. |
| `PostsController.ReplacedIsPointUpdate` | src/posts/posts.controller.ts:107 | With increasing ids, replacing every post with the id replaces only the one found. A patch that keeps the id keeps ids increasing and the length unchanged. |
| `PostsController.RemovedMembers` | src/posts/posts.controller.ts:114 | The filtered list holds exactly the posts whose id differs. |
| `PostsController.RemovedAbsent` | src/posts/posts.controller.ts:114 | Deleting an id no post has leaves the list as it was. |
| `PostsController.RemovedIsPointDelete` | src/posts/posts.controller.ts:114 | With increasing ids, deleting a present id removes just the post found and keeps the others in order. |
| `PostsController.RemovedAt` | src/posts/posts.controller.ts:114 | When no other post shares the id of the post at index k, filtering on that id removes exactly that post and keeps the rest in order. |
| `PostsController.RemovedKeepsIncreasing` | src/posts/posts.controller.ts:114 | Deleting keeps ids strictly increasing. |
| `Upload.FileFilter` | src/common/common.module.ts:21-39 | The callback accepts exactly when the extension is `.jpg`, `.jpeg` or `.png`. It gets a null error exactly when it accepts, and otherwise the BadRequest error with the upload message. |
| `Upload.ExtnameShape` | src/common/common.module.ts:29 | An extension is empty, or a '.' followed by characters that are neither '.' nor '/', ending the name once trailing slashes are trimmed. |
| `Upload.ExtnameOfDottedName` | src/common/common.module.ts:28-29 | A non-empty stem without '/' followed by an extension has that extension (for example `xxx.jpg` gives `.jpg`), the name `..` aside. |
| `Upload.DottedNameFiltered` | src/common/common.module.ts:29-38 | A plain stem plus an extension is accepted exactly when the extension is an image extension. |
| `Upload.ImageNamesAccepted` | src/common/common.module.ts:29-38 | A plain stem followed by `.jpg`, `.jpeg` or `.png` is accepted with a null error. |
| `Upload.UpperCaseExtensionsRejected` | src/common/common.module.ts:31-36 | The match is case-sensitive, so `.JPG`, `.JPEG` and `.PNG` are refused. |
| `Upload.DotfilesRejected` | src/common/common.module.ts:29-36 | A dotfile such as `.png` has no extension and is refused. |
| `Upload.NoDotNoExtension` | src/common/common.module.ts:29 | A name without '.' has the empty extension. |
| `Upload.NamesWithoutDotRejected` | src/common/common.module.ts:29-36 | A name without '.' is refused with the BadRequest error. |
| `Upload.AcceptedNamesEndWithImageExtension` | src/common/common.module.ts:29-38 | An accepted name ends (before trailing slashes) with `.jpg`, `.jpeg` or `.png` after at least one character. |
| `Upload.StoredFilenameKeepsExtension` | src/common/common.module.ts:44-47 | The stored name (a generated id without '.' or '/', then the original extension) has the original's extension, so the filter treats it the same way. |

## Left out

- `createPostImage`, `paginatePosts` and `getAllPosts` are not modelled.
  - `createPostImage` is filesystem `access`/`rename` calls and an image-table save.
  - `paginatePosts` delegates to `CommonService.paginate`, which is not part of this
    model.
  - `getAllPosts` is a plain `find`.
- The ORM is abstract.
  - `find` and `findAndCount` are a filter on id, a stable sort on `createdAt` and a
    limit over the table.
  - SQL semantics, relations (`DEFAULT_POST_FIND_OPTIONS`, the author and image joins),
    storage faults and `updatedAt` are not modelled.
- Ids and `createdAt` timestamps are assigned by the database. They are parameters of
  `CreatePost` and `GeneratePosts`, constrained only to be fresh.
- Posts.PostsService.CursorPaginatePosts: it requires the request as upstream
  validation lets it through:
  - one value per key, of its declared type;
  - `take` at least 1;
  - `order__createdAt` 'ASC' or 'DESC'.

  What the ORM does with `take` 0, a negative `take` or a string bound is outside the
  model.
- PaginationProperties.PagePaginateShape: it also requires `page` to be a number of at
  least 1. A missing or non-positive `page` gives the database a negative or NaN skip,
  which is outside the model.
- PaginationProperties.PagePaginateWindow: it requires `page` to be a number of at least
  1, for the same reason.
- PaginationProperties.NextPageContinues, `WalkShape`, `WalkVisitsEveryRowOnce` and
  `FirstPageWalkVisitsAllRows` rely on the model's stable sort: rows with equal
  `createdAt` come back in id order. SQL's `ORDER BY "createdAt"` promises no order for
  ties. If the database returned post 2 before post 1 with the same `createdAt` and
  `take` 1, the next link would ask for `id > 2` and post 1 would never be visited.
- PaginationProperties.NextPageContinues, `WalkShape`, `WalkVisitsEveryRowOnce` and
  `FirstPageWalkVisitsAllRows` exclude a truthy
  `where__id__less_than`. On an ascending request with that bound, the next link drops
  it and appends `where__id__more_than` with the last id
  (`PaginationProperties.NextRequestKeepsRequest`). The following pages then run past
  the bound, so the walk does not stay within the rows the first request selects.
- PaginationProperties.NextPageContinues, `WalkShape`, `WalkVisitsEveryRowOnce` and
  `FirstPageWalkVisitsAllRows` require positive ids, as the database assigns them. A
  last id of 0 would make the next link's `where__id__more_than=0` falsy, so it would
  set no condition and the client would get the first page again
  (`PaginationProperties.NextRequestKeepsRequest`).
- PostsController.PostsController.PostPosts takes `author`, `title` and `content` as
  strings. An absent body field makes the source store `undefined` in the new post;
  the model cannot represent that.
- PaginationProperties.WalkShape, `WalkVisitsEveryRowOnce` and
  `FirstPageWalkVisitsAllRows` cover ascending requests only. Descending cursor
  pagination is modelled and its next link is proved correct. That following
  descending links visits every row is not proved: rows with equal
  `createdAt` come back in table order, not reverse id order.
- Numbers are unbounded integers. Doubles, `NaN`, precision loss above 2^53 and
  `Number` of non-decimal text are not modelled.
- URL percent-encoding and `URL#toString` are not modelled. `next` is the URL's
  protocol, host, path and ordered query pairs.
- The protocol and host come from `ConfigService` in the source. Here they are
  parameters.
- Multer is not modelled: the file size limit, the destination folder and the
  callback plumbing. The `uuid()` value is a parameter of `StoredFilename`.
- `async`/`await` is not modelled. Each operation runs to completion, as one request
  does.
- PostsController.PostsController.PatchPosts: `patchPosts` mutates the found post
  object in place, and an array already returned by `getPosts` shares it. The model
  works on values, so this aliasing is not captured.
- PostsController.PostsController.PatchPosts and `DeletePosts` take the id as the
  number the handlers declare. Whether route parameters are converted from strings
  depends on application setup that is not part of this model.
- The `?? 0` on src/posts/posts.service.ts:124 sits inside the branch taken only when
  `where__id__more_than` is truthy, so it is unreachable and a falsy bound gives no
  condition (`PaginationProperties.CursorWherePrecedence`).

## Findings

| source | as written | input that shows it | evidently intended | confidence | as-written member | corrected member |
|---|---|---|---|---|---|---|
| src/posts/posts.controller.ts:99-105 | `patchPosts` assigns a truthy `title` and a truthy `content` to `post.author` | patch post 1 with only `title: "new title"`: its title stays "string;" and its author becomes "new title" | the title patch sets `post.title` and the content patch sets `post.content` | high (not executed) | `PostsController.PatchAsWrittenMisplacesTitle` | `PostsController.PostsController.PatchPostsIntended` |
| src/posts/posts.controller.ts:52-53 | `getPost` takes `@Param()` with no name, so it receives the whole route-parameter object and compares it with `===` to numeric ids | `GET /posts/1` on the initial list: the object `{ id: "1" }` equals no post id, so NotFound, although post 1 exists | `@Param('id')` with the id as a number, returning post 1 | medium (framework semantics of `@Param()`; not executed) | `PostsController.ParamsObjectNeverFound` | `PostsController.PostsController.GetPost` |
