# Compose blog engine: a Dafny model of its content core

Compose is a small blog engine written in Go. Posts live in a MongoDB `posts`
collection, and their attachments live in a GridFS `fs` store. Public handlers
serve the paginated index, single posts by slug, and a post's attachments by
file name. A session-protected REST API lets the author list, create, update
and delete posts, and inspect and delete files.

This project models that core:

- **Store** (`store.dfy`). The two collections are the fields of a `Database`
  class:
  - `posts: map<ObjectId, Post>`
  - `fs: map<ObjectId, Blob>`

  `Valid()` says three things. Every post is stored under its own id. Every
  stored post's date and LastModified are whole milliseconds, as BSON keeps
  them. Every blob records its true length.
- **Files** (`uploads.dfy`). This covers metadata lookup, one id at a time and
  in batches, deleting a file, and the upload handler.
- **Conditional GET** (`util.dfy`). This is the If-Modified-Since gate from
  section 3.3 of RFC 7232. It answers 304 Not Modified, as defined in section
  4.1 of RFC 7232.
- **Posts** (`post.dfy`). This covers:
  - lookup by id and by slug;
  - the filtered, date-sorted, skip/limit listing and the post count;
  - creating, saving and deleting posts, where deleting cascades to the
    post's files;
  - the three public view handlers.
- **Index** (`index.dfy`). This covers the page parameter, the page count, the
  validity test, and the window of posts each page shows.
- **API** (`api.dfy`). This covers the restricted wrapper and every post and
  file handler behind it.
- **Scenarios** (`scenario.dfy`). One author-to-reader run chains the handler
  contracts together: create, upload, publish, fetch the attachment, then list.

## Modelling choices

**Timestamps.** They are integer nanoseconds since the Unix epoch.
`Store.ZeroTime` is Go's zero `time.Time`. The clock (`time.Now`) is a `now`
parameter. BSON keeps a `time.Time` as whole milliseconds, so a post is stored
as `Store.Persisted(post)`, with both of its times truncated to the
millisecond. The post that `Save` hands back keeps full precision. The
store's `Valid()` includes that every stored post's times are whole
milliseconds.

**Fresh ids.** `bson.NewObjectId` and GridFS `Create` never hand out an id
already in use. So `ApiCreatePost` requires its new id to be absent from
`posts`, and `UploadHandler` requires its new id to be absent from `fs`.

**Ids.** An ObjectId is opaque. Its `raw` number is used only where the
store's choice among equal candidates shows, and there the model fixes that
choice to ascending id. It matters in two places:
- The model breaks ties between posts with the same date in the listing by
  ascending id, and applies that one order to every query. MongoDB does not
  fix the order of documents with equal sort keys, neither within one query
  nor across the separate query each page runs.
- It decides which post a slug lookup returns when several posts share the
  slug. `Find(...).One()` returns the first in natural order, which the model
  takes to be ascending id.

**Go map iteration.** Go iterates maps in an unspecified order. Two places
depend on it: the file cascade in `Post.Delete` and the name scan in
`ViewFileHandler`. Both are loops that pick any remaining key (`:|`). Their
contracts hold for every order.

**Panics.** A nil `*FileInfo` dereference panics. The model represents it as
an outcome:
- `Err(NilPointer)` from `Posts.Delete`;
- `FilePanic` from `Posts.ViewFileHandler`;
- `Panic` from the API handlers.

A panic stops the work in progress, but earlier effects stay. In `Delete`,
the files removed before the panic remain removed.

**Where the code and its documentation disagree, the model follows the
code:**
- **CheckModifiedHandler.** The doc comment at `compose/util.go:26-28` says
  304 is sent when lastModified is "equal or greater than" the validator. The
  code sends 304 when the truncated lastModified is *not after* the validator.
  That is the RFC 7232 rule, and `Util.CheckModifiedHandler` states it.
- **Delete cascade.** It is not best-effort. A referenced file that is missing
  from the store yields a nil entry, and `DeleteFile` on it panics before the
  post record is removed.
- **Which file is served.** `ViewFileHandler` serves whichever same-named file
  Go's map iteration meets first, not the first one in the post's `files`
  list.

## Model

| member | source | states |
|---|---|---|
| Uploads.InfoOf | compose/uploads.go:85-88 | The info of an open file carries its id, its name, its upload date and the length GridFS records |
| Uploads.GetFileInfoById | compose/uploads.go:76-91 | Succeeds exactly when the id is stored. Otherwise it fails with NotFound. On success the info is InfoOf that file, and in a valid store its size is the content's length |
| Uploads.GetMultFileInfoById | compose/uploads.go:100-111 | The batch never fails. The result has one key per requested id (duplicates collapse). An entry is None exactly when the single lookup fails, and otherwise holds that lookup's info |
| Uploads.DeleteFile | compose/uploads.go:113-118 | Removes that one file id from the file store and leaves posts alone. Returns the given info, or NotFound when the id was not stored |
| Uploads.UploadedBlob | compose/uploads.go:44-54 | The stored file has the form's file name, exactly the uploaded bytes and their length, and the upload time to the millisecond |
| Uploads.UploadHandler | compose/uploads.go:26-67 | Success exactly when the form read, the create and the copy all succeed. On success: message "file uploaded successfully", the fresh id, and the store gains exactly one file, under that id, holding the uploaded bytes with the form's file name. On error: the message of the first failing step and no id. A failed form read or create leaves the store unchanged. No other file changes, and posts never change |
| Util.TruncateToSecond | compose/util.go:39 | The whole second that contains the timestamp: s seconds ≤ t < s+1 seconds. It is also the Last-Modified value a full response carries |
| Util.SecondIsUnique | compose/util.go:39 | A timestamp inside second s truncates to s, so the truncation is determined by its bracketing contract |
| Util.MillisecondsKeepTheSecond | compose/post.go:138 | Storing a time with millisecond precision does not change its second, so the conditional GET of a stored post answers as for its save time |
| Util.CheckModifiedHandler | compose/util.go:30-50 | A missing or unparseable validator gives false and writes nothing. Otherwise it gives true and writes 304 exactly when the timestamp falls before the end of the validator's second |
| Util.SubSecondIrrelevant | compose/util.go:38-39 | Two timestamps in the same second get the same answer for every validator |
| Util.SameSecondIsNotModified | compose/util.go:42-48 | A validator equal to the resource's second gets 304 |
| Util.EarlierSecondIsStale | compose/util.go:42-44 | A validator one second older than the resource's second gets no 304 |
| Util.LastModifiedRevalidates | compose/util.go:30-50 | Sending back the Last-Modified second of a resource gets 304 while the resource is unchanged |
| Posts.FindPostById | compose/post.go:59-68 | Ok exactly when the id is stored, with that post. Otherwise NotFound |
| Posts.FindPostBySlug | compose/post.go:46-55 | Ok exactly when some post has the slug. The post returned has that slug and is stored. In a valid store it is the slug match with the least id, i.e. the first in natural order. Otherwise NotFound |
| Posts.Arrange | compose/post.go:83 | The sort step of the listing. The ids are exactly the matching ids, each once, strictly ordered by date descending with ties broken by ascending id |
| Posts.CountPosts | compose/post.go:121-131 | Counts the posts that pass the draft filter. That is at most every post, and exactly every post when drafts are included |
| Posts.ListPosts | compose/post.go:72-85 | Length is the skip/limit window over the count, where limit 0 means no limit. At most `limit` posts when limit > 0. Every post is stored and passes the draft filter. Dates never increase |
| Posts.ListPostHeaders | compose/post.go:89-102 | The headers of the same query, in the same order |
| Posts.ListPostsIsSlice | compose/post.go:83 | Under the model's single tie order, every skip/limit window is the slice of the unbounded listing that starts at `start` |
| Posts.UnboundedListingIsComplete | compose/post.go:72-85 | Every stored post that passes the filter is in the unbounded listing |
| Posts.CountIsUnboundedListingLength | compose/post.go:121-131 | CountPosts equals the length of the unbounded listing with the same filter |
| Posts.CreatePost | compose/post.go:106-118 | A draft with the given id, dated now, with empty title, slug, body and files. LastModified is the zero time |
| Posts.Stamped | compose/post.go:137 | Only LastModified changes, and it becomes now |
| Store.ToBsonTime | compose/post.go:138 | The time a BSON round trip gives back: whole milliseconds, at most one millisecond before the original |
| Store.BsonTimeIdempotent | compose/post.go:138 | A time read back from BSON survives another round trip unchanged |
| Store.Persisted | compose/post.go:138 | The post as the collection keeps it: date and LastModified truncated to the millisecond, every other field unchanged |
| Store.PersistedIdempotent | compose/post.go:138 | Saving a post that was read back from the collection stores the same document |
| Posts.Save | compose/post.go:134-140 | Returns the post stamped with now, at full precision, and upserts its persisted form under its own id. Other posts and all files are untouched, and the store stays valid |
| Posts.SavedPostIsFoundAndListed | compose/post.go:134-140 | After a save, the persisted post is found by its id. If it is not a draft it is in the public listing. Its Last-Modified second is the second of the save |
| Posts.Delete | compose/post.go:143-157 | Panics (NilPointer) exactly when a referenced file is missing. In that case the post stays and only referenced files may be gone. Otherwise the post's record and all its files are removed and nothing else changes. The result is Ok exactly when the record existed |
| Posts.ViewHandler | compose/post.go:178-198 | 404 exactly when no post has the slug. 304 only when the validator covers the post's truncated LastModified. Otherwise it renders the slug's post with the Last-Modified second of its timestamp |
| Posts.ViewRevalidates | compose/post.go:188-193 | Replaying a rendered page's Last-Modified gets 304 |
| Posts.ViewHandlerRemoveTrailingSlash | compose/post.go:201-212 | 404 exactly when no post has the slug. Otherwise a 301 to "/" + slug |
| Posts.ViewFileHandler | compose/post.go:215-239 | Unknown slug: 404. A download is always of a stored file of that post with the requested name. A panic only happens when an attachment is missing. With every attachment present, it downloads exactly when some attachment has the name, and otherwise answers 404 |
| Index.RequestedPage | compose/index.go:26-33 | An empty parameter means page 1. Otherwise the page is Atoi's value, even after an Atoi error |
| Index.NumPages | compose/index.go:40-43 | The page count covers the total, leaves no empty last page, and is 0 exactly when nothing is published |
| Index.NumPagesIsCeiling | compose/index.go:40-43 | Any count with those two properties equals NumPages, so it is the ceiling of total / perPage |
| Index.PageIsValid | compose/index.go:46 | A page is valid exactly when it is 1, or lies between 2 and the page count |
| Index.Offset | compose/index.go:52 | The offset of a page ≥ 1 is non-negative and a whole number of pages: divided by perPage it gives page − 1 |
| Index.ValidPageStartsInside | compose/index.go:46-54 | Every valid page after the first starts inside the published posts |
| Index.EveryPostHasAPage | compose/index.go:40-54 | Position k of the published listing (k < total) lies inside the window of page k / perPage + 1, and that page is valid |
| Index.IndexHandler | compose/index.go:25-66 | Atoi failure is flagged as a 500 that does not stop the handler. A zero posts-per-page setting panics on the division. Otherwise: 404 exactly when the page is invalid, and a valid page renders its number, the page count, and the listing window at the page's Offset. That window is at most perPage published posts, and it is empty only when nothing is published |
| Index.EmptyParamShowsFirstPage | compose/index.go:26-27 | With no page parameter, the first window is rendered, even on an empty blog |
| Api.ApiListPosts | compose/api.go:41-48 | Every post, drafts included, newest first |
| Api.ApiListPostsListsAll | compose/api.go:41-48 | Each stored post appears in the API listing |
| Api.ApiGetPost | compose/api.go:51-58 | 404 exactly when the id is unknown. Otherwise the stored post |
| Api.NewPost | compose/api.go:61-70 | The post ApiCreatePost stores: a draft titled "New Post" with an empty slug, body and files, dated and stamped now |
| Api.ApiCreatePost | compose/api.go:61-71 | Answers with the new post and stores its persisted form under the fresh id. The store gains exactly one post, and files are unchanged |
| Api.ApiDeletePost | compose/api.go:74-81 | Unknown id: 404 and nothing changes. A missing attachment: a panic; the post stays, no file is added or altered, and only the post's own files may be gone. Otherwise the post and all its files are removed |
| Api.ApiUpdatePost | compose/api.go:84-100 | Unknown path id: 404. A payload that does not decode: a panic before any write. Otherwise the payload, stamped now and persisted, is upserted under the payload's own id. Files never change |
| Api.ApiGetFileInfo | compose/api.go:103-112 | 404 exactly when the file id is unknown. Otherwise that file's metadata |
| Api.ApiGetFileInfoList | compose/api.go:116-136 | 404 exactly when the payload does not decode. Otherwise one entry per requested id: the info when stored, null when not |
| Api.ApiDeleteFile | compose/api.go:139-146 | Unknown id: 404 and nothing changes. Otherwise that one file is removed. Posts never change |
| Api.RestrictedHandler | compose/api.go:26-38 | Unauthorized: 401 and no state change. Authorized: never 401, the read-only routes change nothing, and for each of the eight routes of compose/api.go:204-211 the response and the new state are those its handler's contract states |
| Scenarios.PublishAndFetchAttachment | compose/post.go:215-239 | On a fresh store, create + upload + publish + fetch hands the reader the uploaded file with the uploaded bytes, and the index page with no page parameter renders page 1 of 1 showing the one published post |

## Left out

- RenderBody and RenderBodySnippet (`compose/post.go:159-175`): Markdown and HTML truncation come from third-party libraries.
- Template execution (the `index.html` and `post.html` templates, and their 500 on failure): it is output formatting.
- DownloadHandler is not part of this model. `ViewFileHandler` ends in `Download(id)`, naming the file it hands over.
- `GetFileById` (`compose/uploads.go:93-98`): it only opens a GridFS handle for DownloadHandler, and so adds nothing to the store model.
- Sessions, cookies and users: authorization is the boolean `authorized`. `ApiGetSettings` and `ApiUpdateSettings` belong to the user store, which is not part of this model.
- UploadHandler's own session check comes from the wrapper outside `compose/uploads.go`, which is not part of this model.
- ObjectId hex parsing and generation (`bson.ObjectIdHex`, `bson.NewObjectId`): ids arrive already decoded, and fresh ids are parameters. In particular, the hex loop of `ApiGetFileInfoList` is not modelled, nor the panic `ObjectIdHex` raises on a malformed id.
- JSON encoding and decoding: a payload that fails to decode is `None`.
- HTTP-date formatting and parsing (the `HttpDateTimeFormat` layout, `http.ParseTime`): validators and the Last-Modified header are whole seconds.
- Storage and connection failures, other than "not found" (count, listing and upsert errors, a failing `RemoveId`): the store is modelled as always reachable.
- Concurrency between requests: each handler runs alone on the store.
- `Store.Blob.uploadDate` and `FileInfo.uploadDate`: the GridFS upload time is an integer, not the `String()` rendering the source sends.
- Index.RequestedPage: an Atoi failure is modelled as a flag plus the value Atoi returned. The value Atoi returns for out-of-range input is not computed here.
- Api.ApiCreatePost: one `now` stands for both clock reads (CreatePost's date and Save's LastModified). The source reads the clock twice.
- Uploads.UploadHandler: after a failed copy, the contract only promises that other files are unchanged and that no key other than the new id appears. Whether GridFS keeps a partial file is left open.
- Posts.Delete: when a missing attachment causes the panic, the contract does not say which referenced files were already deleted. That depends on Go's map iteration order.
- A negative `config.IndexPostsPerPage`: the setting is a `nat`. A zero setting is modelled (the index panics), but Go's truncating division by a negative count and mgo's negative limit are not.
- MongoDB natural order is modelled as ascending id.
- Posts.ListPostsIsSlice: the claim that pages are slices of one listing holds because the model uses the same ascending-id tie order for every query. In the program, each page runs its own `Sort("-date").Skip().Limit()` query, and MongoDB does not fix the order of equal dates. Two posts with the same millisecond date can then appear on two pages, or on neither. The lemma describes the program only when the listed posts have distinct dates.
- Index.EveryPostHasAPage: this is about positions in the listing. A post is shown on the page that holds its position only under the model's fixed tie order. In the program that holds only when no other listed post has the same date.
