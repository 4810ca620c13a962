/**
 * The admin REST API (compose/api.go): the restricted wrapper that runs a
 * handler only for an authorized caller, and the post and file handlers
 * behind it. `authorized` stands for "the session cookie is present and its
 * token is valid"; sessions themselves are not part of this model.
 */
module Api {
  import opened Store
  import Posts
  import Uploads

  /** What a handler sends back. */
  datatype ApiResponse =
    | Unauthorized                                         // 401 from the restricted wrapper
    | ApiNotFound                                          // rest.NotFound: 404
    | Panic                                                // the handler panics; the recovery middleware answers 500
    | Written                                              // the handler writes no body: 200
    | PostJson(post: Post)
    | PostsJson(posts: seq<Post>)
    | FileInfoJson(info: FileInfo)
    | FileInfoMapJson(infos: map<ObjectId, Option<FileInfo>>)

  /** The title ApiCreatePost gives a new post. */
  const NewPostTitle: string := "New Post"

  /** ApiListPosts: every post, drafts included, newest first, with no skip and no limit. */
  function ApiListPosts(posts: map<ObjectId, Post>): (r: ApiResponse)
    ensures r.PostsJson?
    ensures |r.posts| == |posts|
    ensures forall i | 0 <= i < |r.posts| :: r.posts[i] in posts.Values
    ensures forall i, j | 0 <= i < j < |r.posts| :: r.posts[i].header.date >= r.posts[j].header.date
  {
    PostsJson(Posts.ListPosts(posts, 0, 0, true))
  }

  /** Every stored post, draft or not, is in the ApiListPosts answer. */
  lemma ApiListPostsListsAll(posts: map<ObjectId, Post>, id: ObjectId)
    requires id in posts
    ensures posts[id] in ApiListPosts(posts).posts
  {
    Posts.UnboundedListingIsComplete(posts, true, id);
  }

  /** ApiGetPost: the post with the path id, or 404. */
  function ApiGetPost(posts: map<ObjectId, Post>, id: ObjectId): (r: ApiResponse)
    ensures r == ApiNotFound <==> id !in posts
    ensures r != ApiNotFound ==> r == PostJson(posts[id])
  {
    match Posts.FindPostById(posts, id)
    case Err(_) => ApiNotFound
    case Ok(post) => PostJson(post)
  }

  /** The post ApiCreatePost stores: a draft skeleton titled "New Post", saved at `now`. */
  function NewPost(id: ObjectId, now: int): (p: Post)
    ensures p.header.id == id && p.header.title == NewPostTitle
    ensures p.header.slug == "" && p.body == "" && p.header.files == [] && p.header.draft
    ensures p.header.date == now && p.header.lastModified == now
  {
    var skeleton := Posts.CreatePost(id, now);
    Posts.Stamped(Post(skeleton.header.(title := NewPostTitle), skeleton.body), now)
  }

  /** ApiCreatePost: creates the skeleton, titles it "New Post", saves it and answers with it.
      `newId` is the fresh ObjectId, which bson.NewObjectId never repeats, and `now` the clock. */
  method ApiCreatePost(db: Database, newId: ObjectId, now: int) returns (r: ApiResponse)
    requires db.Valid()
    requires newId !in db.posts
    modifies db
    ensures db.Valid()
    ensures r == PostJson(NewPost(newId, now))
    ensures db.posts == old(db.posts)[newId := Persisted(NewPost(newId, now))]
    ensures db.posts.Keys == old(db.posts).Keys + {newId} && |db.posts| == |old(db.posts)| + 1
    ensures db.fs == old(db.fs)
  {
    var post := Posts.CreatePost(newId, now);
    post := Post(post.header.(title := NewPostTitle), post.body);
    var saved := Posts.Save(db, post, now);
    r := PostJson(saved);
  }

  /** ApiDeletePost: 404 for an unknown id; otherwise the Post.Delete cascade, whose
      error is ignored and whose nil dereference panics. */
  method ApiDeletePost(db: Database, id: ObjectId) returns (r: ApiResponse)
    requires db.Valid()
    modifies db
    ensures db.Valid()
    ensures id !in old(db.posts) ==> r == ApiNotFound && db.posts == old(db.posts) && db.fs == old(db.fs)
    ensures id in old(db.posts) && Posts.MissingAttachment(old(db.fs), old(db.posts)[id]) ==>
              && r == Panic
              && db.posts == old(db.posts)
              && (forall f | f in db.fs :: f in old(db.fs) && db.fs[f] == old(db.fs)[f])
              && (forall f | f in old(db.fs) && f !in Posts.FileSet(old(db.posts)[id]) :: f in db.fs)
    ensures id in old(db.posts) && !Posts.MissingAttachment(old(db.fs), old(db.posts)[id]) ==>
              && r == Written
              && id !in db.posts
              && db.posts == old(db.posts) - {id}
              && db.fs == old(db.fs) - Posts.FileSet(old(db.posts)[id])
  {
    var found := Posts.FindPostById(db.posts, id);
    if found.Err? {
      return ApiNotFound;
    }
    var deleted := Posts.Delete(db, found.value);
    r := if deleted == Err(NilPointer) then Panic else Written;
  }

  /** ApiUpdatePost: the path id is only checked for existence; the decoded
      payload (None when it does not decode) is saved whole under its own id. */
  method ApiUpdatePost(db: Database, id: ObjectId, payload: Option<Post>, now: int) returns (r: ApiResponse)
    requires db.Valid()
    modifies db
    ensures db.Valid()
    ensures db.fs == old(db.fs)
    ensures id !in old(db.posts) ==> r == ApiNotFound && db.posts == old(db.posts)
    ensures id in old(db.posts) && payload.None? ==> r == Panic && db.posts == old(db.posts)
    ensures id in old(db.posts) && payload.Some? ==>
              && r == Written
              && db.posts == old(db.posts)[payload.value.header.id := Persisted(Posts.Stamped(payload.value, now))]
  {
    var found := Posts.FindPostById(db.posts, id);
    if found.Err? {
      return ApiNotFound;
    }
    if payload.None? {
      return Panic;
    }
    var _ := Posts.Save(db, payload.value, now);
    r := Written;
  }

  /** ApiGetFileInfo: the metadata of the file with the path id, or 404. */
  function ApiGetFileInfo(fs: map<ObjectId, Blob>, id: ObjectId): (r: ApiResponse)
    ensures r == ApiNotFound <==> id !in fs
    ensures r != ApiNotFound ==> r == FileInfoJson(Uploads.InfoOf(id, fs[id]))
  {
    match Uploads.GetFileInfoById(fs, id)
    case Err(_) => ApiNotFound
    case Ok(info) => FileInfoJson(info)
  }

  /** ApiGetFileInfoList: 404 when the payload does not decode; otherwise an entry
      for every requested id, None for each id that is not stored. */
  method ApiGetFileInfoList(fs: map<ObjectId, Blob>, ids: Option<seq<ObjectId>>) returns (r: ApiResponse)
    ensures ids.None? <==> r == ApiNotFound
    ensures ids.Some? ==>
              && r.FileInfoMapJson?
              && (forall id :: id in r.infos <==> id in ids.value)
              && (forall id | id in r.infos :: r.infos[id] == if id in fs then Some(Uploads.InfoOf(id, fs[id])) else None)
  {
    if ids.None? {
      return ApiNotFound;
    }
    var infos := Uploads.GetMultFileInfoById(fs, ids.value);
    r := FileInfoMapJson(infos);
  }

  /** ApiDeleteFile: 404 for an unknown id; otherwise that file, and only it, is removed. */
  method ApiDeleteFile(db: Database, id: ObjectId) returns (r: ApiResponse)
    requires db.Valid()
    modifies db
    ensures db.Valid()
    ensures db.posts == old(db.posts)
    ensures id !in old(db.fs) ==> r == ApiNotFound && db.fs == old(db.fs)
    ensures id in old(db.fs) ==> r == Written && db.fs == old(db.fs) - {id}
  {
    var file := Uploads.GetFileInfoById(db.fs, id);
    if file.Err? {
      return ApiNotFound;
    }
    var _ := Uploads.DeleteFile(db, file.value);
    r := Written;
  }

  /** A request to one of the routes of GetApiHandler, with what the handler
      reads from it already decoded. */
  datatype ApiRequest =
    | ListPostsRequest
    | GetPostRequest(id: ObjectId)
    | CreatePostRequest(newId: ObjectId, now: int)
    | UpdatePostRequest(id: ObjectId, payload: Option<Post>, now: int)
    | DeletePostRequest(id: ObjectId)
    | GetFileInfoListRequest(ids: Option<seq<ObjectId>>)
    | GetFileInfoRequest(id: ObjectId)
    | DeleteFileRequest(id: ObjectId)

  /** The requests whose handlers only read. */
  predicate ReadOnly(req: ApiRequest)
  {
    req.ListPostsRequest? || req.GetPostRequest? || req.GetFileInfoListRequest? || req.GetFileInfoRequest?
  }

  /**
   * MakeRestrictedApiHandler applied to the routed handler: an unauthorized
   * caller gets 401 and nothing changes; an authorized one gets exactly what
   * the handler does.
   */
  method RestrictedHandler(db: Database, authorized: bool, req: ApiRequest) returns (r: ApiResponse)
    requires db.Valid()
    requires req.CreatePostRequest? ==> req.newId !in db.posts
    modifies db
    ensures db.Valid()
    ensures !authorized ==> r == Unauthorized && db.posts == old(db.posts) && db.fs == old(db.fs)
    ensures authorized ==> r != Unauthorized
    ensures ReadOnly(req) ==> db.posts == old(db.posts) && db.fs == old(db.fs)
    ensures authorized && req.ListPostsRequest? ==> r == ApiListPosts(old(db.posts))
    ensures authorized && req.GetPostRequest? ==> r == ApiGetPost(old(db.posts), req.id)
    ensures authorized && req.GetFileInfoRequest? ==> r == ApiGetFileInfo(old(db.fs), req.id)
    ensures authorized && req.GetFileInfoListRequest? ==>
              && (req.ids.None? <==> r == ApiNotFound)
              && (req.ids.Some? ==>
                    && r.FileInfoMapJson?
                    && (forall id :: id in r.infos <==> id in req.ids.value)
                    && (forall id | id in r.infos ::
                          r.infos[id] == if id in db.fs then Some(Uploads.InfoOf(id, db.fs[id])) else None))
    ensures authorized && req.CreatePostRequest? ==>
              && r == PostJson(NewPost(req.newId, req.now))
              && db.posts == old(db.posts)[req.newId := Persisted(NewPost(req.newId, req.now))]
              && db.fs == old(db.fs)
    ensures authorized && req.UpdatePostRequest? ==>
              && db.fs == old(db.fs)
              && (req.id !in old(db.posts) ==> r == ApiNotFound && db.posts == old(db.posts))
              && (req.id in old(db.posts) && req.payload.None? ==> r == Panic && db.posts == old(db.posts))
              && (req.id in old(db.posts) && req.payload.Some? ==>
                    && r == Written
                    && db.posts == old(db.posts)[req.payload.value.header.id :=
                                                   Persisted(Posts.Stamped(req.payload.value, req.now))])
    ensures authorized && req.DeletePostRequest? ==>
              && (req.id !in old(db.posts) ==> r == ApiNotFound && db.posts == old(db.posts) && db.fs == old(db.fs))
              && (req.id in old(db.posts) && Posts.MissingAttachment(old(db.fs), old(db.posts)[req.id]) ==>
                    && r == Panic
                    && db.posts == old(db.posts)
                    && (forall f | f in db.fs :: f in old(db.fs) && db.fs[f] == old(db.fs)[f])
                    && (forall f | f in old(db.fs) && f !in Posts.FileSet(old(db.posts)[req.id]) :: f in db.fs))
              && (req.id in old(db.posts) && !Posts.MissingAttachment(old(db.fs), old(db.posts)[req.id]) ==>
                    && r == Written
                    && db.posts == old(db.posts) - {req.id}
                    && db.fs == old(db.fs) - Posts.FileSet(old(db.posts)[req.id]))
    ensures authorized && req.DeleteFileRequest? ==>
              && db.posts == old(db.posts)
              && db.fs == old(db.fs) - {req.id}
              && (r == ApiNotFound <==> req.id !in old(db.fs))
              && (r != ApiNotFound ==> r == Written)
  {
    if !authorized {
      return Unauthorized;
    }
    match req
    case ListPostsRequest => r := ApiListPosts(db.posts);
    case GetPostRequest(id) => r := ApiGetPost(db.posts, id);
    case CreatePostRequest(newId, now) => r := ApiCreatePost(db, newId, now);
    case UpdatePostRequest(id, payload, now) => r := ApiUpdatePost(db, id, payload, now);
    case DeletePostRequest(id) => r := ApiDeletePost(db, id);
    case GetFileInfoListRequest(ids) => r := ApiGetFileInfoList(db.fs, ids);
    case GetFileInfoRequest(id) => r := ApiGetFileInfo(db.fs, id);
    case DeleteFileRequest(id) => r := ApiDeleteFile(db, id);
  }
}
