/**
 * The post repository (compose/post.go): lookups by slug and by id, the
 * reverse-chronological listing with its draft filter, counting, the draft
 * skeleton, the upsert that stamps LastModified, the delete that cascades to
 * the post's files, and the lookup and match logic of the public view
 * handlers.
 */
module Posts {
  import opened Store
  import Uploads
  import Util

  // ---------------------------------------------------------------------
  // Lookups

  /** FindPostById: the stored document with _id == id, or NotFound. */
  function FindPostById(posts: map<ObjectId, Post>, id: ObjectId): (r: Result<Post>)
    ensures r.Ok? <==> id in posts
    ensures r.Ok? ==> r.value == posts[id]
    ensures r.Ok? && KeyedById(posts) ==> r.value.header.id == id
    ensures r.Err? ==> r.error == NotFound
  {
    if id in posts then Ok(posts[id]) else Err(NotFound)
  }

  /** The ids of the stored posts whose slug is exactly `slug`. */
  function WithSlug(posts: map<ObjectId, Post>, slug: string): set<ObjectId>
  {
    set k | k in posts && posts[k].header.slug == slug
  }

  /** Every non-empty set of ids has one that comes first in natural order. */
  lemma {:induction false} LeastIdExists(ids: set<ObjectId>)
    requires ids != {}
    ensures exists k :: k in ids && forall k' | k' in ids :: k.raw <= k'.raw
  {
    var x :| x in ids;
    if ids != {x} {
      var rest := ids - {x};
      LeastIdExists(rest);
      var m :| m in rest && forall k' | k' in rest :: m.raw <= k'.raw;
      if x.raw < m.raw {
        assert forall k' | k' in ids :: x.raw <= k'.raw;
      } else {
        assert forall k' | k' in ids :: m.raw <= k'.raw;
      }
    }
  }

  /**
   * FindPostBySlug: Find({slug: slug}).One(), an exact and case-sensitive
   * match. Slugs are not unique; when several posts share one, the store
   * returns the first in its natural order, which the model takes to be
   * ascending id.
   */
  function FindPostBySlug(posts: map<ObjectId, Post>, slug: string): (r: Result<Post>)
    ensures r.Ok? <==> exists k :: k in posts && posts[k].header.slug == slug
    ensures r.Ok? ==> r.value in posts.Values && r.value.header.slug == slug
    ensures r.Ok? && KeyedById(posts) ==>
              && r.value.header.id in posts && posts[r.value.header.id] == r.value
              && forall k | k in posts && posts[k].header.slug == slug :: r.value.header.id.raw <= k.raw
    ensures r.Err? ==> r.error == NotFound
  {
    var candidates := WithSlug(posts, slug);
    if candidates == {} then
      assert forall k | k in posts :: k in candidates <==> posts[k].header.slug == slug;
      Err(NotFound)
    else
      LeastIdExists(candidates);
      var k :| k in candidates && forall k' | k' in candidates :: k.raw <= k'.raw;
      Ok(posts[k])
  }

  // ---------------------------------------------------------------------
  // Listing and counting

  /** The posts a listing or a count considers: all of them, or only those with draft == false. */
  function Matching(posts: map<ObjectId, Post>, includeDrafts: bool): set<ObjectId>
  {
    set k | k in posts && (includeDrafts || !posts[k].header.draft)
  }

  /** `a` is listed before `b`: the later date first, and among equal dates
      ascending id. The tie order is the model's choice: MongoDB leaves the
      order of equal sort keys open. */
  predicate ListedBefore(posts: map<ObjectId, Post>, a: ObjectId, b: ObjectId)
    requires a in posts && b in posts
  {
    var da, db := posts[a].header.date, posts[b].header.date;
    da > db || (da == db && a.raw < b.raw)
  }

  /** Every non-empty set of stored ids has one that is listed before all the others. */
  lemma {:induction false} FirstListedExists(posts: map<ObjectId, Post>, keys: set<ObjectId>)
    requires keys <= posts.Keys && keys != {}
    ensures exists k :: k in keys && forall k' | k' in keys && k' != k :: ListedBefore(posts, k, k')
  {
    var x :| x in keys;
    if keys != {x} {
      var rest := keys - {x};
      FirstListedExists(posts, rest);
      var m :| m in rest && forall k' | k' in rest && k' != m :: ListedBefore(posts, m, k');
      if ListedBefore(posts, x, m) {
        forall k' | k' in keys && k' != x ensures ListedBefore(posts, x, k') {
          if k' != m {
            assert ListedBefore(posts, m, k');
          }
        }
      } else {
        assert forall k' | k' in keys && k' != m :: ListedBefore(posts, m, k');
      }
    }
  }

  /** The ids of `keys` in a Sort("-date") order, with the model's tie order:
      each once, each listed before every id that follows it. */
  function Arrange(posts: map<ObjectId, Post>, keys: set<ObjectId>): (r: seq<ObjectId>)
    requires keys <= posts.Keys
    ensures |r| == |keys|
    ensures forall k :: k in r <==> k in keys
    ensures forall i, j | 0 <= i < j < |r| :: ListedBefore(posts, r[i], r[j])
    decreases keys
  {
    if keys == {} then []
    else
      FirstListedExists(posts, keys);
      var k :| k in keys && forall k' | k' in keys && k' != k :: ListedBefore(posts, k, k');
      var rest := Arrange(posts, keys - {k});
      assert forall j | 0 <= j < |rest| :: rest[j] in keys && rest[j] != k;
      [k] + rest
  }

  /** The stored posts with the ids `ids`, in that order. */
  function PostsOf(posts: map<ObjectId, Post>, ids: seq<ObjectId>): (r: seq<Post>)
    requires forall i | 0 <= i < |ids| :: ids[i] in posts
    ensures |r| == |ids|
    ensures forall i | 0 <= i < |ids| :: r[i] == posts[ids[i]]
  {
    seq(|ids|, i requires 0 <= i < |ids| => posts[ids[i]])
  }

  /** How many of `n` items Skip(start).Limit(limit) keeps; a limit of 0 means no limit. */
  function WindowLength(n: nat, start: nat, limit: nat): nat
  {
    if start >= n then 0
    else if limit == 0 || limit >= n - start then n - start
    else limit
  }

  /** Skip(start).Limit(limit) on a query result; a limit of 0 means no limit. */
  function Window<T>(s: seq<T>, start: nat, limit: nat): (r: seq<T>)
    ensures |r| == WindowLength(|s|, start, limit)
    ensures forall i | 0 <= i < |r| :: start + i < |s| && r[i] == s[start + i]
  {
    var rest := if start < |s| then s[start..] else [];
    if limit == 0 || limit >= |rest| then rest else rest[..limit]
  }

  /** CountPosts: the number of stored posts that pass the draft filter. */
  function CountPosts(posts: map<ObjectId, Post>, includeDrafts: bool): (n: nat)
    ensures n <= |posts|
    ensures includeDrafts ==> n == |posts|
  {
    var keys := Matching(posts, includeDrafts);
    assert keys <= posts.Keys;
    SubsetSize(keys, posts.Keys);
    assert includeDrafts ==> keys == posts.Keys;
    |keys|
  }

  lemma SubsetSize<T>(a: set<T>, b: set<T>)
    requires a <= b
    ensures |a| <= |b|
  {
    assert b == a + (b - a);
  }

  /**
   * ListPosts: Find(filter).Sort("-date").Skip(start).Limit(limit). The
   * result holds only stored posts that pass the draft filter, by date
   * non-increasing, at most `limit` of them when limit > 0, and as many as the
   * window over the CountPosts matches allows.
   */
  function ListPosts(posts: map<ObjectId, Post>, start: nat, limit: nat, includeDrafts: bool): (r: seq<Post>)
    ensures |r| == WindowLength(CountPosts(posts, includeDrafts), start, limit)
    ensures limit > 0 ==> |r| <= limit
    ensures forall i | 0 <= i < |r| :: r[i] in posts.Values && (includeDrafts || !r[i].header.draft)
    ensures forall i, j | 0 <= i < j < |r| :: r[i].header.date >= r[j].header.date
  {
    var ids := Arrange(posts, Matching(posts, includeDrafts));
    var all := PostsOf(posts, ids);
    var r := Window(all, start, limit);
    forall i, j | 0 <= i < j < |r| ensures r[i].header.date >= r[j].header.date {
      assert ListedBefore(posts, ids[start + i], ids[start + j]);
    }
    forall i | 0 <= i < |r| ensures r[i] in posts.Values && (includeDrafts || !r[i].header.draft) {
      assert r[i] == posts[ids[start + i]] && ids[start + i] in Matching(posts, includeDrafts);
    }
    r
  }

  /** ListPostHeaders: the same query as ListPosts, decoded into headers only. */
  function ListPostHeaders(posts: map<ObjectId, Post>, start: nat, limit: nat, includeDrafts: bool)
    : (r: seq<PostHeader>)
    ensures |r| == |ListPosts(posts, start, limit, includeDrafts)|
    ensures forall i | 0 <= i < |r| :: r[i] == ListPosts(posts, start, limit, includeDrafts)[i].header
  {
    var full := ListPosts(posts, start, limit, includeDrafts);
    seq(|full|, i requires 0 <= i < |full| => full[i].header)
  }

  /** A window of the listing is the slice of the unbounded listing that starts
      at `start`: in the model every query shares one tie order. */
  lemma ListPostsIsSlice(posts: map<ObjectId, Post>, start: nat, limit: nat, includeDrafts: bool)
    ensures var full := ListPosts(posts, 0, 0, includeDrafts);
            var r := ListPosts(posts, start, limit, includeDrafts);
            forall i | 0 <= i < |r| :: start + i < |full| && r[i] == full[start + i]
  {
    var ids := Arrange(posts, Matching(posts, includeDrafts));
    var all := PostsOf(posts, ids);
    assert Window(all, 0, 0) == all;
  }

  /** The unbounded listing holds every stored post that passes the filter. */
  lemma UnboundedListingIsComplete(posts: map<ObjectId, Post>, includeDrafts: bool, k: ObjectId)
    requires k in posts && (includeDrafts || !posts[k].header.draft)
    ensures posts[k] in ListPosts(posts, 0, 0, includeDrafts)
  {
    var ids := Arrange(posts, Matching(posts, includeDrafts));
    var all := PostsOf(posts, ids);
    assert Window(all, 0, 0) == all;
    assert k in Matching(posts, includeDrafts);
    var i :| 0 <= i < |ids| && ids[i] == k;
    assert all[i] == posts[k];
  }

  /** The unbounded listing holds as many posts as CountPosts counts. */
  lemma CountIsUnboundedListingLength(posts: map<ObjectId, Post>, includeDrafts: bool)
    ensures CountPosts(posts, includeDrafts) == |ListPosts(posts, 0, 0, includeDrafts)|
  {
  }

  // ---------------------------------------------------------------------
  // Creating, saving and deleting

  /** CreatePost: a draft skeleton with a fresh id, not yet stored. Its
      LastModified is Go's zero time until the first Save. */
  function CreatePost(id: ObjectId, now: int): (p: Post)
    ensures p.header.id == id && p.header.date == now && p.header.lastModified == ZeroTime
    ensures p.header.title == "" && p.header.slug == "" && p.body == ""
    ensures p.header.draft && p.header.files == []
  {
    Post(PostHeader(id, "", now, ZeroTime, "", true, []), "")
  }

  /** The post with LastModified set to `now` and everything else as it was. */
  function Stamped(post: Post, now: int): (p: Post)
    ensures p.header.lastModified == now
    ensures p.header.(lastModified := post.header.lastModified) == post.header && p.body == post.body
  {
    Post(post.header.(lastModified := now), post.body)
  }

  /** Save: stamps LastModified with the clock and upserts the post under its
      own id, where it is kept with millisecond times; every other post and
      every file is left as it was. The caller gets back the stamped post
      with its full-precision times. */
  method Save(db: Database, post: Post, now: int) returns (saved: Post)
    requires db.Valid()
    modifies db
    ensures db.Valid()
    ensures saved == Stamped(post, now)
    ensures db.posts == old(db.posts)[post.header.id := Persisted(saved)]
    ensures db.fs == old(db.fs)
  {
    saved := Stamped(post, now);
    db.posts := db.posts[post.header.id := Persisted(saved)];
  }

  /** A saved post is found by its id, unless it is a draft it is listed
      publicly, and it carries the Last-Modified second of the save. */
  lemma SavedPostIsFoundAndListed(posts: map<ObjectId, Post>, post: Post, now: int)
    ensures var stored := Persisted(Stamped(post, now));
            var after := posts[post.header.id := stored];
            && FindPostById(after, post.header.id) == Ok(stored)
            && (!post.header.draft ==> stored in ListPosts(after, 0, 0, false))
            && Util.TruncateToSecond(stored.header.lastModified) == Util.TruncateToSecond(now)
  {
    var stored := Persisted(Stamped(post, now));
    var after := posts[post.header.id := stored];
    if !post.header.draft {
      UnboundedListingIsComplete(after, false, post.header.id);
    }
    Util.MillisecondsKeepTheSecond(now);
  }

  /** The ids a post references, as a set. */
  function FileSet(post: Post): set<ObjectId>
  {
    set i | 0 <= i < |post.header.files| :: post.header.files[i]
  }

  /** Some file the post references is not in the store. */
  predicate MissingAttachment(fs: map<ObjectId, Blob>, post: Post)
  {
    exists i :: 0 <= i < |post.header.files| && post.header.files[i] !in fs
  }

  /**
   * Delete: looks up every file of the post, deletes them in the order Go's
   * map iteration yields, then removes the post record. A referenced file
   * that is missing has a nil entry, and calling DeleteFile on it panics:
   * the post record stays and the files deleted before the panic stay
   * deleted. Otherwise every referenced file and the record are gone.
   */
  method Delete(db: Database, post: Post) returns (r: Result<Post>)
    requires db.Valid()
    modifies db
    ensures db.Valid()
    ensures r == Err(NilPointer) <==> MissingAttachment(old(db.fs), post)
    ensures r == Ok(post) <==> !MissingAttachment(old(db.fs), post) && post.header.id in old(db.posts)
    ensures r.Ok? || r == Err(NotFound) || r == Err(NilPointer)
    ensures MissingAttachment(old(db.fs), post) ==>
              && db.posts == old(db.posts)
              && (forall id | id in db.fs :: id in old(db.fs) && db.fs[id] == old(db.fs)[id])
              && (forall id | id in old(db.fs) && id !in FileSet(post) :: id in db.fs)
    ensures !MissingAttachment(old(db.fs), post) ==>
              && db.posts == old(db.posts) - {post.header.id}
              && db.fs == old(db.fs) - FileSet(post)
  {
    var infos := Uploads.GetMultFileInfoById(db.fs, post.header.files);
    assert infos.Keys == FileSet(post);
    var remaining := infos.Keys;
    while remaining != {}
      invariant remaining <= infos.Keys
      invariant db.Valid()
      invariant db.posts == old(db.posts)
      invariant forall id | id in infos.Keys - remaining :: infos[id].Some?
      invariant db.fs == old(db.fs) - (infos.Keys - remaining)
      decreases remaining
    {
      var id :| id in remaining;
      match infos[id] {
        case None =>
          assert id !in old(db.fs) && id in FileSet(post);
          return Err(NilPointer);
        case Some(info) =>
          var _ := Uploads.DeleteFile(db, info);
      }
      remaining := remaining - {id};
    }
    assert !MissingAttachment(old(db.fs), post) by {
      forall i | 0 <= i < |post.header.files| ensures post.header.files[i] in old(db.fs) {
        assert post.header.files[i] in infos.Keys - remaining;
      }
    }
    var existed := post.header.id in db.posts;
    db.posts := db.posts - {post.header.id};
    r := if existed then Ok(post) else Err(NotFound);
  }

  // ---------------------------------------------------------------------
  // Public view handlers

  /** What ViewHandler answers: 404, 304, or the page with its Last-Modified
      header (whole seconds; the text form is an IMF-fixdate). */
  datatype ViewOutcome =
    | ViewNotFound
    | ViewNotModified
    | ViewRender(post: Post, lastModifiedHeader: int)

  /** ViewHandler: find the post by slug, then apply the If-Modified-Since gate. */
  function ViewHandler(posts: map<ObjectId, Post>, slug: string, ifModifiedSince: Option<int>)
    : (r: ViewOutcome)
    ensures r.ViewNotFound? <==> forall k | k in posts :: posts[k].header.slug != slug
    ensures r.ViewNotModified? ==>
              && FindPostBySlug(posts, slug).Ok?
              && ifModifiedSince.Some?
              && Util.TruncateToSecond(FindPostBySlug(posts, slug).value.header.lastModified)
                 <= ifModifiedSince.value
    ensures r.ViewRender? ==>
              && r.post == FindPostBySlug(posts, slug).value
              && r.post.header.slug == slug
              && r.lastModifiedHeader == Util.TruncateToSecond(r.post.header.lastModified)
              && !Util.CheckModifiedHandler(ifModifiedSince, r.post.header.lastModified).notModified
  {
    match FindPostBySlug(posts, slug)
    case Err(_) => ViewNotFound
    case Ok(post) =>
      if Util.CheckModifiedHandler(ifModifiedSince, post.header.lastModified).notModified then
        ViewNotModified
      else
        ViewRender(post, Util.TruncateToSecond(post.header.lastModified))
  }

  /** Sending back the Last-Modified value of a rendered post gets 304 while the post is unchanged. */
  lemma ViewRevalidates(posts: map<ObjectId, Post>, slug: string, ifModifiedSince: Option<int>)
    requires ViewHandler(posts, slug, ifModifiedSince).ViewRender?
    ensures ViewHandler(posts, slug, Some(ViewHandler(posts, slug, ifModifiedSince).lastModifiedHeader))
            == ViewNotModified
  {
    var post := FindPostBySlug(posts, slug).value;
    Util.LastModifiedRevalidates(post.header.lastModified);
  }

  /** What ViewHandlerRemoveTrailingSlash answers: 404, or a 301 redirect. */
  datatype RedirectOutcome = RedirectNotFound | Redirect(location: string, status: int)

  const StatusMovedPermanently: int := 301

  /** ViewHandlerRemoveTrailingSlash: "/slug/" redirects permanently to "/slug" when the post exists. */
  function ViewHandlerRemoveTrailingSlash(posts: map<ObjectId, Post>, slug: string): (r: RedirectOutcome)
    ensures r.RedirectNotFound? <==> forall k | k in posts :: posts[k].header.slug != slug
    ensures r.Redirect? ==> r.location == "/" + slug && r.status == StatusMovedPermanently
  {
    if FindPostBySlug(posts, slug).Err? then RedirectNotFound
    else Redirect("/" + slug, StatusMovedPermanently)
  }

  /** What ViewFileHandler does: 404, hand the file to DownloadHandler, or panic on a nil entry. */
  datatype FileOutcome = FileNotFound | Download(id: ObjectId) | FilePanic

  /** The files of `post` that are stored and named exactly `name`. */
  function FilesNamed(fs: map<ObjectId, Blob>, post: Post, name: string): set<ObjectId>
  {
    set id | id in FileSet(post) && id in fs && fs[id].name == name
  }

  /**
   * ViewFileHandler: find the post by slug, look up its files and scan them
   * in Go's map iteration order for one named exactly `file`. The first
   * match is served; a nil entry met before any match panics. When two
   * files share the name, which one is served is not determined.
   */
  method ViewFileHandler(db: Database, slug: string, file: string) returns (r: FileOutcome)
    ensures FindPostBySlug(db.posts, slug).Err? ==> r == FileNotFound
    ensures r.Download? ==>
              && FindPostBySlug(db.posts, slug).Ok?
              && r.id in FilesNamed(db.fs, FindPostBySlug(db.posts, slug).value, file)
    ensures r.FilePanic? ==>
              FindPostBySlug(db.posts, slug).Ok? && MissingAttachment(db.fs, FindPostBySlug(db.posts, slug).value)
    ensures r == FileNotFound && FindPostBySlug(db.posts, slug).Ok? ==>
              && !MissingAttachment(db.fs, FindPostBySlug(db.posts, slug).value)
              && FilesNamed(db.fs, FindPostBySlug(db.posts, slug).value, file) == {}
    ensures (&& FindPostBySlug(db.posts, slug).Ok?
             && !MissingAttachment(db.fs, FindPostBySlug(db.posts, slug).value)
             && FilesNamed(db.fs, FindPostBySlug(db.posts, slug).value, file) != {}) ==> r.Download?
  {
    var found := FindPostBySlug(db.posts, slug);
    if found.Err? {
      return FileNotFound;
    }
    var post := found.value;
    var infos := Uploads.GetMultFileInfoById(db.fs, post.header.files);
    assert infos.Keys == FileSet(post);
    var remaining := infos.Keys;
    while remaining != {}
      invariant remaining <= infos.Keys
      invariant forall id | id in infos.Keys - remaining :: infos[id].Some? && infos[id].value.name != file
      decreases remaining
    {
      var id :| id in remaining;
      match infos[id] {
        case None =>
          assert id in FileSet(post) && id !in db.fs;
          return FilePanic;
        case Some(info) =>
          if info.name == file {
            assert info.id == id && id in FilesNamed(db.fs, post, file);
            return Download(info.id);
          }
      }
      remaining := remaining - {id};
    }
    assert !MissingAttachment(db.fs, post) by {
      forall i | 0 <= i < |post.header.files| ensures post.header.files[i] in db.fs {
        assert post.header.files[i] in infos.Keys - remaining;
      }
    }
    assert forall id | id in FileSet(post) && id in db.fs :: db.fs[id].name != file by {
      forall id | id in FileSet(post) && id in db.fs ensures db.fs[id].name != file {
        assert id in infos.Keys - remaining;
      }
    }
    assert FilesNamed(db.fs, post, file) == {};
    r := FileNotFound;
  }
}
