/**
 * End-to-end use of the repository through its handlers: an author creates
 * a post, uploads an attachment, links it into the post and publishes it; a
 * reader then fetches the attachment by the post's slug and its file name.
 * The contracts of the handlers alone decide what the reader gets.
 */
module Scenarios {
  import opened Store
  import Posts
  import Uploads
  import Api
  import Index

  /**
   * On an empty store: ApiCreatePost, UploadHandler of "diagram.png",
   * ApiUpdatePost publishing the post under the slug "hello" with the file
   * attached, then ViewFileHandler for "hello/diagram.png". The reader is
   * handed the uploaded file, whose content is the uploaded bytes, and the
   * first index page (ten posts to a page, no page parameter) shows the post.
   */
  method PublishAndFetchAttachment(postId: ObjectId, fileId: ObjectId, data: seq<byte>, now: int)
    returns (outcome: Posts.FileOutcome, served: seq<byte>, index: Index.IndexResponse)
    ensures outcome == Posts.Download(fileId)
    ensures served == data
    ensures !index.internalError && index.outcome.IndexRender?
    ensures index.outcome.currentPage == 1 && index.outcome.totalPages == 1
    ensures |index.outcome.posts| == 1
    ensures index.outcome.posts[0].header.slug == "hello" && index.outcome.posts[0].header.files == [fileId]
  {
    var db := new Database();
    var created := Api.ApiCreatePost(db, postId, now);
    var upload := Uploads.UploadHandler(db, Uploads.Succeeded(Uploads.FormFile("diagram.png", data)),
                                        None, None, fileId, now);
    var draft := created.post;
    var published := Post(draft.header.(slug := "hello", draft := false, files := [fileId]), draft.body);
    var updated := Api.ApiUpdatePost(db, postId, Some(published), now);
    var stored := Persisted(Posts.Stamped(published, now));
    assert db.posts == map[postId := stored];
    OnlyPostIsFound(postId, stored);
    assert stored.header.files == [fileId];
    assert Posts.FileSet(stored) == {fileId} by {
      assert stored.header.files[0] == fileId;
    }
    assert Posts.FilesNamed(db.fs, stored, "diagram.png") == {fileId};
    outcome := Posts.ViewFileHandler(db, "hello", "diagram.png");
    served := db.fs[fileId].content;
    index := Index.IndexHandler(db.posts, Index.Empty, 10);
    assert Posts.Matching(db.posts, false) == {postId};
    Posts.UnboundedListingIsComplete(db.posts, false, postId);
  }

  /** In a store holding one post, looking up that post's slug finds it. */
  lemma OnlyPostIsFound(id: ObjectId, post: Post)
    ensures Posts.FindPostBySlug(map[id := post], post.header.slug) == Ok(post)
  {
    var posts := map[id := post];
    assert posts[id].header.slug == post.header.slug;
    var r := Posts.FindPostBySlug(posts, post.header.slug);
    assert r.value in posts.Values;
    assert forall p | p in posts.Values :: p == post;
  }
}
