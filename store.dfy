/**
 * The persistent state the blog engine keeps in MongoDB: the `posts`
 * collection and the GridFS file store `fs`, both keyed by ObjectId.
 * The database handle of the original is a process-wide global; here it is
 * one `Database` object passed to every operation that touches storage.
 */
module Store {

  newtype byte = x: int | 0 <= x < 256

  /** A bson.ObjectId. Ids are opaque: the model compares them for equality,
      and orders them by `raw` only where MongoDB's natural (insertion)
      order decides something. */
  datatype ObjectId = ObjectId(raw: nat)

  datatype Option<T> = None | Some(value: T)

  /** Why an operation did not produce its value. */
  datatype Error =
    | NotFound     // mgo.ErrNotFound: no document or file with that key
    | NilPointer   // the Go code dereferences a nil *FileInfo and panics

  datatype Result<T> = Ok(value: T) | Err(error: Error)

  /** Nanoseconds in one second; timestamps are integer nanoseconds (UTC). */
  const NanosPerSecond: int := 1_000_000_000

  /** Go's zero time.Time, 0001-01-01 00:00:00 UTC, in nanoseconds from the Unix epoch. */
  const ZeroTime: int := -62135596800 * NanosPerSecond

  /** Nanoseconds in one millisecond: BSON keeps a time.Time as whole milliseconds. */
  const NanosPerMilli: int := 1_000_000

  /** The instant a time.Time comes back as after a trip through BSON:
      Unix()*1000 + Nanosecond()/1e6 milliseconds, which is the time
      truncated towards the past to the millisecond. */
  function ToBsonTime(t: int): (s: int)
    ensures s <= t < s + NanosPerMilli
    ensures s % NanosPerMilli == 0
  {
    (t / NanosPerMilli) * NanosPerMilli
  }

  /** A time that is already whole milliseconds survives BSON unchanged. */
  lemma {:induction false} BsonTimeIdempotent(t: int)
    ensures ToBsonTime(ToBsonTime(t)) == ToBsonTime(t)
  {
    var s := ToBsonTime(t);
    var q := s / NanosPerMilli;
    assert s == q * NanosPerMilli + s % NanosPerMilli;
    assert s == q * NanosPerMilli;
  }

  /** The metadata of a post (compose/post.go, PostHeader). */
  datatype PostHeader = PostHeader(
    id: ObjectId,
    title: string,
    date: int,
    lastModified: int,
    slug: string,
    draft: bool,
    files: seq<ObjectId>)

  /** A post: its header, inlined in the stored document, and the markdown body. */
  datatype Post = Post(header: PostHeader, body: string)

  /** A GridFS file: its metadata and its content. `length` is the size GridFS records. */
  datatype Blob = Blob(name: string, uploadDate: int, length: nat, content: seq<byte>)

  /** The metadata GetFileInfoById reads from an open GridFS file (compose/uploads.go, FileInfo). */
  datatype FileInfo = FileInfo(id: ObjectId, name: string, uploadDate: int, size: nat)

  /** The post as it reads back from the `posts` collection: both of its
      times truncated to the millisecond, everything else unchanged. */
  function Persisted(post: Post): (p: Post)
    ensures p.header.date == ToBsonTime(post.header.date)
    ensures p.header.lastModified == ToBsonTime(post.header.lastModified)
    ensures p.header.(date := post.header.date, lastModified := post.header.lastModified) == post.header
    ensures p.body == post.body
  {
    Post(post.header.(date := ToBsonTime(post.header.date),
                      lastModified := ToBsonTime(post.header.lastModified)), post.body)
  }

  /** Storing a post that was read back from the collection changes nothing. */
  lemma PersistedIdempotent(post: Post)
    ensures Persisted(Persisted(post)) == Persisted(post)
  {
    BsonTimeIdempotent(post.header.date);
    BsonTimeIdempotent(post.header.lastModified);
  }

  /** Every stored post's times are whole milliseconds, as BSON keeps them. */
  ghost predicate TimesInMillis(posts: map<ObjectId, Post>)
  {
    forall id | id in posts ::
      posts[id].header.date % NanosPerMilli == 0 && posts[id].header.lastModified % NanosPerMilli == 0
  }

  /** Every stored post is stored under its own id. */
  ghost predicate KeyedById(posts: map<ObjectId, Post>)
  {
    forall id | id in posts :: posts[id].header.id == id
  }

  /** Every stored file records the length of its content. */
  ghost predicate LengthsRecorded(fs: map<ObjectId, Blob>)
  {
    forall id | id in fs :: fs[id].length == |fs[id].content|
  }

  /** The database: the `posts` collection and the `fs` GridFS bucket. */
  class Database {
    var posts: map<ObjectId, Post>
    var fs: map<ObjectId, Blob>

    ghost predicate Valid()
      reads this
    {
      KeyedById(posts) && TimesInMillis(posts) && LengthsRecorded(fs)
    }

    constructor ()
      ensures Valid()
      ensures posts == map[] && fs == map[]
    {
      posts := map[];
      fs := map[];
    }
  }
}
