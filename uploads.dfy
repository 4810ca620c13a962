/**
 * File metadata and the GridFS file store (compose/uploads.go): single and
 * batch metadata lookup, deletion by id, and the upload handler that
 * streams a form file into a new stored file.
 */
module Uploads {
  import opened Store

  /** The FileInfo that GetFileInfoById builds from the open file `id`:
      its id, its name, its upload date and the length GridFS records. */
  function InfoOf(id: ObjectId, blob: Blob): (info: FileInfo)
    ensures info.id == id && info.name == blob.name
    ensures info.uploadDate == blob.uploadDate && info.size == blob.length
  {
    FileInfo(id, blob.name, blob.uploadDate, blob.length)
  }

  /** Opens the file `id` and reads its metadata; fails with NotFound for an unknown id. */
  function GetFileInfoById(fs: map<ObjectId, Blob>, id: ObjectId): (r: Result<FileInfo>)
    ensures r.Ok? <==> id in fs
    ensures r.Err? ==> r.error == NotFound
    ensures r.Ok? ==> r.value == InfoOf(id, fs[id])
    ensures r.Ok? && LengthsRecorded(fs) ==> r.value.size == |fs[id].content|
  {
    if id in fs then Ok(InfoOf(id, fs[id])) else Err(NotFound)
  }

  /** Looks up every id in `ids`. The batch never fails: an id whose lookup
      fails maps to None (Go's nil *FileInfo). Repeated ids give one entry. */
  method GetMultFileInfoById(fs: map<ObjectId, Blob>, ids: seq<ObjectId>)
    returns (out: map<ObjectId, Option<FileInfo>>)
    ensures forall id :: id in out <==> id in ids
    ensures forall id | id in out :: out[id].None? <==> GetFileInfoById(fs, id).Err?
    ensures forall id | id in out && out[id].Some? :: out[id].value == GetFileInfoById(fs, id).value
  {
    out := map[];
    var i := 0;
    while i < |ids|
      invariant 0 <= i <= |ids|
      invariant forall id :: id in out <==> id in ids[..i]
      invariant forall id | id in out :: out[id].None? <==> GetFileInfoById(fs, id).Err?
      invariant forall id | id in out && out[id].Some? :: out[id].value == GetFileInfoById(fs, id).value
    {
      var id := ids[i];
      var info := GetFileInfoById(fs, id);
      if info.Err? {
        out := out[id := None];
      } else {
        out := out[id := Some(info.value)];
      }
      i := i + 1;
    }
    assert ids[..i] == ids;
  }

  /** Removes the file `file.id` from GridFS; an unknown id is an error. Returns the info it was given. */
  method DeleteFile(db: Database, file: FileInfo) returns (r: Result<FileInfo>)
    requires db.Valid()
    modifies db
    ensures db.Valid()
    ensures db.fs == old(db.fs) - {file.id}
    ensures db.posts == old(db.posts)
    ensures r == if file.id in old(db.fs) then Ok(file) else Err(NotFound)
  {
    var existed := file.id in db.fs;
    db.fs := db.fs - {file.id};
    r := if existed then Ok(file) else Err(NotFound);
  }

  /** The multipart form field "file": the client's file name and the bytes of the stream. */
  datatype FormFile = FormFile(filename: string, data: seq<byte>)

  /** A step of the upload that either yields a value or fails with err.Error()'s message. */
  datatype Attempt<T> = Succeeded(value: T) | Failed(message: string)

  /** The JSON object UploadHandler encodes: "status", "message" and, on success only, "_id". */
  datatype UploadResponse = UploadResponse(status: string, message: string, id: Option<ObjectId>)

  const UploadedMessage: string := "file uploaded successfully"

  /** The file GridFS holds after `data` was copied in full into a file
      created as `name`; its upload date is the clock `now` in BSON's
      millisecond precision. */
  function UploadedBlob(name: string, data: seq<byte>, now: int): (b: Blob)
    ensures b.name == name && b.content == data && b.length == |data|
    ensures b.uploadDate <= now < b.uploadDate + NanosPerMilli && b.uploadDate % NanosPerMilli == 0
  {
    Blob(name, ToBsonTime(now), |data|, data)
  }

  /**
   * UploadHandler: reads the form file, creates a GridFS file named by the
   * form's file name, copies the stream into it and answers with a status
   * object. `form`, `createError` and `copyError` are the outcomes of
   * r.FormFile, GridFS Create and io.Copy; `newId` is the id GridFS assigns
   * and `now` the clock when the file is closed. GridFS never hands out an
   * id already in use.
   */
  method UploadHandler(db: Database, form: Attempt<FormFile>, createError: Option<string>,
                       copyError: Option<string>, newId: ObjectId, now: int)
    returns (response: UploadResponse)
    requires db.Valid()
    requires newId !in db.fs
    modifies db
    ensures db.Valid()
    ensures db.posts == old(db.posts)
    ensures response.status == "success" || response.status == "error"
    ensures response.status == "success" <==> form.Succeeded? && createError.None? && copyError.None?
    ensures response.status == "success" ==>
              && response.id == Some(newId)
              && response.message == UploadedMessage
              && db.fs == old(db.fs)[newId := UploadedBlob(form.value.filename, form.value.data, now)]
              && db.fs.Keys == old(db.fs).Keys + {newId}
              && |db.fs| == |old(db.fs)| + 1
    ensures response.status == "error" ==> response.id.None?
    ensures form.Failed? ==> response.message == form.message
    ensures form.Succeeded? && createError.Some? ==> response.message == createError.value
    ensures form.Succeeded? && createError.None? && copyError.Some? ==> response.message == copyError.value
    ensures form.Failed? || createError.Some? ==> db.fs == old(db.fs)
    ensures forall id | id in old(db.fs) && id != newId :: id in db.fs && db.fs[id] == old(db.fs)[id]
    ensures db.fs.Keys <= old(db.fs).Keys + {newId}
  {
    if form.Failed? {
      return UploadResponse("error", form.message, None);
    }
    if createError.Some? {
      return UploadResponse("error", createError.value, None);
    }
    if copyError.Some? {
      return UploadResponse("error", copyError.value, None);
    }
    var file := form.value;
    db.fs := db.fs[newId := UploadedBlob(file.filename, file.data, now)];
    response := UploadResponse("success", UploadedMessage, Some(newId));
  }
}
