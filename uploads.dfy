/** POST /api/upload: multer stores the file part on disk under the storage rules, then
    the handler inserts the form's fields with the stored filename into `files`. */
module Uploads {
  import opened Wrappers
  import opened Files
  import Decimal
  import Storage
  import Queries

  /** The multipart form's text fields, each possibly missing. */
  datatype UploadForm = UploadForm(
    title: Option<string>,
    description: Option<string>,
    tags: Option<string>,
    fileType: Option<string>)

  /** The `file` part as multer sees it: the name the client gave it. */
  datatype FilePart = FilePart(originalname: string)

  /** 200 with `fileId`; 500 with the database error; or the handler throws before
      reaching the database because the request carried no file part. */
  datatype UploadReply = Uploaded(fileId: nat) | InsertFailed(error: SqlError) | NoFile

  /** Runs the upload route at clock reading `clockMs` (milliseconds, for the stored
      name) and database time `now` (for `uploaded_at`), in a process whose working
      directory is `cwd` and whose script lies in `serverDir`. `stored` is where
      multer wrote the file; it is written even when the insert then fails. */
  method Upload(db: FilesTable, cwd: string, serverDir: string, form: UploadForm, file: Option<FilePart>,
                clockMs: nat, now: nat)
    returns (reply: UploadReply, stored: Option<string>)
    requires db.Valid()
    modifies db
    ensures db.Valid()
    ensures file.None? <==> reply == NoFile
    ensures file.None? ==> stored == None
    ensures file.Some? ==> stored == Some(Storage.StoredPath(cwd, form.fileType, clockMs, file.value.originalname))
    ensures !reply.Uploaded? ==> db.rows == old(db.rows) && db.sequence == old(db.sequence)
    ensures file.Some? ==>
      (reply.Uploaded? <==> old(db.sequence) < MaxRowId && form.title.Some? && TypeAllowed(form.fileType))
    ensures file.Some? && old(db.sequence) == MaxRowId ==> reply == InsertFailed(Full)
    ensures file.Some? && old(db.sequence) < MaxRowId && form.title.None? ==>
      reply == InsertFailed(NotNull("files.title"))
    ensures file.Some? && old(db.sequence) < MaxRowId && form.title.Some? && !TypeAllowed(form.fileType) ==>
      reply == InsertFailed(CheckFailed)
    ensures reply.Uploaded? ==>
      && reply.fileId == old(db.sequence) + 1 == db.sequence
      && (forall row :: row in old(db.rows) ==> row.id < reply.fileId)
      && db.rows == old(db.rows) + [Row(reply.fileId, form.title.value, form.description,
                                        Storage.StoredName(clockMs, file.value.originalname),
                                        form.tags, form.fileType, now)]
    ensures reply.Uploaded? && form.fileType.Some? ==>
      && Queries.Download(db.rows, serverDir, Decimal.Show(reply.fileId))
         == Queries.Serve(Storage.DownloadPath(serverDir, form.fileType.value,
                                               Storage.StoredName(clockMs, file.value.originalname)))
      && (Queries.Download(db.rows, serverDir, Decimal.Show(reply.fileId)) == Queries.Serve(stored.value)
          <==> cwd == serverDir)
    ensures reply.Uploaded? && form.fileType.None? ==>
      Queries.Download(db.rows, serverDir, Decimal.Show(reply.fileId)) == Queries.Crashed
  {
    if file.None? {
      return NoFile, None;
    }
    var filename := Storage.StoredName(clockMs, file.value.originalname);
    stored := Some(Storage.StoredPath(cwd, form.fileType, clockMs, file.value.originalname));
    var r := db.Insert(form.title, form.description, Some(filename), form.tags, form.fileType, now);
    if r.Err? {
      return InsertFailed(r.error), stored;
    }
    reply := Uploaded(r.value);
    var row := db.rows[|db.rows| - 1];
    Queries.DownloadById(db.rows, db.sequence, serverDir, row);
    if form.fileType.Some? {
      Storage.StoreThenLocate(cwd, serverDir, form.fileType.value, clockMs, file.value.originalname);
    }
  }
}
