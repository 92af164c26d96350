/**
 * The `POST /api/files` route: an ordered decision procedure over the JSON
 * body — required fields, then the owning todo, then the save to disk,
 * then the file record.
 */
module FilesRoute {
  import opened Types
  import opened Text
  import opened Db
  import opened FileUpload

  /** The JSON body; an absent field is `None`. */
  datatype UploadBody = UploadBody(
    todoId: Option<string>,
    file: Option<string>,
    filename: Option<string>,
    mimetype: Option<string>)

  /** The body of the 201 answer. */
  datatype UploadedFile = UploadedFile(
    id: string,
    filename: string,
    url: string,
    size: nat,
    mimetype: string,
    createdAt: nat)

  /** A string field is falsy when it is absent or empty. */
  predicate Falsy(field: Option<string>) {
    field.None? || field.value == ""
  }

  /** The required fields: `todoId`, `file` and `filename`. */
  predicate HasRequiredFields(body: UploadBody) {
    !Falsy(body.todoId) && !Falsy(body.file) && !Falsy(body.filename)
  }

  /** `body.mimetype || 'application/octet-stream'`. */
  function RecordedMimetype(mimetype: Option<string>): (r: string)
    ensures r != ""
    ensures !Falsy(mimetype) ==> r == mimetype.value
    ensures Falsy(mimetype) ==> r == "application/octet-stream"
  {
    if Falsy(mimetype) then "application/octet-stream" else mimetype.value
  }

  /** The save of `saveFileFromBase64` succeeds for this body, uuid and disk. */
  predicate SaveSucceeds(body: UploadBody, uuid: string, diskFault: bool)
    requires HasRequiredFields(body)
  {
    var m := MatchEnvelope(body.file.value);
    m.Some? && !diskFault && '/' !in Extension(body.filename.value, m.value.mimetype)
  }

  /**
   * `POST /api/files`. `uuid`, `decode` and `diskFault` stand for
   * `uuidv4()`, the base64 decoder and the disk; `now` is the time of the
   * record.
   */
  method Post(db: Database, store: FileStore, body: UploadBody, uuid: string,
              decode: string -> seq<Byte>, diskFault: bool, now: nat)
    returns (reply: Reply<UploadedFile>)
    requires db.Valid() && store.Valid() && IsUuid(uuid)
    modifies db, store
    ensures db.Valid()
    ensures !HasRequiredFields(body) ==>
      reply == ErrorJson(400, "Missing required fields") && unchanged(db) && unchanged(store)
    ensures HasRequiredFields(body) && FindTodo(old(db.todos), body.todoId.value).None? ==>
      reply == ErrorJson(404, "Todo not found") && unchanged(db) && unchanged(store)
    ensures HasRequiredFields(body) && FindTodo(old(db.todos), body.todoId.value).Some? && !SaveSucceeds(body, uuid, diskFault) ==>
      reply == ErrorJson(500, "Failed to upload file") && unchanged(db) && store.files == old(store.files)
    ensures reply.Json? <==>
      HasRequiredFields(body) && FindTodo(old(db.todos), body.todoId.value).Some? && SaveSucceeds(body, uuid, diskFault)
    ensures reply.Json? ==>
      var e := MatchEnvelope(body.file.value).value;
      var name := StoredName(uuid, Extension(body.filename.value, e.mimetype));
      var path := StoragePath(store.uploadDir, name);
      var bytes := decode(e.payload);
      && reply.status == 201
      && store.files == old(store.files)[path := bytes]
      && |db.files| == |old(db.files)| + 1
      && db.files == old(db.files) + [db.files[|old(db.files)|]]
      && FileView(db.files[|old(db.files)|]) ==
           TodoFile(reply.value.id, body.filename.value, path, RecordedMimetype(body.mimetype),
                    |bytes|, body.todoId.value, now, now)
      && reply.value == UploadedFile(reply.value.id, body.filename.value, PublicUrl(name), |bytes|,
                                     RecordedMimetype(body.mimetype), now)
      && db.todos == old(db.todos) && db.tags == old(db.tags) && db.links == old(db.links)
  {
    if !HasRequiredFields(body) {
      return ErrorJson(400, "Missing required fields");
    }
    var todo := FindTodo(db.todos, body.todoId.value);
    if todo.None? {
      return ErrorJson(404, "Todo not found");
    }
    var fileInfo := store.SaveFileFromBase64(body.file.value, body.filename.value, uuid, decode, diskFault);
    if fileInfo.Err? {
      assert fileInfo.error.InvalidBase64String? || fileInfo.error.WriteFailed?;
      return ErrorJson(500, "Failed to upload file");
    }
    assert todo.value in db.todos;
    var row := db.CreateTodoFile(body.filename.value, fileInfo.value.path, RecordedMimetype(body.mimetype),
                                 fileInfo.value.size, todo.value.id, now);
    reply := Json(201, UploadedFile(IdFor(row.id), row.filename, fileInfo.value.url, row.size, row.mimetype, row.createdAt));
  }
}
