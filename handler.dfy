/** The HTTP boundary of module/internal/handler: route parameters in,
    coordinator calls, and the response each outcome produces. The response
    writer is abstracted as the returned response value. */
module Handler {
  import opened Wrappers
  import opened Decimal
  import opened Entity
  import opened Repository
  import opened Util
  import opened Usecase

  const StatusOK: int := 200
  const StatusCreated: int := 201
  const StatusNoContent: int := 204
  const StatusInternalServerError: int := 500

  const ContentTypeJson: string := "application/json; charset=utf-8"

  /** `response.File`: what a listing shows of a record. */
  datatype FileResponse = FileResponse(id: string, name: string, size: int, createdAt: Time)

  /** The JSON values the handlers encode: `{"message": ...}` and an array of
      `{fileid, name, size, created_at}` objects (never `null`). */
  datatype Json = MessageJson(message: string) | FileListJson(items: seq<FileResponse>)

  /** No body, a JSON value encoded and followed by a newline, or a stored file served as is. */
  datatype Body = NoBody | JsonBody(value: Json) | ServedFile(path: string)

  datatype Response = Response(status: int, headers: map<string, string>, body: Body)

  /** A handler either answers, or the request dies in a panic. */
  datatype Reply = Answered(response: Response) | Crashed(message: string)

  /** `WriteHTTPResponse(w, body, code)`: JSON content type, the status, and the
      body only when it is non-nil. */
  function WriteHTTPResponse(body: Option<Json>, code: int): (r: Response)
    ensures r.status == code && r.headers == map["Content-Type" := ContentTypeJson]
    ensures r.body.NoBody? <==> body.None?
    ensures body.Some? ==> r.body == JsonBody(body.value)
  {
    Response(code, map["Content-Type" := ContentTypeJson], if body.Some? then JsonBody(body.value) else NoBody)
  }

  /** `BuildErrorResponse(w, err)`: a RequestError answers its own status with
      no body; any other error answers 500 with its text as the message. */
  function BuildErrorResponse(err: Error): (r: Response)
    ensures r.headers == map["Content-Type" := ContentTypeJson]
    ensures err.RequestError? ==> r.status == err.statusCode && r.body == NoBody
    ensures !err.RequestError? ==> r.status == StatusInternalServerError && r.body == JsonBody(MessageJson(ErrorText(err)))
  {
    match err
    case RequestError(code, _) => WriteHTTPResponse(None, code)
    case _ => WriteHTTPResponse(Some(MessageJson(ErrorText(err))), StatusInternalServerError)
  }

  /** The statuses the predefined errors answer with, and the body of a plain error. */
  lemma ErrorStatuses(message: string)
    ensures BuildErrorResponse(ErrorBadRequest).status == 400
    ensures BuildErrorResponse(ErrorFileNotFound).status == StatusNotFound
    ensures BuildErrorResponse(ErrorFileExists).status == 409
    ensures BuildErrorResponse(ErrorFileUnsupported).status == 415
    ensures BuildErrorResponse(ErrorParamType).status == 422
    ensures BuildErrorResponse(PlainError(message)) == Response(500, map["Content-Type" := ContentTypeJson], JsonBody(MessageJson(message)))
  {
  }

  /** `fileEntityToResponse`: the id in decimal, name, size and creation time; the MIME type is dropped. */
  function FileEntityToResponse(f: File): (r: FileResponse)
    ensures r.name == f.name && r.size == f.size && r.createdAt == f.createdAt
    ensures r.id == FormatInt(f.id)
  {
    FileResponse(FormatInt(f.id), f.name, f.size, f.createdAt)
  }

  /** The projection forgets the MIME type and nothing else: it tells records
      apart exactly when they differ outside the MIME type. */
  lemma ResponseDropsOnlyMimeType(f: File, g: File)
    ensures FileEntityToResponse(f) == FileEntityToResponse(g) <==> f.(mimeType := g.mimeType) == g
  {
    if FileEntityToResponse(f) == FileEntityToResponse(g) {
      FormatIntInjective(f.id, g.id);
    }
  }

  /** The `fileid` a listing shows is accepted by GetFile/DeleteFile and names the same record. */
  lemma ListedIdResolves(f: File)
    requires MinInt <= f.id <= MaxInt
    ensures Atoi(FileEntityToResponse(f).id) == Some(f.id)
  {
    AtoiFormatInt(f.id);
  }

  /** `items` is the element-wise projection of `files`, in the same order. */
  predicate Projects(files: seq<File>, items: seq<FileResponse>)
  {
    |items| == |files| && forall i | 0 <= i < |files| :: items[i] == FileEntityToResponse(files[i])
  }

  /** The append loop of ListFiles, starting from an empty (non-nil) slice. */
  method BuildListResult(files: seq<File>) returns (result: seq<FileResponse>)
    ensures Projects(files, result)
  {
    result := [];
    for i := 0 to |files|
      invariant Projects(files[..i], result)
    {
      result := result + [FileEntityToResponse(files[i])];
    }
    assert files[..|files|] == files;
  }

  /** Answer to a successful upload: 201, `Location` = StoragePath/<decimal id>, no body. */
  function CreatedResponse(f: File): (r: Response)
    ensures r.status == StatusCreated && r.body == NoBody
    ensures r.headers.Keys == {"Location", "Content-Type"} && r.headers["Content-Type"] == ContentTypeJson
    ensures r.headers["Location"] == BlobPath(FormatInt(f.id))
  {
    Response(StatusCreated,
             map["Location" := StoragePath + "/" + FormatInt(f.id), "Content-Type" := ContentTypeJson],
             NoBody)
  }

  /** How CreateFile answers a coordinator outcome. A nil record without an
      error would be dereferenced, which panics. */
  function CreateReply(o: CreateOutcome): (r: Reply)
    ensures o.Aborted? ==> r == Crashed(o.message)
    ensures o.Returned? && o.err.Some? ==> r == Answered(BuildErrorResponse(o.err.value))
    ensures o.Returned? && o.err.None? && o.file.Some? ==> r == Answered(CreatedResponse(o.file.value))
  {
    match o
    case Aborted(message) => Crashed(message)
    case Returned(file, err) =>
      if err.Some? then Answered(BuildErrorResponse(err.value))
      else if file.None? then Crashed("invalid memory address or nil pointer dereference")
      else Answered(CreatedResponse(file.value))
  }

  /** Statuses of an upload: 201 for a created record whose blob was written,
      409 for a taken name, 415 for a non-video type, 500 when the blob write
      fails after the record was created. */
  lemma CreateStatuses(f: File, storeErr: string)
    ensures CreateReply(Returned(Some(f), None)).response.status == 201
    ensures CreateReply(Returned(None, Some(ErrorFileExists))).response.status == 409
    ensures CreateReply(Returned(None, Some(ErrorFileUnsupported))).response.status == 415
    ensures CreateReply(Returned(Some(f), Some(PlainError(storeErr)))).response.status == 500
  {
  }

  /** An upload crashes only when MIME detection panics: the coordinator never
      hands back a nil record without an error. */
  lemma UploadCrashesOnlyOnPanic(w: World, d: Detection, header: FileHeader, remaining: seq<byte>,
                                 readFault: Option<string>, now: Time, dbFault: Option<Error>, openFault: Option<Error>)
    ensures CreateReply(Create(w, d, header, remaining, readFault, now, dbFault, openFault).outcome).Crashed?
            <==> d.Panicked?
  {
  }

  /** Requests for id 0 with only record 1 stored. As written, GET serves
      record 1's blob with 200, and DELETE removes that blob, keeps the row and
      answers 500. As intended (`Lookup`, `Delete`) both answer 404 and change
      nothing. */
  lemma ZeroIdRequestsAsWritten(f: File, blob: seq<byte>)
    requires f.id == 1
    ensures var w := World(Table(map[1 := f], 2), map[BlobPath(f.name) := blob]);
            var got := LookupAsWritten(w.table, 0, None);
            var del := DeleteAsWritten(w, 0, None, false, None);
            && got == Success(f) && GetFileResponse(got.value).body == ServedFile(BlobPath(f.name))
            && del.world.table == w.table && BlobPath(f.name) !in del.world.blobs
            && del.err.Some? && BuildErrorResponse(del.err.value).status == StatusInternalServerError
            && Lookup(w.table, 0, None) == Failure(ErrorFileNotFound)
            && BuildErrorResponse(ErrorFileNotFound).status == 404
            && Delete(w, 0, None, false, None) == Deleted(w, Some(ErrorFileNotFound))
  {
    var t := Table(map[1 := f], 2);
    assert FirstRowFrom(t, 1) == Some(f);
  }

  /** Answer to a successful GetFile: the record's blob served as an attachment
      named after the record, with the record's MIME type. */
  function GetFileResponse(f: File): (r: Response)
    ensures r.headers.Keys == {"Content-Disposition", "Content-Type"}
    ensures r.headers["Content-Disposition"] == "attachment; filename=" + f.name
    ensures r.headers["Content-Type"] == f.mimeType
    ensures r.body == ServedFile(BlobPath(f.name))
    ensures r.status == StatusOK
  {
    Response(StatusOK,
             map["Content-Disposition" := "attachment; filename=" + f.name, "Content-Type" := f.mimeType],
             ServedFile(StoragePath + "/" + f.name))
  }

  /** The uploaded `data` part of a request. */
  datatype Upload = Upload(content: seq<byte>, header: FileHeader, readFault: Option<string>, closeResult: Option<Error>)

  /** `FileHandler`. `sniff` is the content-based MIME detector every reader uses. */
  class FileHandler {
    const usecase: FileUsecase
    const sniff: seq<byte> -> string

    ghost predicate Valid()
      reads usecase.repository
    {
      usecase.Valid()
    }

    constructor (usecase: FileUsecase, sniff: seq<byte> -> string)
      ensures this.usecase == usecase && this.sniff == sniff
    {
      this.usecase := usecase;
      this.sniff := sniff;
    }

    /** POST /v1/files with the upload in form field `data` (`form`). */
    method CreateFile(form: Option<Upload>, now: Time, dbFault: Option<Error>, openFault: Option<Error>)
      returns (reply: Reply)
      requires Valid()
      modifies usecase.repository, usecase.storage
      ensures Valid()
      ensures form.None? ==> reply == Answered(BuildErrorResponse(ErrorBadRequest))
                             && usecase.Snapshot() == old(usecase.Snapshot())
      ensures form.Some? ==>
                var u := form.value;
                var c := Create(old(usecase.Snapshot()), DetectAt(u.content, 0, u.readFault, sniff), u.header,
                                u.content, u.readFault, now, dbFault, openFault);
                usecase.Snapshot() == c.world && reply == CreateReply(c.outcome)
    {
      if form.None? {
        return Answered(BuildErrorResponse(ErrorBadRequest));
      }
      var u := form.value;
      var reader := new FileReader(u.content, u.header, u.readFault, u.closeResult, sniff);
      var outcome := usecase.CreateFile(reader, now, dbFault, openFault);
      reply := CreateReply(outcome);
    }

    /** GET /v1/files. */
    method ListFiles(fault: Option<Error>) returns (resp: Response)
      requires Valid()
      ensures fault.Some? ==> resp == BuildErrorResponse(fault.value)
      ensures fault.None? ==>
                && resp.status == StatusOK && resp.headers == map["Content-Type" := ContentTypeJson]
                && resp.body.JsonBody? && resp.body.value.FileListJson?
                && |resp.body.value.items| == |usecase.repository.State().rows|
                && exists files :: IsListing(usecase.repository.State(), files) && Projects(files, resp.body.value.items)
    {
      var files, err := usecase.ListFiles(fault);
      if err.Some? {
        return BuildErrorResponse(err.value);
      }
      var result := BuildListResult(files);
      ListingSize(usecase.repository.State(), files);
      resp := WriteHTTPResponse(Some(FileListJson(result)), StatusOK);
    }

    /** GET /v1/files/:fileid. */
    method GetFile(fileid: string, fault: Option<Error>) returns (resp: Response)
      ensures Atoi(fileid).None? ==> resp == BuildErrorResponse(ErrorFileNotFound)
      ensures Atoi(fileid).Some? ==>
                var look := Lookup(usecase.repository.State(), Atoi(fileid).value, fault);
                resp == if look.Success? then GetFileResponse(look.value) else BuildErrorResponse(look.error)
    {
      var id := Atoi(fileid);
      if id.None? {
        return BuildErrorResponse(ErrorFileNotFound);
      }
      var result := usecase.GetFile(id.value, fault);
      if result.Failure? {
        return BuildErrorResponse(result.error);
      }
      resp := GetFileResponse(result.value);
    }

    /** DELETE /v1/files/:fileid. */
    method DeleteFile(fileid: string, getFault: Option<Error>, removeRefused: bool, deleteFault: Option<Error>)
      returns (resp: Response)
      requires Valid()
      modifies usecase.repository, usecase.storage
      ensures Valid()
      ensures Atoi(fileid).None? ==> resp == BuildErrorResponse(ErrorFileNotFound)
                                     && usecase.Snapshot() == old(usecase.Snapshot())
      ensures Atoi(fileid).Some? ==>
                var r := Delete(old(usecase.Snapshot()), Atoi(fileid).value, getFault, removeRefused, deleteFault);
                && usecase.Snapshot() == r.world
                && resp == if r.err.None? then WriteHTTPResponse(None, StatusNoContent) else BuildErrorResponse(r.err.value)
    {
      var id := Atoi(fileid);
      if id.None? {
        return BuildErrorResponse(ErrorFileNotFound);
      }
      var err := usecase.DeleteFile(id.value, getFault, removeRefused, deleteFault);
      if err.Some? {
        return BuildErrorResponse(err.value);
      }
      resp := WriteHTTPResponse(None, StatusNoContent);
    }
  }
}
