/** The file lifecycle coordinator of module/internal/usecase/file.go: it ties
    MIME validation, the metadata table and the blob store into Create, List,
    Get and Delete. A record goes `absent -> active` (Create) `-> absent` (Delete). */
module Usecase {
  import opened Wrappers
  import opened Entity
  import opened Repository
  import opened Util

  /** `strings.Split(mime, "/")[0]`: the text before the first `/`, or all of it. */
  function PrimaryType(mime: string): (p: string)
    ensures |p| <= |mime| && p == mime[..|p|]
    ensures forall i | 0 <= i < |p| :: p[i] != '/'
    ensures |p| < |mime| ==> mime[|p|] == '/'
  {
    if |mime| == 0 || mime[0] == '/' then "" else [mime[0]] + PrimaryType(mime[1..])
  }

  /** The three properties above pin `PrimaryType` down. */
  lemma {:induction false} PrimaryTypeUnique(mime: string, q: string)
    requires |q| <= |mime| && q == mime[..|q|]
    requires forall i | 0 <= i < |q| :: q[i] != '/'
    requires |q| < |mime| ==> mime[|q|] == '/'
    ensures PrimaryType(mime) == q
  {
    if |q| > 0 {
      assert mime[0] == q[0];
      PrimaryTypeUnique(mime[1..], q[1..]);
    }
  }

  /** A type equal to a slash-free `v`, or starting with `v/`, has primary type `v`. */
  lemma PrefixTypeAccepted(mime: string, v: string)
    requires forall i | 0 <= i < |v| :: v[i] != '/'
    requires mime == v || (|mime| > |v| && mime[..|v|] == v && mime[|v|] == '/')
    ensures PrimaryType(mime) == v
  {
    PrimaryTypeUnique(mime, v);
  }

  /** Conversely, primary type `v` means the type is `v` or starts with `v/`. */
  lemma AcceptedTypeHasPrefix(mime: string, v: string)
    requires PrimaryType(mime) == v
    ensures mime == v || (|mime| > |v| && mime[..|v|] == v && mime[|v|] == '/')
  {
  }

  lemma VideoTypeAccepted(mime: string)
    requires mime == "video" || (|mime| >= 6 && mime[..6] == "video/")
    ensures PrimaryType(mime) == "video"
  {
    var v := "video";
    assert forall i | 0 <= i < |v| :: v[i] != '/';
    if mime != v {
      assert mime[..|v|] == mime[..6][..5];
      assert mime[|v|] == mime[..6][5];
    }
    PrefixTypeAccepted(mime, v);
  }

  lemma AcceptedTypeIsVideo(mime: string)
    requires PrimaryType(mime) == "video"
    ensures mime == "video" || (|mime| >= 6 && mime[..6] == "video/")
  {
    AcceptedTypeHasPrefix(mime, "video");
    VideoPrefixSlash(mime);
  }

  /** `video`, a slash and more starts with `video/`. */
  lemma VideoPrefixSlash(mime: string)
    requires mime == "video" || (|mime| > 5 && mime[..5] == "video" && mime[5] == '/')
    ensures mime == "video" || (|mime| >= 6 && mime[..6] == "video/")
  {
    if mime != "video" {
      assert mime[..6] == mime[..5] + [mime[5]];
    }
  }

  /** A MIME type is accepted exactly when it is `video` or starts with `video/`. */
  lemma AcceptedMimeTypes(mime: string)
    ensures PrimaryType(mime) == "video" <==> mime == "video" || (|mime| >= 6 && mime[..6] == "video/")
  {
    if PrimaryType(mime) == "video" {
      AcceptedTypeIsVideo(mime);
    }
    if mime == "video" || (|mime| >= 6 && mime[..6] == "video/") {
      VideoTypeAccepted(mime);
    }
  }

  /** Both stores, as the coordinator sees them. */
  datatype World = World(table: Table, blobs: map<string, seq<byte>>)

  /** What CreateFile hands back: its two results, or the panic of MIME detection. */
  datatype CreateOutcome = Aborted(message: string) | Returned(file: Option<File>, err: Option<Error>)

  datatype Created = Created(world: World, outcome: CreateOutcome)

  /** Specification of CreateFile. `d` is what MIME detection reports, `header`
      the upload's header, `remaining` the bytes a store would copy. */
  function Create(w: World, d: Detection, header: FileHeader, remaining: seq<byte>, readFault: Option<string>,
                  now: Time, dbFault: Option<Error>, openFault: Option<Error>): (c: Created)
    ensures c.outcome.Aborted? <==> d.Panicked?
    ensures c.outcome.Returned? ==> c.outcome.file.Some? || c.outcome.err.Some?
    ensures c.outcome.Returned? && c.outcome.file.None? ==> c.world == w
    ensures c.outcome.Aborted? ==> c.world == w
    ensures c.outcome.Returned? && c.outcome.file.Some? ==>
              && d.Detected? && d.err.None? && PrimaryType(d.mime) == "video"
              && c.outcome.file.value.id == w.table.nextId
              && c.world.table.rows == w.table.rows[c.outcome.file.value.id := c.outcome.file.value]
  {
    match d
    case Panicked(message) => Created(w, Aborted(message))
    case Detected(mime, err) =>
      if err.Some? then Created(w, Returned(None, err))
      else if PrimaryType(mime) != "video" then Created(w, Returned(None, Some(ErrorFileUnsupported)))
      else
        var ins := Insert(w.table, CreateParams(header.filename, header.size, mime), now, dbFault);
        if ins.result.Failure? then Created(w, Returned(None, Some(ins.result.error)))
        else
          var st := StoreSpec(w.blobs, BlobPath(header.filename), remaining, readFault, openFault);
          Created(World(ins.table, st.blobs), Returned(Some(ins.result.value), st.err))
  }

  datatype Deleted = Deleted(world: World, err: Option<Error>)

  /** Specification of DeleteFile. `removeRefused` is the file system refusing
      to remove the blob, which the coordinator ignores. */
  function Delete(w: World, id: int, getFault: Option<Error>, removeRefused: bool, deleteFault: Option<Error>): (r: Deleted)
    ensures r.world.table.nextId == w.table.nextId
    ensures r.err.None? <==> getFault.None? && id in w.table.rows && deleteFault.None?
    ensures r.err.None? ==> id !in r.world.table.rows
    ensures getFault.Some? || id !in w.table.rows ==> r.world == w
    ensures r.world.blobs.Keys <= w.blobs.Keys
    ensures getFault.None? && id in w.table.rows ==>
              r.world.blobs == if removeRefused then w.blobs else w.blobs - {BlobPath(w.table.rows[id].name)}
  {
    var look := Lookup(w.table, id, getFault);
    if look.Failure? then Deleted(w, Some(look.error))
    else
      var blobs := if removeRefused then w.blobs else w.blobs - {BlobPath(look.value.name)};
      var r := Remove(w.table, id, deleteFault);
      Deleted(World(r.table, blobs), r.err)
  }

  /** DeleteFile on the repository as written (`LookupAsWritten`,
      `RemoveAsWritten`); it differs from `Delete` only for id 0. */
  function DeleteAsWritten(w: World, id: int, getFault: Option<Error>, removeRefused: bool, deleteFault: Option<Error>): (r: Deleted)
    ensures id != 0 ==> r == Delete(w, id, getFault, removeRefused, deleteFault)
  {
    var look := LookupAsWritten(w.table, id, getFault);
    if look.Failure? then Deleted(w, Some(look.error))
    else
      var blobs := if removeRefused then w.blobs else w.blobs - {BlobPath(look.value.name)};
      var r := RemoveAsWritten(w.table, id, deleteFault);
      Deleted(World(r.table, blobs), r.err)
  }

  // ---- properties of the lifecycle ----

  lemma CreatePreservesValid(w: World, d: Detection, header: FileHeader, remaining: seq<byte>, readFault: Option<string>,
                             now: Time, dbFault: Option<Error>, openFault: Option<Error>)
    requires Repository.Valid(w.table)
    ensures Repository.Valid(Create(w, d, header, remaining, readFault, now, dbFault, openFault).world.table)
  {
    if d.Detected? {
      InsertPreservesValid(w.table, CreateParams(header.filename, header.size, d.mime), now, dbFault);
    }
  }

  /** Detection failing or reporting a non-video type touches neither store and
      yields no record. */
  lemma RejectedUploadLeavesNoTrace(w: World, d: Detection, header: FileHeader, remaining: seq<byte>, readFault: Option<string>,
                                    now: Time, dbFault: Option<Error>, openFault: Option<Error>)
    requires d.Panicked? || d.err.Some? || PrimaryType(d.mime) != "video"
    ensures var c := Create(w, d, header, remaining, readFault, now, dbFault, openFault);
            && c.world == w
            && (d.Panicked? ==> c.outcome == Aborted(d.message))
            && (d.Detected? && d.err.Some? ==> c.outcome == Returned(None, d.err))
            && (d.Detected? && d.err.None? ==> c.outcome == Returned(None, Some(ErrorFileUnsupported)))
  {
  }

  /** A failed insert is returned as is, with no record, and no blob is written. */
  lemma FailedInsertWritesNoBlob(w: World, mime: string, header: FileHeader, remaining: seq<byte>, readFault: Option<string>,
                                 now: Time, dbFault: Option<Error>, openFault: Option<Error>)
    requires PrimaryType(mime) == "video"
    requires Insert(w.table, CreateParams(header.filename, header.size, mime), now, dbFault).result.Failure?
    ensures var c := Create(w, Detected(mime, None), header, remaining, readFault, now, dbFault, openFault);
            && c.world == w
            && c.outcome == Returned(None, Some(Insert(w.table, CreateParams(header.filename, header.size, mime), now, dbFault).result.error))
  {
  }

  /** Uploading a name that is already stored fails with ErrorFileExists and
      overwrites no blob. */
  lemma DuplicateUploadRejected(w: World, mime: string, header: FileHeader, remaining: seq<byte>, readFault: Option<string>,
                                now: Time, openFault: Option<Error>)
    requires PrimaryType(mime) == "video"
    requires NameTaken(w.table, header.filename)
    ensures Create(w, Detected(mime, None), header, remaining, readFault, now, None, openFault)
            == Created(w, Returned(None, Some(ErrorFileExists)))
  {
  }

  /** An accepted upload creates a record with the upload's name and size and
      the detected type, readable by id; the record stays even when writing the
      blob fails, and is then returned together with that error. */
  lemma AcceptedUploadCreatesRecord(w: World, mime: string, header: FileHeader, remaining: seq<byte>, readFault: Option<string>,
                                    now: Time, dbFault: Option<Error>, openFault: Option<Error>)
    requires Repository.Valid(w.table)
    requires PrimaryType(mime) == "video"
    requires Insert(w.table, CreateParams(header.filename, header.size, mime), now, dbFault).result.Success?
    ensures var c := Create(w, Detected(mime, None), header, remaining, readFault, now, dbFault, openFault);
            && c.outcome.Returned? && c.outcome.file.Some?
            && var f := c.outcome.file.value;
            && f.name == header.filename && f.size == header.size && f.mimeType == mime && f.createdAt == now
            && f.id !in w.table.rows
            && Lookup(c.world.table, f.id, None) == Success(f)
            && c.outcome.err == StoreSpec(w.blobs, BlobPath(header.filename), remaining, readFault, openFault).err
            && (openFault.Some? ==> c.outcome.err == openFault && c.world.blobs == w.blobs)
            && (openFault.None? && readFault.Some? ==> c.outcome.err.Some?)
  {
    InsertThenLookup(w.table, CreateParams(header.filename, header.size, mime), now);
  }

  /** With no fault, the blob at `StoragePath/name` starts with the uploaded
      bytes, and equals them when no longer blob was stored there before. */
  lemma AcceptedUploadStoresBlob(w: World, mime: string, header: FileHeader, remaining: seq<byte>, now: Time)
    requires PrimaryType(mime) == "video"
    requires Insert(w.table, CreateParams(header.filename, header.size, mime), now, None).result.Success?
    ensures var c := Create(w, Detected(mime, None), header, remaining, None, now, None, None);
            var path := BlobPath(header.filename);
            && c.outcome.Returned? && c.outcome.err == None
            && path in c.world.blobs
            && |c.world.blobs[path]| >= |remaining| && c.world.blobs[path][..|remaining|] == remaining
            && (path !in w.blobs || |w.blobs[path]| <= |remaining| ==> c.world.blobs[path] == remaining)
            && (path in w.blobs && |w.blobs[path]| > |remaining| ==>
                  c.world.blobs[path] == remaining + w.blobs[path][|remaining|..])
            && (forall p | p != path && p in w.blobs :: p in c.world.blobs && c.world.blobs[p] == w.blobs[p])
  {
    var path := BlobPath(header.filename);
    var existing := if path in w.blobs then w.blobs[path] else [];
    OverwriteExact(existing, remaining);
  }

  /** A failed lookup is returned as is and neither store changes. */
  lemma FailedLookupDeletesNothing(w: World, id: int, getFault: Option<Error>, removeRefused: bool, deleteFault: Option<Error>)
    requires Lookup(w.table, id, getFault).Failure?
    ensures Delete(w, id, getFault, removeRefused, deleteFault) == Deleted(w, Some(Lookup(w.table, id, getFault).error))
  {
  }

  /** Deleting an id that is not stored reports ErrorFileNotFound. */
  lemma DeleteMissingIsNotFound(w: World, id: int, removeRefused: bool, deleteFault: Option<Error>)
    requires id !in w.table.rows
    ensures Delete(w, id, None, removeRefused, deleteFault) == Deleted(w, Some(ErrorFileNotFound))
  {
  }

  /** A delete without faults removes the row and its blob: the id is then not
      found, the blob is gone, and every other row and blob is unchanged. */
  lemma DeleteRemovesRecordAndBlob(w: World, id: int)
    requires Repository.Valid(w.table) && id in w.table.rows
    ensures var r := Delete(w, id, None, false, None);
            var path := BlobPath(w.table.rows[id].name);
            && r.err == None
            && Lookup(r.world.table, id, None) == Failure(ErrorFileNotFound)
            && path !in r.world.blobs
            && (forall other | other != id :: Lookup(r.world.table, other, None) == Lookup(w.table, other, None))
            && (forall p | p != path && p in w.blobs :: p in r.world.blobs && r.world.blobs[p] == w.blobs[p])
  {
  }

  /** The blob goes first: when the row delete then fails, the blob is already
      gone while the row stays, and the row error is returned. A refused blob
      removal is ignored and the row is still deleted. */
  lemma DeleteOrder(w: World, id: int, removeRefused: bool, deleteFault: Option<Error>)
    requires id in w.table.rows
    ensures var r := Delete(w, id, None, removeRefused, deleteFault);
            var path := BlobPath(w.table.rows[id].name);
            && r.err == deleteFault
            && (!removeRefused ==> path !in r.world.blobs)
            && (removeRefused ==> r.world.blobs == w.blobs)
            && (deleteFault.Some? ==> r.world.table == w.table)
            && (deleteFault.None? ==> id !in r.world.table.rows)
  {
  }

  lemma DeletePreservesValid(w: World, id: int, getFault: Option<Error>, removeRefused: bool, deleteFault: Option<Error>)
    requires Repository.Valid(w.table)
    ensures Repository.Valid(Delete(w, id, getFault, removeRefused, deleteFault).world.table)
  {
  }

  /** Create then Delete of the new record: the id is no longer found, its blob
      is gone, and a later upload gets a different id. */
  lemma CreateThenDelete(w: World, mime: string, header: FileHeader, remaining: seq<byte>, now: Time)
    requires Repository.Valid(w.table)
    requires PrimaryType(mime) == "video"
    requires Insert(w.table, CreateParams(header.filename, header.size, mime), now, None).result.Success?
    ensures var c := Create(w, Detected(mime, None), header, remaining, None, now, None, None);
            var f := c.outcome.file.value;
            var r := Delete(c.world, f.id, None, false, None);
            && r.err == None
            && Lookup(r.world.table, f.id, None) == Failure(ErrorFileNotFound)
            && BlobPath(header.filename) !in r.world.blobs
            && r.world.table.nextId > f.id
  {
    var c := Create(w, Detected(mime, None), header, remaining, None, now, None, None);
    AcceptedUploadCreatesRecord(w, mime, header, remaining, None, now, None, None);
    CreatePreservesValid(w, Detected(mime, None), header, remaining, None, now, None, None);
    DeleteRemovesRecordAndBlob(c.world, c.outcome.file.value.id);
  }

  /** The coordinator over the metadata table and the blob store. */
  class FileUsecase {
    const repository: FileRepository
    const storage: BlobStore

    ghost predicate Valid()
      reads repository
    {
      Repository.Valid(repository.State())
    }

    function Snapshot(): World
      reads repository, storage
    {
      World(repository.State(), storage.blobs)
    }

    /** `NewFileUsecase(fileRepository)`; the blob store is the storage directory. */
    constructor (repository: FileRepository, storage: BlobStore)
      requires Repository.Valid(repository.State())
      ensures this.repository == repository && this.storage == storage
      ensures Valid()
    {
      this.repository := repository;
      this.storage := storage;
    }

    /** Detect, reject non-video, insert, then store; no rollback. */
    method CreateFile(reader: FileReader, now: Time, dbFault: Option<Error>, openFault: Option<Error>)
      returns (r: CreateOutcome)
      requires Valid() && reader.Valid()
      modifies repository, storage, reader
      ensures Valid() && reader.Valid()
      ensures reader.closed == old(reader.closed)
      ensures r.Aborted? ==> reader.position == old(reader.position) && reader.fileMimeType == old(reader.fileMimeType)
      ensures r.Returned? ==> old(reader.PendingDetection()).Detected? && reader.fileMimeType == old(reader.PendingDetection()).mime
      ensures r.Returned? ==>
                reader.position == if r.file.Some? && openFault.None? && reader.readFault.None? then |reader.content|
                                   else if old(reader.fileMimeType) == "" then 0 else old(reader.position)
      ensures Created(Snapshot(), r)
              == Create(old(Snapshot()), old(reader.PendingDetection()), reader.header,
                        old(reader.RemainingAfterDetection()), reader.readFault, now, dbFault, openFault)
    {
      var d := reader.GetFileMimeType();
      if d.Panicked? {
        return Aborted(d.message);
      }
      // GetFileMimeType never reports an error (d.err == None), so the source's
      // early return on it is reachable only in the specification `Create`.
      var mime := d.mime;
      if PrimaryType(mime) != "video" {
        return Returned(None, Some(ErrorFileUnsupported));
      }
      var name := reader.GetName();
      var size := reader.GetSize();
      var inserted := repository.CreateFile(CreateParams(name, size, mime), now, dbFault);
      if inserted.Failure? {
        return Returned(None, Some(inserted.error));
      }
      var err := reader.Store(storage, openFault);
      r := Returned(Some(inserted.value), err);
    }

    /** Delegates to the repository. */
    method ListFiles(fault: Option<Error>) returns (files: seq<File>, err: Option<Error>)
      requires Valid()
      ensures err == fault
      ensures fault.Some? ==> files == []
      ensures fault.None? ==> IsListing(repository.State(), files)
    {
      files, err := repository.ListFiles(fault);
    }

    /** Delegates to the repository. */
    method GetFile(id: int, fault: Option<Error>) returns (r: Result<File, Error>)
      ensures r == Lookup(repository.State(), id, fault)
    {
      r := repository.GetFile(id, fault);
    }

    /** Resolve the record, remove its blob (ignoring failure), delete the row. */
    method DeleteFile(id: int, getFault: Option<Error>, removeRefused: bool, deleteFault: Option<Error>)
      returns (err: Option<Error>)
      requires Valid()
      modifies repository, storage
      ensures Valid()
      ensures Deleted(Snapshot(), err) == Delete(old(Snapshot()), id, getFault, removeRefused, deleteFault)
    {
      var file := repository.GetFile(id, getFault);
      if file.Failure? {
        return Some(file.error);
      }
      var _ := storage.Remove(StoragePath + "/" + file.value.name, removeRefused);
      err := repository.DeleteFile(id, deleteFault);
    }
  }
}
