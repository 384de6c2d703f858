/** The metadata store: the `files` table, modelled in memory as a map from
    id to record plus the auto-increment counter, with the error translation of
    module/internal/repository/file.go. */
module Repository {
  import opened Wrappers
  import opened Entity

  const FileColumnsInsert: seq<string> := ["name", "size", "mime_type", "created_at"]
  const FileColumns: seq<string> := ["id"] + FileColumnsInsert

  /** The selected columns are the primary key followed by the insert columns, all distinct. */
  lemma FileColumnsLayout()
    ensures |FileColumns| == 5 && FileColumns[0] == "id" && FileColumns[1..] == FileColumnsInsert
    ensures forall i, j :: 0 <= i < j < |FileColumns| ==> FileColumns[i] != FileColumns[j]
  {
  }

  /** `param.CreateFile`. */
  datatype CreateParams = CreateParams(name: string, size: int, mimeType: string)

  /** MySQL's error number for a duplicate key (ER_DUP_ENTRY). */
  const DuplicateEntry: int := 1062

  /** What the insert reports on a duplicate key: MySQL error 1062. */
  const DuplicateEntryError: Error := MySqlError(DuplicateEntry, "Duplicate entry for key 'name'")

  /** Error translation of CreateFile: a MySQL duplicate-key error becomes
      ErrorFileExists; every other error is passed through unchanged. */
  function TranslateCreateError(e: Error): (r: Error)
    ensures e.MySqlError? && e.number == DuplicateEntry ==> r == ErrorFileExists
    ensures !(e.MySqlError? && e.number == DuplicateEntry) ==> r == e
  {
    if e.MySqlError? && e.number == DuplicateEntry then ErrorFileExists else e
  }

  /** Error translation of GetFile: GORM's not-found becomes ErrorFileNotFound;
      every other error is passed through unchanged. */
  function TranslateGetError(e: Error): (r: Error)
    ensures e == RecordNotFound ==> r == ErrorFileNotFound
    ensures e != RecordNotFound ==> r == e
  {
    if e == RecordNotFound then ErrorFileNotFound else e
  }

  /** The table's content: rows by id and the next auto-increment value. */
  datatype Table = Table(rows: map<int, File>, nextId: int)

  const EmptyTable: Table := Table(map[], 1)

  /** Every row sits under its own id, ids lie below the counter, names are unique. */
  predicate Valid(t: Table)
  {
    && t.nextId >= 1
    && (forall id | id in t.rows :: 1 <= id < t.nextId && t.rows[id].id == id)
    && (forall a, b | a in t.rows && b in t.rows && t.rows[a].name == t.rows[b].name :: a == b)
  }

  predicate NameTaken(t: Table, name: string)
  {
    exists id | id in t.rows :: t.rows[id].name == name
  }

  datatype Inserted = Inserted(table: Table, result: Result<File, Error>)

  /** Specification of CreateFile. `fault` is a failure the database reports
      for reasons of its own (connection, constraint, ...); without one, the
      unique index on `name` rejects a taken name with MySQL error 1062. */
  function Insert(t: Table, p: CreateParams, now: Time, fault: Option<Error>): (r: Inserted)
    ensures r.result.Success? <==> fault.None? && !NameTaken(t, p.name)
    ensures r.result.Failure? ==> r.table == t
    ensures r.result.Success? ==>
              var f := r.result.value;
              && f == File(t.nextId, p.name, p.size, p.mimeType, now)
              && r.table.rows == t.rows[f.id := f] && r.table.nextId == t.nextId + 1
  {
    if fault.Some? then Inserted(t, Failure(TranslateCreateError(fault.value)))
    else if NameTaken(t, p.name) then Inserted(t, Failure(TranslateCreateError(DuplicateEntryError)))
    else
      var f := File(t.nextId, p.name, p.size, p.mimeType, now);
      Inserted(Table(t.rows[t.nextId := f], t.nextId + 1), Success(f))
  }

  /** Specification of GetFile. */
  function Lookup(t: Table, id: int, fault: Option<Error>): (r: Result<File, Error>)
    ensures r.Success? <==> fault.None? && id in t.rows
    ensures r.Success? ==> r.value == t.rows[id]
    ensures fault.None? && id !in t.rows ==> r == Failure(ErrorFileNotFound)
    ensures fault.Some? ==> r == Failure(TranslateGetError(fault.value))
  {
    if fault.Some? then Failure(TranslateGetError(fault.value))
    else if id !in t.rows then Failure(TranslateGetError(RecordNotFound))
    else Success(t.rows[id])
  }

  datatype Removed = Removed(table: Table, err: Option<Error>)

  /** Specification of DeleteFile: a missing id is not an error; a database
      failure is returned raw. */
  function Remove(t: Table, id: int, fault: Option<Error>): (r: Removed)
    ensures r.table.nextId == t.nextId && r.table.rows.Keys <= t.rows.Keys
    ensures r.err.Some? <==> fault.Some?
    ensures fault.Some? ==> r.table == t && r.err == fault
    ensures fault.None? ==> id !in r.table.rows && forall other | other != id && other in t.rows :: other in r.table.rows && r.table.rows[other] == t.rows[other]
  {
    if fault.Some? then Removed(t, fault)
    else Removed(Table(t.rows - {id}, t.nextId), None)
  }

  // ---- GetFile and DeleteFile for id 0, as written ----

  /** GORM's error for a delete without any condition. */
  const MissingWhereClause: Error := PlainError("WHERE conditions required")

  /** The row with the smallest id in `[from, nextId)`, if any. */
  function FirstRowFrom(t: Table, from: int): (r: Option<File>)
    ensures r.Some? ==> exists id | id in t.rows && from <= id :: t.rows[id] == r.value
    ensures r.Some? && Valid(t) ==> r.value.id >= from && forall id | id in t.rows && from <= id :: r.value.id <= id
    ensures r.None? ==> forall id | id in t.rows && from <= id :: id >= t.nextId
    decreases t.nextId - from
  {
    if from >= t.nextId then None
    else if from in t.rows then Some(t.rows[from])
    else FirstRowFrom(t, from + 1)
  }

  /** GetFile as the query is built: the record's primary key is its only
      condition, and GORM leaves a zero key out, so id 0 selects the first row
      of the table instead of none. */
  function LookupAsWritten(t: Table, id: int, fault: Option<Error>): (r: Result<File, Error>)
    ensures id != 0 ==> r == Lookup(t, id, fault)
    ensures Valid(t) && id == 0 && fault.None? ==> (r.Success? <==> t.rows != map[])
  {
    if fault.Some? then Failure(TranslateGetError(fault.value))
    else if id != 0 then Lookup(t, id, None)
    else
      var first := FirstRowFrom(t, 1);
      if first.Some? then Success(first.value) else Failure(TranslateGetError(RecordNotFound))
  }

  /** DeleteFile as the query is built: for id 0 there is no condition and
      GORM refuses the delete. */
  function RemoveAsWritten(t: Table, id: int, fault: Option<Error>): (r: Removed)
    ensures id != 0 ==> r == Remove(t, id, fault)
    ensures id == 0 && fault.None? ==> r == Removed(t, Some(MissingWhereClause))
  {
    if fault.Some? then Removed(t, fault)
    else if id == 0 then Removed(t, Some(MissingWhereClause))
    else Remove(t, id, None)
  }

  /** On a table holding only record 1, id 0 has no row, yet as written it
      fetches record 1 and its delete fails with the table unchanged; `Lookup`
      and `Remove` give the intended not-found and no-op. */
  lemma ZeroIdAsWritten(f: File)
    requires f.id == 1
    ensures var t := Table(map[1 := f], 2);
            && Valid(t) && 0 !in t.rows
            && LookupAsWritten(t, 0, None) == Success(f)
            && Lookup(t, 0, None) == Failure(ErrorFileNotFound)
            && RemoveAsWritten(t, 0, None) == Removed(t, Some(MissingWhereClause))
            && Remove(t, 0, None) == Removed(t, None)
  {
    var t := Table(map[1 := f], 2);
    assert FirstRowFrom(t, 1) == Some(f);
  }

  /** `files` is a listing of the table: every row exactly once, in some order. */
  predicate IsListing(t: Table, files: seq<File>)
  {
    && (forall i | 0 <= i < |files| :: files[i].id in t.rows && t.rows[files[i].id] == files[i])
    && (forall i, j | 0 <= i < j < |files| :: files[i].id != files[j].id)
    && (forall id | id in t.rows :: exists i | 0 <= i < |files| :: files[i] == t.rows[id])
  }

  // ---- properties of the specification ----

  lemma InsertPreservesValid(t: Table, p: CreateParams, now: Time, fault: Option<Error>)
    requires Valid(t)
    ensures Valid(Insert(t, p, now, fault).table)
  {
    var r := Insert(t, p, now, fault);
    if r.result.Success? {
      assert forall id | id in t.rows :: t.rows[id].name != p.name;
    }
  }

  /** Error cases of CreateFile leave the table untouched and give no record;
      a duplicate-key error always surfaces as ErrorFileExists. */
  lemma InsertErrors(t: Table, p: CreateParams, now: Time, fault: Option<Error>)
    ensures Insert(t, p, now, fault).result.Failure? ==> Insert(t, p, now, fault).table == t
    ensures fault.Some? && fault.value.MySqlError? && fault.value.number == DuplicateEntry ==>
              Insert(t, p, now, fault).result == Failure(ErrorFileExists)
    ensures fault.Some? && !(fault.value.MySqlError? && fault.value.number == DuplicateEntry) ==>
              Insert(t, p, now, fault).result == Failure(fault.value)
  {
  }

  /** A name already in the table is refused with ErrorFileExists and nothing changes. */
  lemma DuplicateNameRejected(t: Table, p: CreateParams, now: Time)
    requires NameTaken(t, p.name)
    ensures Insert(t, p, now, None) == Inserted(t, Failure(ErrorFileExists))
  {
  }

  /** A successful insert stores the given fields under a fresh id, larger than
      every id in the table, and the new row can be read back. */
  lemma InsertThenLookup(t: Table, p: CreateParams, now: Time)
    requires Valid(t)
    requires Insert(t, p, now, None).result.Success?
    ensures var r := Insert(t, p, now, None);
            var f := r.result.value;
            && f == File(f.id, p.name, p.size, p.mimeType, now)
            && f.id !in t.rows
            && (forall id | id in t.rows :: id < f.id)
            && r.table.nextId > f.id
            && Lookup(r.table, f.id, None) == Success(f)
            && (forall id | id in t.rows :: Lookup(r.table, id, None) == Lookup(t, id, None))
  {
  }

  /** Two creates with the same name: the second is refused with ErrorFileExists. */
  lemma SecondCreateSameNameFails(t: Table, p: CreateParams, q: CreateParams, now: Time, later: Time)
    requires Valid(t)
    requires Insert(t, p, now, None).result.Success?
    requires q.name == p.name
    ensures var t' := Insert(t, p, now, None).table;
            Insert(t', q, later, None) == Inserted(t', Failure(ErrorFileExists))
  {
    var t' := Insert(t, p, now, None).table;
    assert t'.rows[t.nextId].name == q.name;
  }

  lemma RemovePreservesValid(t: Table, id: int, fault: Option<Error>)
    requires Valid(t)
    ensures Valid(Remove(t, id, fault).table)
  {
  }

  /** After a successful delete the id is not found; no other row changes, and
      the counter does not move back, so the id is never handed out again. */
  lemma RemoveThenLookup(t: Table, id: int)
    requires Valid(t)
    ensures var r := Remove(t, id, None);
            && r.err == None
            && Lookup(r.table, id, None) == Failure(ErrorFileNotFound)
            && (forall other | other != id :: Lookup(r.table, other, None) == Lookup(t, other, None))
            && r.table.nextId == t.nextId
  {
  }

  /** A missing id is reported as ErrorFileNotFound by GetFile, never as another error. */
  lemma LookupMissingIsNotFound(t: Table, id: int)
    requires id !in t.rows
    ensures Lookup(t, id, None) == Failure(ErrorFileNotFound)
  {
  }

  /** A create after a delete never reuses the deleted id. */
  lemma DeletedIdNotReused(t: Table, id: int, p: CreateParams, now: Time)
    requires Valid(t) && id in t.rows
    requires Insert(Remove(t, id, None).table, p, now, None).result.Success?
    ensures Insert(Remove(t, id, None).table, p, now, None).result.value.id != id
  {
  }

  /** A listing has one entry per row. */
  lemma {:induction false} ListingSize(t: Table, files: seq<File>)
    requires Valid(t) && IsListing(t, files)
    ensures |files| == |t.rows|
  {
    var ids := set i | 0 <= i < |files| :: files[i].id;
    assert ids == t.rows.Keys by {
      forall id | id in t.rows ensures id in ids {
        var i :| 0 <= i < |files| && files[i] == t.rows[id];
        assert files[i].id == id;
      }
    }
    DistinctIdsCount(files);
  }

  lemma {:induction false} DistinctIdsCount(files: seq<File>)
    requires forall i, j | 0 <= i < j < |files| :: files[i].id != files[j].id
    ensures |set i | 0 <= i < |files| :: files[i].id| == |files|
  {
    if |files| > 0 {
      var init := files[..|files| - 1];
      DistinctIdsCount(init);
      var s := set i | 0 <= i < |files| :: files[i].id;
      var s' := set i | 0 <= i < |init| :: init[i].id;
      assert s == s' + {files[|files| - 1].id};
      assert files[|files| - 1].id !in s';
    }
  }

  /** `files` lists, in increasing id order, exactly the rows whose id is below `bound`. */
  predicate ListedBelow(t: Table, files: seq<File>, bound: int)
  {
    && (forall i | 0 <= i < |files| :: files[i].id < bound && files[i].id in t.rows && t.rows[files[i].id] == files[i])
    && (forall i, j | 0 <= i < j < |files| :: files[i].id < files[j].id)
    && (forall id | id in t.rows && id < bound :: t.rows[id] in files)
  }

  /** One step of the ascending id scan: the row with id `bound`, if any, is appended. */
  lemma ListedBelowStep(t: Table, files: seq<File>, bound: int)
    requires Valid(t) && ListedBelow(t, files, bound)
    ensures ListedBelow(t, if bound in t.rows then files + [t.rows[bound]] else files, bound + 1)
  {
    if bound in t.rows {
      assert t.rows[bound].id == bound;
      ListedBelowAppend(t, files, t.rows[bound]);
    }
  }

  lemma ListedBelowAppend(t: Table, files: seq<File>, f: File)
    requires ListedBelow(t, files, f.id) && f.id in t.rows && t.rows[f.id] == f
    ensures ListedBelow(t, files + [f], f.id + 1)
  {
    var files' := files + [f];
    assert forall i | 0 <= i < |files| :: files'[i] == files[i];
    assert files'[|files|] == f;
  }

  lemma ListedBelowAll(t: Table, files: seq<File>)
    requires Valid(t) && ListedBelow(t, files, t.nextId)
    ensures IsListing(t, files)
  {
  }

  /** The `files` table. */
  class FileRepository {
    var rows: map<int, File>
    var nextId: int

    function State(): Table
      reads this
    {
      Table(rows, nextId)
    }

    constructor ()
      ensures State() == EmptyTable
    {
      rows := map[];
      nextId := 1;
    }

    /** Inserts `name`, `size`, `mime_type`, `created_at`; the id comes from the counter. */
    method CreateFile(params: CreateParams, now: Time, fault: Option<Error>) returns (r: Result<File, Error>)
      requires Valid(State())
      modifies this
      ensures Valid(State())
      ensures Inserted(State(), r) == Insert(old(State()), params, now, fault)
    {
      InsertPreservesValid(State(), params, now, fault);
      var file := File(0, params.name, params.size, params.mimeType, now);
      var err := fault;
      if err.None? && NameTaken(State(), params.name) {
        err := Some(DuplicateEntryError);
      }
      if err.Some? {
        var e := err.value;
        if e.MySqlError? && e.number == DuplicateEntry {
          return Failure(ErrorFileExists);
        }
        return Failure(e);
      }
      file := file.(id := nextId);
      rows := rows[nextId := file];
      nextId := nextId + 1;
      r := Success(file);
    }

    /** Selects every row with all five columns. On a database failure the
        result is the still-empty slice together with the error. */
    method ListFiles(fault: Option<Error>) returns (files: seq<File>, err: Option<Error>)
      requires Valid(State())
      ensures err == fault
      ensures fault.Some? ==> files == []
      ensures fault.None? ==> IsListing(State(), files)
    {
      files := [];
      err := fault;
      if fault.Some? {
        return;
      }
      for id := 1 to nextId
        invariant ListedBelow(State(), files, id)
      {
        ListedBelowStep(State(), files, id);
        if id in rows {
          files := files + [rows[id]];
        }
      }
      ListedBelowAll(State(), files);
    }

    /** Selects the row with primary key `id`. */
    method GetFile(id: int, fault: Option<Error>) returns (r: Result<File, Error>)
      ensures r == Lookup(State(), id, fault)
    {
      var err := fault;
      if err.None? && id !in rows {
        err := Some(RecordNotFound);
      }
      if err.Some? {
        if err.value == RecordNotFound {
          return Failure(ErrorFileNotFound);
        }
        return Failure(err.value);
      }
      r := Success(rows[id]);
    }

    /** Deletes the row with primary key `id`, if there is one. */
    method DeleteFile(id: int, fault: Option<Error>) returns (err: Option<Error>)
      requires Valid(State())
      modifies this
      ensures Valid(State())
      ensures Removed(State(), err) == Remove(old(State()), id, fault)
    {
      if fault.Some? {
        return fault;
      }
      rows := rows - {id};
      err := None;
    }
  }
}
