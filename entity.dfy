/** The persisted file record and the error values of module/entity. */
module Entity {
  import opened Wrappers
  import opened Decimal

  /** A creation instant; the clock is outside the model, so it is an opaque value. */
  datatype Time = Time(unixNanos: int)

  /** One row of the `files` table: `id` is the primary key, `name` is unique
      across rows (both enforced by the repository's table invariant). */
  datatype File = File(id: int, name: string, size: int, mimeType: string, createdAt: Time)

  /** The errors that flow through the core. Go's `error` is an open interface;
      these are the values that reach it here:
      - RequestError: `entity.RequestError`, an HTTP status and the wrapped message;
      - MySqlError: the MySQL driver's error, with its error number;
      - RecordNotFound: GORM's `ErrRecordNotFound`;
      - PlainError: any other error (file-system, stream or database failure). */
  datatype Error =
    | RequestError(statusCode: int, err: string)
    | MySqlError(number: int, message: string)
    | RecordNotFound
    | PlainError(message: string)

  const StatusBadRequest: int := 400
  const StatusNotFound: int := 404
  const StatusConflict: int := 409
  const StatusUnsupportedMediaType: int := 415
  const StatusUnprocessableEntity: int := 422

  /** `NewError(message, code)`. */
  function NewError(message: string, code: int): (e: Error)
    ensures e.RequestError? && e.statusCode == code && e.err == message
  {
    RequestError(code, message)
  }

  const ErrorBadRequest: Error := NewError("Bad Request", StatusBadRequest)
  const ErrorParamType: Error := NewError("Wrong param type", StatusUnprocessableEntity)
  const ErrorFileNotFound: Error := NewError("File not found", StatusNotFound)
  const ErrorFileExists: Error := NewError("File exists", StatusConflict)
  const ErrorFileUnsupported: Error := NewError("File unsupported", StatusUnsupportedMediaType)

  /** The predefined errors carry these codes, and no two share one. */
  lemma PredefinedErrorCodes()
    ensures ErrorBadRequest.statusCode == 400 && ErrorParamType.statusCode == 422
    ensures ErrorFileNotFound.statusCode == 404 && ErrorFileExists.statusCode == 409
    ensures ErrorFileUnsupported.statusCode == 415
    ensures var codes := [ErrorBadRequest.statusCode, ErrorParamType.statusCode, ErrorFileNotFound.statusCode,
                          ErrorFileExists.statusCode, ErrorFileUnsupported.statusCode];
            forall i, j :: 0 <= i < j < |codes| ==> codes[i] != codes[j]
  {
  }

  /** `err.Error()`. A RequestError renders as `status <code>: err <message>`;
      the MySQL driver renders `Error <number>: <message>`; GORM's not-found
      error is `record not found`. */
  function ErrorText(e: Error): (s: string)
    ensures e.RequestError? ==> |s| >= 7 && s[..7] == "status "
    ensures e.MySqlError? ==> |s| >= 6 && s[..6] == "Error "
    ensures e.RecordNotFound? ==> s == "record not found"
    ensures e.PlainError? ==> s == e.message
  {
    match e
    case RequestError(code, message) => "status " + FormatInt(code) + ": err " + message
    case MySqlError(number, message) => "Error " + FormatInt(number) + ": " + message
    case RecordNotFound => "record not found"
    case PlainError(message) => message
  }

  /** Index of the first `:` in `s`, or `|s|` when there is none. */
  function FirstColon(s: string): nat
  {
    if |s| == 0 || s[0] == ':' then 0 else 1 + FirstColon(s[1..])
  }

  lemma {:induction false} FirstColonAfter(d: string, rest: string)
    requires forall k :: 0 <= k < |d| ==> d[k] != ':'
    ensures FirstColon(d + ":" + rest) == |d|
  {
    if |d| > 0 {
      assert (d + ":" + rest)[1..] == d[1..] + ":" + rest;
      FirstColonAfter(d[1..], rest);
    }
  }

  /** The text of a RequestError determines both its code and its message. */
  lemma RequestErrorTextInjective(a: Error, b: Error)
    requires a.RequestError? && b.RequestError?
    requires ErrorText(a) == ErrorText(b)
    ensures a == b
  {
    var d1, d2 := FormatInt(a.statusCode), FormatInt(b.statusCode);
    RequestTextParts(d1, a.err);
    RequestTextParts(d2, b.err);
    FormatIntInjective(a.statusCode, b.statusCode);
  }

  /** In `status <d>: err <m>` with a colon-free `d`, the first colon after
      the prefix ends `d`, and `m` is what follows `: err `. */
  lemma RequestTextParts(d: string, m: string)
    requires forall k :: 0 <= k < |d| ==> d[k] != ':'
    ensures var s := "status " + d + ": err " + m;
            && |s| >= 13 + |d| && FirstColon(s[7..]) == |d|
            && s[7..7 + |d|] == d && s[13 + |d|..] == m
  {
    var s := "status " + d + ": err " + m;
    assert s[7..] == d + ":" + (" err " + m);
    FirstColonAfter(d, " err " + m);
  }

  /** A field value of `ToMap`'s result. */
  datatype Value = IntValue(i: int) | StringValue(s: string) | TimeValue(t: Time)

  /** `(*File).ToMap()`: one entry per field, keyed by the Go field name. */
  function ToMap(f: File): (m: map<string, Value>)
    ensures m.Keys == {"ID", "Name", "Size", "MimeType", "CreatedAt"}
  {
    map["ID" := IntValue(f.id), "Name" := StringValue(f.name), "Size" := IntValue(f.size),
        "MimeType" := StringValue(f.mimeType), "CreatedAt" := TimeValue(f.createdAt)]
  }

  /** Reads a record back from a map of the shape `ToMap` produces. */
  function FromMap(m: map<string, Value>): Option<File>
  {
    if && "ID" in m && m["ID"].IntValue?
       && "Name" in m && m["Name"].StringValue?
       && "Size" in m && m["Size"].IntValue?
       && "MimeType" in m && m["MimeType"].StringValue?
       && "CreatedAt" in m && m["CreatedAt"].TimeValue?
    then Some(File(m["ID"].i, m["Name"].s, m["Size"].i, m["MimeType"].s, m["CreatedAt"].t))
    else None
  }

  /** `ToMap` binds every field to its own value: nothing is lost or swapped. */
  lemma ToMapLossless(f: File)
    ensures FromMap(ToMap(f)) == Some(f)
  {
  }

  /** The record's JSON form, keyed by its `json` tags; MimeType is tagged `-`. */
  function JsonFields(f: File): (m: map<string, Value>)
    ensures m.Keys == {"fileid", "name", "size", "created_at"}
    ensures m["fileid"] == IntValue(f.id) && m["name"] == StringValue(f.name)
    ensures m["size"] == IntValue(f.size) && m["created_at"] == TimeValue(f.createdAt)
  {
    map["fileid" := IntValue(f.id), "name" := StringValue(f.name), "size" := IntValue(f.size),
        "created_at" := TimeValue(f.createdAt)]
  }

  /** Two records have the same JSON form exactly when they differ at most in
      their MIME type: every other field is kept under its own key. */
  lemma JsonDropsOnlyMimeType(f: File, g: File)
    ensures JsonFields(f) == JsonFields(g) <==> f.(mimeType := g.mimeType) == g
  {
    if JsonFields(f) == JsonFields(g) {
      assert JsonFields(f)["fileid"] == JsonFields(g)["fileid"];
      assert JsonFields(f)["name"] == JsonFields(g)["name"];
      assert JsonFields(f)["size"] == JsonFields(g)["size"];
      assert JsonFields(f)["created_at"] == JsonFields(g)["created_at"];
    }
  }
}
