/** The upload reader of internal/util/file.go and the file system it writes
    to, modelled as a map from path to bytes. */
module Util {
  import opened Wrappers
  import opened Entity

  newtype byte = x: int | 0 <= x < 256

  /** `filepath.Join(".", "files")`, which cleans to `files`. */
  const StoragePath: string := "files"

  /** Path of the blob stored for `name`: `StoragePath + "/" + name`. */
  function BlobPath(name: string): (p: string)
    ensures |p| == |StoragePath| + 1 + |name| && p[|StoragePath|] == '/' && p[|StoragePath| + 1..] == name
  {
    StoragePath + "/" + name
  }

  /** Different names are stored at different paths. */
  lemma BlobPathInjective(a: string, b: string)
    requires BlobPath(a) == BlobPath(b)
    ensures a == b
  {
    assert a == BlobPath(a)[|StoragePath| + 1..] == BlobPath(b)[|StoragePath| + 1..] == b;
  }

  /** How many bytes the MIME sniffer reads ahead (the detector's default limit). */
  const ReadLimit: nat := 3072

  /** The multipart header of the `data` part. */
  datatype FileHeader = FileHeader(filename: string, size: int)

  /** Content of a file opened for writing without truncation after `data` is
      written from offset 0: `data`, then whatever lay beyond it before. */
  function Overwrite(existing: seq<byte>, data: seq<byte>): (r: seq<byte>)
    ensures |r| == if |data| >= |existing| then |data| else |existing|
    ensures forall i | 0 <= i < |r| :: r[i] == if i < |data| then data[i] else existing[i]
  {
    if |data| >= |existing| then data else data + existing[|data|..]
  }

  /** The stored blob equals the upload exactly when the earlier blob at that
      path was no longer than the upload; otherwise its tail survives. */
  lemma OverwriteExact(existing: seq<byte>, data: seq<byte>)
    ensures Overwrite(existing, data) == data <==> |existing| <= |data|
  {
    if |existing| > |data| {
      assert |Overwrite(existing, data)| != |data|;
    }
  }

  datatype Stored = Stored(blobs: map<string, seq<byte>>, err: Option<Error>)

  /** Specification of `Store`: open `path` (creating it when absent, without
      truncating it), then copy `remaining`, the bytes from the read position
      to the end of the upload. `openFault` is the file system refusing the
      open; `readFault` is the upload stream failing on read. */
  function StoreSpec(blobs: map<string, seq<byte>>, path: string, remaining: seq<byte>,
                     readFault: Option<string>, openFault: Option<Error>): (r: Stored)
    ensures forall p | p != path :: (p in r.blobs <==> p in blobs) && (p in blobs ==> r.blobs[p] == blobs[p])
    ensures openFault.None? ==> path in r.blobs
    ensures openFault.None? && readFault.None? ==> r.err == None && |r.blobs[path]| >= |remaining| && r.blobs[path][..|remaining|] == remaining
    ensures openFault.None? && readFault.None? ==>
              r.blobs[path] == Overwrite(if path in blobs then blobs[path] else [], remaining)
    ensures openFault.Some? ==> r == Stored(blobs, openFault)
    ensures openFault.None? && readFault.Some? ==> r.err.Some? && r.blobs[path] == (if path in blobs then blobs[path] else [])
  {
    if openFault.Some? then Stored(blobs, openFault)
    else
      var existing := if path in blobs then blobs[path] else [];
      if readFault.Some? then Stored(blobs[path := existing], Some(PlainError(readFault.value)))
      else Stored(blobs[path := Overwrite(existing, remaining)], None)
  }

  /** The storage directory: blobs by path. */
  class BlobStore {
    var blobs: map<string, seq<byte>>

    constructor ()
      ensures blobs == map[]
    {
      blobs := map[];
    }

    /** `os.Remove(path)`: fails when nothing is stored there, or when the file
        system refuses (`refused`); removes the blob otherwise. */
    method Remove(path: string, refused: bool) returns (err: Option<Error>)
      modifies this
      ensures refused || path !in old(blobs) ==> err.Some? && blobs == old(blobs)
      ensures !refused && path in old(blobs) ==> err == None && blobs == old(blobs) - {path}
    {
      if refused {
        return Some(PlainError("remove " + path + ": permission denied"));
      }
      if path !in blobs {
        return Some(PlainError("remove " + path + ": no such file or directory"));
      }
      blobs := blobs - {path};
      err := None;
    }
  }

  /** Outcome of `GetFileMimeType`: its two results, or the panic that aborts
      the request when reading the upload fails. */
  datatype Detection = Detected(mime: string, err: Option<Error>) | Panicked(message: string)

  /** The bytes the sniffer reads ahead from `position`. */
  function Lookahead(content: seq<byte>, position: nat): (ahead: seq<byte>)
    requires position <= |content|
    ensures |ahead| == if |content| - position < ReadLimit then |content| - position else ReadLimit
    ensures ahead <= content[position..]
  {
    var n := if |content| - position < ReadLimit then |content| - position else ReadLimit;
    content[position..position + n]
  }

  /** Result of detecting the MIME type of `content` read from `position`:
      the sniffer's verdict on the bytes read ahead, or a panic when reading fails. */
  function DetectAt(content: seq<byte>, position: nat, readFault: Option<string>, sniff: seq<byte> -> string): (d: Detection)
    requires position <= |content|
    ensures d.Panicked? <==> readFault.Some?
    ensures d.Detected? ==> d.err == None
  {
    if readFault.Some? then Panicked("File Read Error: " + readFault.value)
    else Detected(sniff(Lookahead(content, position)), None)
  }

  /** Detection looks at no byte beyond the read-ahead window: two uploads
      that agree on the first `ReadLimit` bytes from the position (or on all
      of them, when fewer remain) are classified alike. */
  lemma DetectionSeesOnlyLookahead(a: seq<byte>, b: seq<byte>, position: nat,
                                   readFault: Option<string>, sniff: seq<byte> -> string)
    requires position <= |a| && position <= |b|
    requires |a| - position < ReadLimit || |b| - position < ReadLimit ==> a[position..] == b[position..]
    requires |a| - position >= ReadLimit && |b| - position >= ReadLimit ==>
               a[position..position + ReadLimit] == b[position..position + ReadLimit]
    ensures DetectAt(a, position, readFault, sniff) == DetectAt(b, position, readFault, sniff)
  {
    if |a| - position < ReadLimit || |b| - position < ReadLimit {
      assert |a| == |b|;
      assert a[position..position + (|a| - position)] == a[position..];
      assert b[position..position + (|b| - position)] == b[position..];
    }
  }

  /** `fileReader`: an uploaded part with lazily cached name, size and MIME type.
      `name == ""`, `size == -1` and `fileMimeType == ""` mean "not read yet". */
  class FileReader {
    const content: seq<byte>
    const header: FileHeader
    /** The error every read of the upload reports, when the stream is broken. */
    const readFault: Option<string>
    /** What closing the upload reports. */
    const closeResult: Option<Error>
    /** Content-based MIME detection of the bytes read ahead. */
    const sniff: seq<byte> -> string

    var position: nat
    var fileMimeType: string
    var name: string
    var size: int
    var closed: bool

    ghost predicate Valid()
      reads this
    {
      && position <= |content|
      && (name == "" || name == header.filename)
      && (size == -1 || size == header.size)
    }

    /** What the next `GetFileMimeType` call reports. */
    function PendingDetection(): Detection
      reads this
      requires position <= |content|
    {
      if fileMimeType != "" then Detected(fileMimeType, None)
      else DetectAt(content, position, readFault, sniff)
    }

    /** The bytes a `Store` after the next `GetFileMimeType` copies: all of
        them when that call detects and rewinds, else those from the position. */
    function RemainingAfterDetection(): seq<byte>
      reads this
      requires position <= |content|
    {
      if fileMimeType == "" then content else content[position..]
    }

    /** `NewFileReader(file, header)`. */
    constructor (content: seq<byte>, header: FileHeader, readFault: Option<string>,
                 closeResult: Option<Error>, sniff: seq<byte> -> string)
      ensures Valid()
      ensures this.content == content && this.header == header && this.readFault == readFault
      ensures this.closeResult == closeResult && this.sniff == sniff
      ensures position == 0 && name == "" && size == -1 && fileMimeType == "" && !closed
    {
      this.content := content;
      this.header := header;
      this.readFault := readFault;
      this.closeResult := closeResult;
      this.sniff := sniff;
      position := 0;
      fileMimeType := "";
      name := "";
      size := -1;
      closed := false;
    }

    /** Takes the header's file name on first use and keeps it. */
    method GetName() returns (n: string)
      requires Valid()
      modifies this`name
      ensures Valid()
      ensures n == header.filename && name == n
    {
      if name == "" {
        name := header.filename;
      }
      n := name;
    }

    /** Takes the header's size on first use (sentinel -1) and keeps it. */
    method GetSize() returns (s: int)
      requires Valid()
      modifies this`size
      ensures Valid()
      ensures s == header.size && size == s
    {
      if size == -1 {
        size := header.size;
      }
      s := size;
    }

    /** Detects the MIME type once and caches it. The detector reads ahead from
        the current position; the reader is then rewound to offset 0. The error
        result is always nil: a failing read panics instead. */
    method GetFileMimeType() returns (d: Detection)
      requires Valid()
      modifies this`position, this`fileMimeType
      ensures Valid()
      ensures d == old(PendingDetection())
      ensures d.Detected? ==> d.err == None && fileMimeType == d.mime
      ensures old(fileMimeType) == "" && d.Detected? ==> position == 0
      ensures old(fileMimeType) != "" || d.Panicked? ==> position == old(position) && fileMimeType == old(fileMimeType)
      ensures d.Detected? && d.mime != "" ==> PendingDetection() == d
    {
      if fileMimeType == "" {
        if readFault.Some? {
          return Panicked("File Read Error: " + readFault.value);
        }
        var ahead := Lookahead(content, position);
        position := position + |ahead|;
        var detected := sniff(ahead);
        position := 0;
        fileMimeType := detected;
      }
      d := Detected(fileMimeType, None);
    }

    /** Writes the bytes from the read position to the end into the blob at
        `StoragePath/name`, opened without truncation. */
    method Store(fs: BlobStore, openFault: Option<Error>) returns (err: Option<Error>)
      requires Valid()
      modifies this`name, this`position, fs
      ensures Valid() && name == header.filename
      ensures Stored(fs.blobs, err)
              == StoreSpec(old(fs.blobs), BlobPath(header.filename), old(content[position..]), readFault, openFault)
      ensures position == if openFault.None? && readFault.None? then |content| else old(position)
    {
      var n := GetName();
      var fullPath := StoragePath + "/" + n;
      if openFault.Some? {
        return openFault;
      }
      var existing := if fullPath in fs.blobs then fs.blobs[fullPath] else [];
      fs.blobs := fs.blobs[fullPath := existing];
      if readFault.Some? {
        return Some(PlainError(readFault.value));
      }
      fs.blobs := fs.blobs[fullPath := Overwrite(existing, content[position..])];
      position := |content|;
      err := None;
    }

    /** Closes the upload and reports what closing it reported. */
    method Close() returns (err: Option<Error>)
      modifies this`closed
      ensures closed && err == closeResult
    {
      closed := true;
      err := closeResult;
    }
  }
}
