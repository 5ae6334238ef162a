/** The file helpers of myServer.py (lines 84-170): reading a file as text
    or bytes, the "other may read" permission test, and the tables that
    choose binary reads and MIME types by extension. The filesystem is a
    value the handlers are given. */
module Files {
  import opened Outcomes
  import opened Utf8
  import opened Text

  /** What `os.stat` and `open` find at a path: a regular file with its
      permission bits and bytes, or a directory with its permission bits. */
  datatype Entry = File(mode: nat, data: seq<byte>) | Directory(mode: nat)

  /** Paths relative to the working directory; the empty path names nothing. */
  type FileSystem = fs: map<string, Entry> | "" !in fs witness map[]

  /** `stat.S_IROTH` */
  const S_IROTH: nat := 4

  /** `a & b` on non-negative Python integers, bit by bit from the lowest. */
  function BitAnd(a: nat, b: nat): nat
  {
    if a == 0 || b == 0 then 0
    else 2 * BitAnd(a / 2, b / 2) + (if a % 2 == 1 && b % 2 == 1 then 1 else 0)
  }

  /** `S_IROTH & mode` keeps exactly the bit of weight 4. */
  lemma BitAndOther(mode: nat)
    ensures BitAnd(S_IROTH, mode) == if (mode / 4) % 2 == 1 then 4 else 0
  {
    var m2 := mode / 2;
    assert BitAnd(S_IROTH, mode) == 2 * BitAnd(2, m2) by {
      if mode == 0 { } else { }
    }
    var m4 := m2 / 2;
    assert BitAnd(2, m2) == 2 * BitAnd(1, m4) by {
      if m2 == 0 { } else { }
    }
    assert BitAnd(1, m4) == m4 % 2 by {
      if m4 == 0 { } else { assert BitAnd(0, m4 / 2) == 0; }
    }
    assert m4 == mode / 4;
  }

  /** `file_exists`: `os.path.exists`, true exactly when opening the path
      does not fail for want of a file. */
  predicate FileExists(fs: FileSystem, path: string): (r: bool)
    ensures r <==> GetFileBinaryContents(fs, path) != Raise(FileNotFoundError)
    ensures r <==> GetFileContents(fs, path) != Raise(FileNotFoundError)
  {
    path in fs
  }

  /** `has_permission_other`: `os.stat` raises FileNotFoundError for a
      missing path; otherwise the test is `S_IROTH & st_mode > 0`. */
  function HasPermissionOther(fs: FileSystem, path: string): (r: Result<bool>)
    ensures r.Raise? <==> !FileExists(fs, path)
    ensures r.Raise? ==> r.exc == FileNotFoundError
    ensures r.Ok? ==> (r.value <==> (fs[path].mode / 4) % 2 == 1)
  {
    if path !in fs then Raise(FileNotFoundError)
    else
      BitAndOther(fs[path].mode);
      Ok(BitAnd(S_IROTH, fs[path].mode) > 0)
  }

  /** `get_file_contents`: `open(path, "r").read()`, decoding UTF-8 and
      translating every line ending to a line feed. */
  function GetFileContents(fs: FileSystem, path: string): (r: Result<string>)
    ensures r.Raise? ==> r.exc == FileNotFoundError || r.exc == IsADirectoryError || r.exc == UnicodeDecodeError
    ensures r.Ok? <==> path in fs && fs[path].File? && Decode(fs[path].data).Some?
    ensures r.Ok? ==> Free(r.value, '\r') && |r.value| <= |fs[path].data|
  {
    if path !in fs then Raise(FileNotFoundError)
    else
      match fs[path]
      case Directory(_) => Raise(IsADirectoryError)
      case File(_, data) =>
        match Decode(data)
        case None => Raise(UnicodeDecodeError)
        case Some(s) =>
          DecodeIffEncode(data, s);
          EncodeLengthAtLeast(s);
          Ok(TranslateNewlines(s))
  }

  /** A text file without carriage returns reads back as the text that was
      written into it. */
  lemma GetFileContentsOfText(fs: FileSystem, path: string, mode: nat, t: string)
    requires path in fs && fs[path] == File(mode, Encode(t)) && Free(t, '\r')
    ensures GetFileContents(fs, path) == Ok(t)
  {
    DecodeEncode(t);
    TranslateNewlinesNoCr(t);
  }

  /** `get_file_binary_contents`: `open(path, "rb").read()`. */
  function GetFileBinaryContents(fs: FileSystem, path: string): (r: Result<seq<byte>>)
    ensures r.Raise? ==> r.exc == FileNotFoundError || r.exc == IsADirectoryError
    ensures r.Ok? <==> path in fs && fs[path].File?
  {
    if path !in fs then Raise(FileNotFoundError)
    else
      match fs[path]
      case Directory(_) => Raise(IsADirectoryError)
      case File(_, data) => Ok(data)
  }

  /** Whatever a text read returns, a binary read of the same file returns
      its encoding (before line endings are translated). */
  lemma BinaryAgreesWithText(fs: FileSystem, path: string)
    requires GetFileContents(fs, path).Ok?
    ensures GetFileBinaryContents(fs, path).Ok?
    ensures Decode(GetFileBinaryContents(fs, path).value).Some?
    ensures GetFileContents(fs, path).value == TranslateNewlines(Decode(GetFileBinaryContents(fs, path).value).value)
  {
  }

  /** `binary_type_files` */
  const BINARY_TYPE_FILES: set<string> := {"jpg", "jpeg", "png", "gif", "pdf", "mp3", "wav", "avi", "mp4", "mov"}

  /** `should_return_binary`: every binary extension but `avi` and `mov`
      has a MIME type of its own, and none of them is `text/plain`. */
  predicate ShouldReturnBinary(ext: string): (r: bool)
    ensures r ==> (ext in MIME_TYPES <==> ext != "avi" && ext != "mov")
    ensures r && ext in MIME_TYPES ==> MIME_TYPES[ext] != "text/plain"
  {
    ext in BINARY_TYPE_FILES
  }

  /** `mime_types` */
  const MIME_TYPES: map<string, string> := map[
    "html" := "text/html",
    "css" := "text/css",
    "js" := "application/javascript",
    "json" := "application/json",
    "jpg" := "image/jpeg",
    "jpeg" := "image/jpeg",
    "png" := "image/png",
    "gif" := "image/gif",
    "pdf" := "application/pdf",
    "mp4" := "video/mp4",
    "ogg" := "audio/ogg",
    "wav" := "audio/wav",
    "txt" := "text/plain",
    "mp3" := "audio/mp3"
  ]

  /** `get_file_mime_type`: the table's entry, `text/plain` for an
      extension it does not list. */
  function GetFileMimeType(ext: string): (mime: string)
    ensures mime == "text/plain" <==> ext !in MIME_TYPES || ext == "txt"
    ensures mime != "text/plain" ==> ext in MIME_TYPES && MIME_TYPES[ext] == mime
  {
    if ext !in MIME_TYPES then "text/plain" else MIME_TYPES[ext]
  }

  /** Binary and text do not line up with the MIME table: every binary
      extension but `avi` and `mov` gets a type other than `text/plain`, while
      those two are read as bytes and labelled `text/plain`; `ogg` has a
      type of its own but is read as text. */
  lemma MimeOfBinary(ext: string)
    ensures ShouldReturnBinary(ext) && ext != "avi" && ext != "mov" ==> GetFileMimeType(ext) != "text/plain"
    ensures ShouldReturnBinary("avi") && GetFileMimeType("avi") == "text/plain"
    ensures ShouldReturnBinary("mov") && GetFileMimeType("mov") == "text/plain"
    ensures !ShouldReturnBinary("ogg") && GetFileMimeType("ogg") == "audio/ogg"
  {
  }

  /** `path.split(".")[-1]`: what follows the last dot, or the whole path
      when it has none. */
  function Extension(path: string): (ext: string)
    ensures Free(ext, '.')
    ensures Free(path, '.') ==> ext == path
  {
    var parts := Split(path, ".");
    SplitPieces(path, ".");
    assert Free(Last(parts), '.') by {
      NotContainsSingle(Last(parts), '.');
    }
    assert Free(path, '.') ==> !Contains(path, ".") by {
      if Free(path, '.') {
        NotContainsFree(path, ".");
      }
    }
    Last(parts)
  }

  /** The extension is what follows the last dot. */
  lemma {:induction false} ExtensionOf(stem: string, ext: string)
    requires Free(ext, '.')
    ensures Extension(stem + "." + ext) == ext
    decreases |stem|
  {
    var path := stem + "." + ext;
    assert OccursAt(path, |stem|, ".");
    var i := Find(path, ".").value;
    var rest := path[i + 1..];
    assert Split(path, ".") == [path[..i]] + Split(rest, ".");
    if i == |stem| {
      assert rest == ext;
      NotContainsFree(ext, ".");
    } else {
      assert rest == stem[i + 1..] + "." + ext;
      ExtensionOf(stem[i + 1..], ext);
    }
  }
}
