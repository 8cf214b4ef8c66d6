/** The asset resolver `read_file` and the dataset file reader `get_file_data`,
    over an abstract file system: the set of existing paths and their contents. */
module Assets {
  import opened Wrappers
  import Text

  newtype byte = x: int | 0 <= x < 256

  /** The files that exist, with their contents. */
  type FileSystem = map<string, seq<byte>>

  /** The extensions `read_file` tries, in order, before their upper-case forms. */
  const LowerExtensions: seq<string> :=
    ["pdf", "jpg", "jpeg", "png", "gif", "ods", "odt", "xlsx", "doc", "docx", "xls", "csv", "txt"]

  function UpperAll(exts: seq<string>): (r: seq<string>)
    ensures |r| == |exts|
    ensures forall i :: 0 <= i < |exts| ==> r[i] == Text.Upper(exts[i])
  {
    seq(|exts|, i requires 0 <= i < |exts| => Text.Upper(exts[i]))
  }

  /** `allowed_ext`: the 13 lower-case extensions, then the same 13 upper-cased. */
  const AllowedExtensions: seq<string> := LowerExtensions + UpperAll(LowerExtensions)

  /** The candidate path `'%s.%s' % (path, ext)`. */
  function Candidate(path: string, ext: string): string
  {
    path + "." + ext
  }

  /** The first extension among `exts` whose candidate path exists. */
  function FirstExisting(fs: FileSystem, path: string, exts: seq<string>): (r: Option<nat>)
    ensures r.Some? ==> r.value < |exts| && Candidate(path, exts[r.value]) in fs
    ensures r.Some? ==> forall j :: 0 <= j < r.value ==> Candidate(path, exts[j]) !in fs
    ensures r.None? ==> forall j :: 0 <= j < |exts| ==> Candidate(path, exts[j]) !in fs
    decreases |exts|
  {
    if exts == [] then None
    else if Candidate(path, exts[0]) in fs then Some(0)
    else
      match FirstExisting(fs, path, exts[1..])
      case None => None
      case Some(i) => Some(i + 1)
  }

  /** The message of the `IOError` that `read_file` raises. */
  function NotFoundMessage(path: string): string
  {
    "File not found: " + path + ". Allowed extensions: " + Text.Join(AllowedExtensions, ',')
  }

  /** `read_file(path)`: the exact path if it exists, otherwise the first existing
      `path.ext` in the order of `AllowedExtensions`; `IOError` only when none exists. */
  function ReadFile(fs: FileSystem, path: string): (r: Result<seq<byte>, string>)
    ensures path in fs ==> r == Ok(fs[path])
    ensures r.Err? <==> path !in fs && forall e :: e in AllowedExtensions ==> Candidate(path, e) !in fs
    ensures r.Ok? && path !in fs ==>
      exists i :: 0 <= i < |AllowedExtensions|
        && Candidate(path, AllowedExtensions[i]) in fs
        && r.value == fs[Candidate(path, AllowedExtensions[i])]
        && forall j :: 0 <= j < i ==> Candidate(path, AllowedExtensions[j]) !in fs
  {
    if path in fs then Ok(fs[path])
    else
      match FirstExisting(fs, path, AllowedExtensions)
      case Some(i) => Ok(fs[Candidate(path, AllowedExtensions[i])])
      case None => Err(NotFoundMessage(path))
  }

  /** Extension probing looks at the lower-case extension before its upper-case form. */
  lemma LowerCaseFirst(i: nat)
    requires i < |LowerExtensions|
    ensures AllowedExtensions[i] == LowerExtensions[i]
    ensures AllowedExtensions[|LowerExtensions| + i] == Text.Upper(LowerExtensions[i])
  {
  }

  /** A certificate stored as `cert.PDF` is found when `cert` is asked for. */
  lemma UpperCaseExtensionFound(contents: seq<byte>)
    ensures ReadFile(map["cert.PDF" := contents], "cert") == Ok(contents)
  {
    var fs := map["cert.PDF" := contents];
    assert Text.Upper("pdf") == "PDF";
    assert AllowedExtensions[13] == "PDF";
    assert Candidate("cert", "PDF") == "cert.PDF";
    var r := FirstExisting(fs, "cert", AllowedExtensions);
    assert r.Some?;
    forall j | 0 <= j < 13 ensures Candidate("cert", AllowedExtensions[j]) !in fs {
      assert AllowedExtensions[j] == LowerExtensions[j];
      assert Candidate("cert", AllowedExtensions[j])[5] != 'P';
    }
  }

  /** The location of a dataset file inside the package, `setupdata/<dataset>/<filename>`. */
  function DatasetPath(datasetName: string, filename: string): string
  {
    "setupdata/" + datasetName + "/" + filename
  }

  /** `get_file_data(filename)`: the contents of the named dataset file, `None` when no
      name is given or the file cannot be read (no extension probing here). */
  function GetFileData(fs: FileSystem, datasetName: string, filename: Option<string>): (r: Option<seq<byte>>)
    ensures !Truthy(filename) ==> r == None
    ensures Truthy(filename) ==>
      (r.Some? <==> DatasetPath(datasetName, filename.value) in fs)
      && (r.Some? ==> r.value == fs[DatasetPath(datasetName, filename.value)])
  {
    if Truthy(filename) && DatasetPath(datasetName, filename.value) in fs then
      Some(fs[DatasetPath(datasetName, filename.value)])
    else None
  }
}
