/** The upload validators and the text-extraction dispatch of
    backend/src/services/fileService.ts, with Node's POSIX `path.extname`
    written out. Reading the file and the `.docx` conversion are foreign
    calls; their outcome is a parameter. */
module FileService {
  import opened Records
  import opened Text

  const MaxFileSize: nat := 10 * 1024 * 1024

  /** The accepted upload types. */
  predicate IsAllowedType(t: string) {
    t == ".txt" || t == ".docx"
  }

  /** The path without its trailing '/' characters. */
  function StripTrailingSlashes(p: string): (r: string)
    ensures |r| <= |p| && r == p[..|r|]
    ensures r == [] || r[|r| - 1] != '/'
    ensures forall i :: |r| <= i < |p| ==> p[i] == '/'
  {
    if |p| > 0 && p[|p| - 1] == '/' then StripTrailingSlashes(p[..|p| - 1]) else p
  }

  /** The part after the last '/'. */
  function AfterLastSlash(p: string): (r: string)
    ensures '/' !in r
    ensures |r| <= |p| && r == p[|p| - |r|..]
    ensures |r| < |p| ==> p[|p| - |r| - 1] == '/'
  {
    if |p| == 0 then ""
    else if p[|p| - 1] == '/' then ""
    else AfterLastSlash(p[..|p| - 1]) + [p[|p| - 1]]
  }

  /** The last component of the path (`path.basename`). */
  function BaseName(p: string): string {
    AfterLastSlash(StripTrailingSlashes(p))
  }

  /** The index of the last '.' in `s`. */
  function LastDot(s: string): (r: Option<nat>)
    ensures r.Some? ==> r.value < |s| && s[r.value] == '.' && '.' !in s[r.value + 1..]
    ensures r.None? <==> '.' !in s
  {
    if |s| == 0 then None
    else if s[|s| - 1] == '.' then Some(|s| - 1)
    else
      var r := LastDot(s[..|s| - 1]);
      assert s == s[..|s| - 1] + [s[|s| - 1]];
      r
  }

  /** `path.extname(p)`: from the last '.' of the last component to its
      end; empty when there is no dot, when the dot opens the component
      (".profile") or when the component is "..". */
  function Extname(p: string): (r: string)
    ensures r == [] || (r[0] == '.' && '.' !in r[1..] && '/' !in r)
  {
    var b := BaseName(p);
    match LastDot(b)
    case None => ""
    case Some(d) => if d == 0 || b == ".." then "" else b[d..]
  }

  /** `getFileType(fileName)`: the extension, lower-cased. */
  function GetFileType(fileName: string): (r: string)
    ensures |r| == |Extname(fileName)|
    ensures r == [] || (r[0] == '.' && '.' !in r[1..] && '/' !in r)
  {
    var e := Extname(fileName);
    LowerKeepsMarks(e);
    LowerAll(e)
  }

  /** Lower-casing keeps an extension's shape: a leading dot, and no
      further dot or slash. */
  lemma LowerKeepsMarks(e: string)
    requires e == [] || (e[0] == '.' && '.' !in e[1..] && '/' !in e)
    ensures var r := LowerAll(e);
      r == [] || (r[0] == '.' && '.' !in r[1..] && '/' !in r)
  {
    var r := LowerAll(e);
    if r != [] {
      forall i | 0 <= i < |r|
        ensures r[i] != '/' && (i > 0 ==> r[i] != '.')
      {
        assert e[i] in e;
        if i > 0 {
          assert e[1..][i - 1] == e[i];
        }
      }
      assert forall c :: c in r[1..] ==> c != '.';
    }
  }

  /** `validateFileType(fileName)` */
  predicate ValidateFileType(fileName: string): (ok: bool)
    ensures ok ==> Extname(fileName) != [] && Extname(fileName)[0] == '.'
    ensures ok ==> |Extname(fileName)| == 4 || |Extname(fileName)| == 5
  {
    IsAllowedType(GetFileType(fileName))
  }

  /** `validateFileSize(file)`: at most 10 MiB, the boundary included. */
  predicate ValidateFileSize(size: nat) {
    size <= MaxFileSize
  }

  /** The size check admits exactly 10 MiB and refuses one byte more; a
      smaller file passes whenever a larger one does. */
  lemma FileSizeLimit(small: nat, large: nat)
    requires small <= large
    ensures ValidateFileSize(10 * 1024 * 1024) && !ValidateFileSize(10 * 1024 * 1024 + 1)
    ensures ValidateFileSize(large) ==> ValidateFileSize(small)
  {
  }

  /** The multer `fileFilter`: accept, or fail with an error naming the
      extension. */
  function UploadFilter(originalName: string): (r: Result<bool>)
    ensures r.Ok? ==> r.value
    ensures r.Err? ==>
              r.message == "File type " + LowerAll(Extname(originalName))
                           + " not supported. Only .txt and .docx files are allowed."
  {
    var ext := LowerAll(Extname(originalName));
    if IsAllowedType(ext) then Ok(true)
    else Err("File type " + ext + " not supported. Only .txt and .docx files are allowed.")
  }

  /** The upload filter admits exactly the names `validateFileType` accepts. */
  lemma FilterAgreesWithValidator(name: string)
    ensures UploadFilter(name).Ok? <==> ValidateFileType(name)
  {
  }

  /** A name `b.e` with `b` non-empty, no '/' anywhere and no dot in the
      non-empty `e` has extension ".e". */
  lemma ExtnameOfName(b: string, e: string)
    requires |b| > 0 && |e| > 0 && '/' !in b && '/' !in e && '.' !in e
    ensures Extname(b + "." + e) == "." + e
  {
    var p := b + "." + e;
    assert p[|p| - 1] == e[|e| - 1];
    assert StripTrailingSlashes(p) == p;
    assert '/' !in p by {
      assert p == b + ("." + e);
    }
    AllSlashFree(p);
    assert BaseName(p) == p;
    var d := |b|;
    assert p[d + 1..] == e;
    LastDotAt(p, d);
    assert p[d..] == "." + e;
  }

  /** So its type is ".e" lower-cased. */
  lemma FileTypeOfName(b: string, e: string)
    requires |b| > 0 && |e| > 0 && '/' !in b && '/' !in e && '.' !in e
    ensures GetFileType(b + "." + e) == "." + LowerAll(e)
  {
    ExtnameOfName(b, e);
    LowerAppend(".", e);
    assert LowerAll(".") == ".";
    assert GetFileType(b + "." + e) == LowerAll("." + e);
  }

  lemma AllSlashFree(p: string)
    requires '/' !in p
    ensures AfterLastSlash(p) == p
  {
  }

  lemma LastDotAt(s: string, d: nat)
    requires d < |s| && s[d] == '.' && '.' !in s[d + 1..]
    ensures LastDot(s) == Some(d)
  {
    if d < |s| - 1 {
      var after := s[d + 1..];
      assert s[|s| - 1] == after[|after| - 1];
      var t := s[..|s| - 1];
      assert t[d + 1..] == after[..|after| - 1];
      SliceNoChar(after, |after| - 1, '.');
      LastDotAt(t, d);
    }
  }

  lemma SliceNoChar(s: string, n: nat, c: char)
    requires n <= |s| && c !in s
    ensures c !in s[..n]
  {
    forall i | 0 <= i < n
      ensures s[..n][i] != c
    {
      assert s[..n][i] == s[i];
    }
  }

  /** A name `b.e` is accepted exactly when `e`, ASCII-lower-cased, is
      "txt" or "docx": case does not matter, and only the last extension
      counts ("a.txt.exe" has extension ".exe"). */
  lemma AcceptedByExtension(b: string, e: string)
    requires |b| > 0 && |e| > 0 && '/' !in b && '/' !in e && '.' !in e
    ensures ValidateFileType(b + "." + e) <==> LowerAll(e) == "txt" || LowerAll(e) == "docx"
  {
    FileTypeOfName(b, e);
    var t := LowerAll(e);
    var name := b + "." + e;
    assert GetFileType(name) == "." + t;
    assert ValidateFileType(name) <==> IsAllowedType("." + t);
    AllowedDotted(t);
  }

  lemma AllowedDotted(t: string)
    ensures IsAllowedType("." + t) <==> t == "txt" || t == "docx"
  {
    var d := "." + t;
    assert t == d[1..];
    if d == ".txt" { assert t == ".txt"[1..]; }
    if d == ".docx" { assert t == ".docx"[1..]; }
    if t == "txt" { assert d == ".txt"; }
    if t == "docx" { assert d == ".docx"; }
  }

  /** A dot that opens the name is not an extension: a file called ".e"
      (".txt" among them) has no type and is refused. */
  lemma DotFileRefused(e: string)
    requires '/' !in e && '.' !in e
    ensures Extname("." + e) == ""
    ensures !ValidateFileType("." + e)
  {
    var p := "." + e;
    assert p == [] || p[|p| - 1] != '/';
    assert StripTrailingSlashes(p) == p;
    assert '/' !in p;
    AllSlashFree(p);
    assert p[1..] == e;
    LastDotAt(p, 0);
    assert LowerAll("") == "";
  }

  /** `extractTextFromFile(filePath, fileType)`. `read` is what reading the
      `.txt` file or converting the `.docx` file gives, absent when that
      fails. Every failure, the unsupported type included, surfaces as
      "Failed to extract text from <type> file". */
  function ExtractText(fileType: string, read: Option<string>): (r: Result<string>)
    ensures r.Ok? <==> IsAllowedType(LowerAll(fileType)) && read.Some?
    ensures r.Ok? ==> r.value == Trim(read.value) && IsTrimmed(r.value)
    ensures r.Err? ==> r.message == "Failed to extract text from " + fileType + " file"
  {
    var t := LowerAll(fileType);
    if (t == ".txt" || t == ".docx") && read.Some? then
      TrimSpec(read.value);
      Ok(Trim(read.value))
    else Err("Failed to extract text from " + fileType + " file")
  }
}
