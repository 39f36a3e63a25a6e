/**
 The extension allow-list of the upload handler: which file names
 `allowed_file` lets through, and how the text after the last `.`
 (`filename.rsplit('.', 1)[1]`) is taken.
 */
module Extensions {
  import opened Common
  import opened Text

  /** The eleven extensions an upload may carry (`ALLOWED_EXTENSIONS`). */
  const AllowedExtensions: set<string> :=
    {"txt", "pdf", "png", "jpg", "jpeg", "gif", "doc", "docx", "zip", "csv", "xlsx"}

  /** `f` is `stem + "." + ext`: the reference description of a split at a dot. */
  predicate SplitsAt(f: string, stem: string, ext: string) {
    f == stem + "." + ext
  }

  /** The index of the last `.` in `f`, if any. */
  function LastDot(f: string): (r: Option<nat>)
    ensures r.None? <==> '.' !in f
    ensures r.Some? ==> r.value < |f| && f[r.value] == '.'
    ensures r.Some? ==> forall j :: r.value < j < |f| ==> f[j] != '.'
  {
    if |f| == 0 then None
    else if f[|f| - 1] == '.' then Some(|f| - 1)
    else
      assert '.' in f <==> '.' in f[..|f| - 1] by {
        assert f == f[..|f| - 1] + [f[|f| - 1]];
      }
      LastDot(f[..|f| - 1])
  }

  /**
   `f.rsplit('.', 1)[1]` when `f` contains a dot: the text after the last
   dot, which itself contains no dot.
   */
  function AfterLastDot(f: string): (r: Option<string>)
    ensures r.None? <==> '.' !in f
    ensures r.Some? ==> '.' !in r.value && |r.value| < |f|
    ensures r.Some? ==> SplitsAt(f, f[..|f| - |r.value| - 1], r.value)
  {
    match LastDot(f)
    case None => None
    case Some(k) =>
      var ext := f[k + 1..];
      assert '.' !in ext by {
        forall j | 0 <= j < |ext| ensures ext[j] != '.' {
          assert ext[j] == f[k + 1 + j];
        }
      }
      assert f == f[..k] + "." + ext;
      Some(ext)
  }

  /**
   The split at the last dot is the only split whose right part is
   dot-free: `AfterLastDot` returns `ext` exactly when `f` is some stem,
   a dot, and `ext`, with no dot in `ext`.
   */
  lemma AfterLastDotCharacterization(f: string, stem: string, ext: string)
    requires '.' !in ext
    ensures SplitsAt(f, stem, ext) ==> AfterLastDot(f) == Some(ext)
  {
    if SplitsAt(f, stem, ext) {
      assert f[|stem|] == '.';
      forall j | |stem| < j < |f| ensures f[j] != '.' {
        assert f[j] == ext[j - |stem| - 1];
      }
      var k := LastDot(f).value;
      assert k == |stem|;
      assert f[k + 1..] == ext;
    }
  }

  /** `allowed_file(filename)`. */
  predicate AllowedFile(filename: string) {
    '.' in filename && Lower(AfterLastDot(filename).value) in AllowedExtensions
  }

  /**
   A name is allowed exactly when it splits at a dot into a stem and a
   dot-free extension whose lower-case form is on the allow-list.
   */
  lemma AllowedFileSpec(f: string)
    ensures AllowedFile(f) <==>
      exists stem: string, ext: string ::
        SplitsAt(f, stem, ext) && '.' !in ext && Lower(ext) in AllowedExtensions
  {
    if AllowedFile(f) {
      var ext := AfterLastDot(f).value;
      assert SplitsAt(f, f[..|f| - |ext| - 1], ext);
    }
    if exists stem: string, ext: string ::
        SplitsAt(f, stem, ext) && '.' !in ext && Lower(ext) in AllowedExtensions
    {
      var stem: string, ext: string :|
        SplitsAt(f, stem, ext) && '.' !in ext && Lower(ext) in AllowedExtensions;
      AfterLastDotCharacterization(f, stem, ext);
      assert f[|stem|] == '.';
    }
  }

  /** The decision depends on the extension alone, case-insensitively. */
  lemma AllowedFileByExtension(f: string, stem: string, ext: string)
    requires SplitsAt(f, stem, ext) && '.' !in ext
    ensures AllowedFile(f) <==> Lower(ext) in AllowedExtensions
  {
    AfterLastDotCharacterization(f, stem, ext);
    assert f[|stem|] == '.';
  }

  /** Only the text after the last dot is examined. */
  lemma AllowedFileLastDotDecides()
    ensures AllowedFile("a.tar.zip")
  {
    assert SplitsAt("a.tar.zip", "a.tar", "zip");
    AllowedFileByExtension("a.tar.zip", "a.tar", "zip");
    LowerKeepsLowercase("zip");
  }

  /** The extension is compared after lower-casing. */
  lemma AllowedFileIgnoresCase()
    ensures AllowedFile("REPORT.PDF")
  {
    assert SplitsAt("REPORT.PDF", "REPORT", "PDF");
    AllowedFileByExtension("REPORT.PDF", "REPORT", "PDF");
    var l := Lower("PDF");
    assert l[0] == LowerChar('P') && l[1] == LowerChar('D') && l[2] == LowerChar('F');
    assert l == "pdf";
  }

  /** A trailing dot leaves an empty extension, which is not on the list. */
  lemma AllowedFileRejectsEmptyExtension()
    ensures !AllowedFile("file.")
  {
    assert SplitsAt("file.", "file", "");
    AllowedFileByExtension("file.", "file", "");
  }

  /** An extension off the list is refused. */
  lemma AllowedFileRejectsUnlisted()
    ensures !AllowedFile("malware.exe")
  {
    assert SplitsAt("malware.exe", "malware", "exe");
    AfterLastDotCharacterization("malware.exe", "malware", "exe");
    LowerKeepsLowercase("exe");
  }
}
