/**
 The `POST /upload` handler with its HTTP and filesystem shell taken off:
 an ordered chain of checks (file part present, file name non-empty,
 extension allowed, size within 16 MiB), then the reply record built from
 the sanitised name, the byte count, its display, the extension and the
 declared MIME type, together with the file that is stored.

 The file-name sanitiser is a library routine whose rules are not part of
 this model, so it is a parameter `sanitize`; nothing is assumed about it.
 The allowed extensions are joined into the refusal message in the
 iteration order of a Python set, which is not fixed, so that order is the
 parameter `listing`.
 */
module Upload {
  import opened Common
  import opened Text
  import opened Extensions
  import opened SizeFormat
  import opened Http

  /** `MAX_FILE_SIZE`: 16 MiB. */
  const MaxFileSize: nat := 16 * 1024 * 1024

  const NoFilePartMessage: string := "No file part in the request"
  const NoFileSelectedMessage: string := "No file selected"
  const NotAllowedPrefix: string := "File type not allowed. Allowed types: "

  /** The refusal for a disallowed extension, listing the allowed ones in `listing` order. */
  function NotAllowedMessage(listing: seq<string>): string {
    NotAllowedPrefix + Join(listing, ", ")
  }

  /** The refusal for an oversized payload, stating the limit in whole MiB. */
  function TooLargeMessage(): string {
    "File too large. Maximum size is " + DecimalString(MaxFileSize / (1024 * 1024)) + "MB"
  }

  /** The type shown when the sanitised name has no dot. */
  const UnknownType: string := "unknown"

  // ---------------------------------------------------------------------
  // The uploaded stream

  /** A readable payload with a read position, as the uploaded file object is. */
  datatype Stream = Stream(data: seq<byte>, pos: nat) {

    /** Reads everything from the position on and leaves the position at the end. */
    function ReadAll(): (res: (seq<byte>, Stream))
      ensures res.1.data == data && res.1.pos == |data|
      ensures pos <= |data| ==> data == data[..pos] + res.0
      ensures pos >= |data| ==> res.0 == []
    {
      if pos <= |data| then (data[pos..], Stream(data, |data|)) else ([], Stream(data, |data|))
    }

    /** Moves the read position. */
    function Seek(p: nat): Stream {
      Stream(data, p)
    }
  }

  /** The `file` part of a multipart request. */
  datatype FilePart = FilePart(filename: string, payload: seq<byte>, contentType: Option<string>)

  /** The request: the `file` part, if any. */
  datatype UploadRequest = UploadRequest(file: Option<FilePart>)

  /** The `file_info` object of a successful reply. */
  datatype FileInfo = FileInfo(
    name: string,
    size: string,
    sizeBytes: nat,
    fileType: string,
    mimeType: Option<string>)

  /** What is written to the upload directory: a name and its content. */
  datatype StoredFile = StoredFile(name: string, content: seq<byte>)

  /** A successful upload: the reply record and the stored file. */
  datatype Uploaded = Uploaded(info: FileInfo, stored: StoredFile)

  /** The `type` field: the lower-cased text after the last dot of the name, else "unknown". */
  function FileType(name: string): (t: string)
    ensures '.' !in name ==> t == UnknownType
    ensures forall stem: string, ext: string ::
      SplitsAt(name, stem, ext) && '.' !in ext ==> t == Lower(ext)
  {
    match AfterLastDot(name)
    case None => UnknownType
    case Some(ext) =>
      assert forall stem: string, e: string :: SplitsAt(name, stem, e) && '.' !in e ==> e == ext by {
        forall stem: string, e: string | SplitsAt(name, stem, e) && '.' !in e
          ensures e == ext
        {
          AfterLastDotCharacterization(name, stem, e);
        }
      }
      Lower(ext)
  }

  /** The request passes every check and is stored. */
  predicate Accepted(req: UploadRequest) {
    && req.file.Some?
    && req.file.value.filename != ""
    && AllowedFile(req.file.value.filename)
    && |req.file.value.payload| <= MaxFileSize
  }

  /**
   `upload_file`. The checks run in the handler's order (file part, empty
   name, extension, size) and the first that fails decides the reply; all
   refusals are 400. On success the reply
   carries the sanitised name, the byte count and its display, the type
   and the declared MIME type, and the stored content is the whole payload
   because the stream is rewound after its size is measured.
   */
  function UploadFile(req: UploadRequest, sanitize: string -> string, listing: seq<string>)
    : (r: Response<Uploaded>)
    ensures req.file.None? ==> r == Err(BadRequest, NoFilePartMessage)
    ensures req.file.Some? && req.file.value.filename == "" ==>
      r == Err(BadRequest, NoFileSelectedMessage)
    ensures req.file.Some? && req.file.value.filename != "" && !AllowedFile(req.file.value.filename) ==>
      r == Err(BadRequest, NotAllowedMessage(listing))
    ensures (req.file.Some? && req.file.value.filename != "" && AllowedFile(req.file.value.filename)
             && |req.file.value.payload| > MaxFileSize) ==>
      r == Err(BadRequest, TooLargeMessage())
    ensures r.Ok? <==> Accepted(req)
    ensures r.Ok? ==>
      var file := req.file.value;
      && r.body.info.name == sanitize(file.filename)
      && r.body.info.sizeBytes == |file.payload|
      && r.body.info.size == FormatSize(|file.payload|)
      && r.body.info.fileType == FileType(sanitize(file.filename))
      && r.body.info.mimeType == file.contentType
      && r.body.stored == StoredFile(sanitize(file.filename), file.payload)
  {
    match req.file
    case None => Err(BadRequest, NoFilePartMessage)
    case Some(file) =>
      if file.filename == "" then
        Err(BadRequest, NoFileSelectedMessage)
      else if !AllowedFile(file.filename) then
        Err(BadRequest, NotAllowedMessage(listing))
      else
        var filename := sanitize(file.filename);
        var (bytes, afterRead) := Stream(file.payload, 0).ReadAll();
        var fileSize := |bytes|;
        var rewound := afterRead.Seek(0);
        if fileSize > MaxFileSize then
          Err(BadRequest, TooLargeMessage())
        else
          var stored := StoredFile(filename, rewound.ReadAll().0);
          Ok(Uploaded(
            FileInfo(filename, FormatSize(fileSize), fileSize, FileType(filename), file.contentType),
            stored))
  }

  // ---------------------------------------------------------------------
  // Properties

  /** Every refusal is a 400: the handler's validation never reports a fault. */
  lemma RefusalsAreBadRequests(req: UploadRequest, sanitize: string -> string, listing: seq<string>)
    ensures UploadFile(req, sanitize, listing).Status() == (if Accepted(req) then 200 else BadRequest)
  {
  }

  /** The stated limit is 16 MB. */
  lemma TooLargeMessageText()
    ensures TooLargeMessage() == "File too large. Maximum size is 16MB"
  {
    assert MaxFileSize / (1024 * 1024) == 16;
    assert DecimalString(16) == "16";
  }

  /** A payload of exactly 16 MiB is accepted and one more byte is refused. */
  lemma SizeLimitBoundary(name: string, payload: seq<byte>, ct: Option<string>,
                          sanitize: string -> string, listing: seq<string>)
    requires name != "" && AllowedFile(name)
    ensures |payload| == MaxFileSize ==>
      UploadFile(UploadRequest(Some(FilePart(name, payload, ct))), sanitize, listing).Ok?
    ensures |payload| == MaxFileSize + 1 ==>
      UploadFile(UploadRequest(Some(FilePart(name, payload, ct))), sanitize, listing)
        == Err(BadRequest, "File too large. Maximum size is 16MB")
  {
    TooLargeMessageText();
  }

  /** A disallowed name is refused for its type whatever the payload's size. */
  lemma TypeCheckedBeforeSize(name: string, p1: seq<byte>, p2: seq<byte>, ct: Option<string>,
                              sanitize: string -> string, listing: seq<string>)
    requires name != "" && !AllowedFile(name)
    ensures UploadFile(UploadRequest(Some(FilePart(name, p1, ct))), sanitize, listing)
         == UploadFile(UploadRequest(Some(FilePart(name, p2, ct))), sanitize, listing)
         == Err(BadRequest, NotAllowedMessage(listing))
  {
  }

  /** `listing` enumerates the allowed extensions, each once (a set's iteration). */
  ghost predicate IsListing(listing: seq<string>) {
    && (forall i, j :: 0 <= i < j < |listing| ==> listing[i] != listing[j])
    && (forall e :: e in listing <==> e in AllowedExtensions)
  }

  /** The type refusal names every allowed extension, in any iteration order. */
  lemma NotAllowedMessageNamesEveryExtension(listing: seq<string>, e: string)
    requires IsListing(listing) && e in AllowedExtensions
    ensures IsInfix(e, NotAllowedMessage(listing))
  {
    var i :| 0 <= i < |listing| && listing[i] == e;
    JoinContainsItems(listing, ", ", i);
    InfixOfSuffixPart(e, NotAllowedPrefix, Join(listing, ", "));
  }

  /**
   The type refusal names nothing with an "ex" in it, so in particular not
   the refused "exe": the prefix and the separator hold no "x", and no
   allowed extension holds "ex".
   */
  lemma NotAllowedMessageOmits(listing: seq<string>, w: string)
    requires IsListing(listing) && IsInfix("ex", w)
    ensures !IsInfix(w, NotAllowedMessage(listing))
  {
    forall i | 0 <= i < |listing| ensures NoAdjacent(listing[i], 'e', 'x') {
      assert listing[i] in AllowedExtensions;
      ExtensionsLackEx(listing[i]);
    }
    JoinNoAdjacent(listing, ", ", 'e', 'x');
    assert NoAdjacent(NotAllowedPrefix, 'e', 'x') by {
      assert 'x' !in NotAllowedPrefix;
    }
    NoAdjacentConcat(NotAllowedPrefix, Join(listing, ", "), 'e', 'x');
    NoAdjacentExcludes(w, NotAllowedMessage(listing), 'e', 'x');
  }

  /** The refusal of "malware.exe" does not offer "exe" among the allowed types. */
  lemma NotAllowedMessageOmitsExe(listing: seq<string>)
    requires IsListing(listing)
    ensures !IsInfix("exe", NotAllowedMessage(listing))
  {
    assert OccursAt("ex", "exe", 0);
    NotAllowedMessageOmits(listing, "exe");
  }

  /** No allowed extension has an "e" followed by an "x". */
  lemma ExtensionsLackEx(e: string)
    requires e in AllowedExtensions
    ensures NoAdjacent(e, 'e', 'x')
  {
  }

  /** The size display of an accepted upload: its tier and rounded figure, at most 16.0 MB. */
  lemma AcceptedSizeDisplay(req: UploadRequest, sanitize: string -> string, listing: seq<string>)
    requires Accepted(req)
    ensures var r := UploadFile(req, sanitize, listing);
      && ParseSize(r.body.info.size).Some?
      && Describes(ParseSize(r.body.info.size).value, r.body.info.sizeBytes)
    ensures var n := |req.file.value.payload|;
      MiB <= n ==> 10 <= RoundHalfEven(10 * n, MiB) <= 160
  {
    var n := |req.file.value.payload|;
    FormatSizeReadsBack(n);
    if MiB <= n {
      MegabytesShownRange(n, 16);
    }
  }

  /**
   When the sanitiser keeps the name, the type is the lower-cased
   extension that passed the allow-list, so it is never "unknown".
   */
  lemma TypeOfUnchangedName(req: UploadRequest, sanitize: string -> string, listing: seq<string>)
    requires Accepted(req)
    requires sanitize(req.file.value.filename) == req.file.value.filename
    ensures UploadFile(req, sanitize, listing).body.info.fileType in AllowedExtensions
  {
    var f := req.file.value.filename;
    var ext := AfterLastDot(f).value;
    assert SplitsAt(f, f[..|f| - |ext| - 1], ext);
  }

  /**
   The type comes from the sanitised name, so the "unknown" fallback is
   reachable: a sanitiser that drops a leading dot turns ".pdf", which the
   allow-list accepts, into "pdf", which has no dot.
   */
  lemma UnknownTypeReachable()
    ensures var r := UploadFile(
        UploadRequest(Some(FilePart(".pdf", [], None))),
        s => if |s| > 0 && s[0] == '.' then s[1..] else s,
        []);
      r.Ok? && r.body.info.fileType == UnknownType
  {
    assert SplitsAt(".pdf", "", "pdf");
    AllowedFileByExtension(".pdf", "", "pdf");
    LowerKeepsLowercase("pdf");
    assert ".pdf"[1..] == "pdf";
    assert '.' !in "pdf";
  }

  /**
   Why the stream is rewound: reading it to measure the size leaves the
   position at the end, and saving from there would store nothing.
   */
  lemma SavingWithoutRewindStoresNothing(payload: seq<byte>)
    ensures Stream(payload, 0).ReadAll().0 == payload
    ensures Stream(payload, 0).ReadAll().1.ReadAll().0 == []
    ensures Stream(payload, 0).ReadAll().1.Seek(0).ReadAll().0 == payload
  {
  }

  /** A 500-byte "report.pdf", kept as is by the sanitiser, is stored and described. */
  lemma SmallReportAccepted(payload: seq<byte>, ct: Option<string>, sanitize: string -> string)
    requires |payload| == 500 && sanitize("report.pdf") == "report.pdf"
    ensures UploadFile(UploadRequest(Some(FilePart("report.pdf", payload, ct))), sanitize, [])
         == Ok(Uploaded(FileInfo("report.pdf", "500 bytes", 500, "pdf", ct), StoredFile("report.pdf", payload)))
  {
    LowerKeepsLowercase("pdf");
    assert SplitsAt("report.pdf", "report", "pdf");
    AllowedFileByExtension("report.pdf", "report", "pdf");
    FormatSizeExamples();
    assert Accepted(UploadRequest(Some(FilePart("report.pdf", payload, ct))));
  }
}
