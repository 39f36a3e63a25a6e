# Animal selection and file upload — a Dafny model

This project models the request-independent decision logic of the
`animal_file` Flask blueprint (`src/routes/animal_file.py`), lifted out of
its HTTP and filesystem shell into pure Dafny functions over strings and
natural numbers, and proves what the handlers promise.

- `Common` — `Option` (Python's `None`) and the `byte` type of a payload.
- `Http` — the reply shape: a success body (status 200) or `{"success": false, "error"}` with a status.
- `Text` — ASCII `str.lower`, `str(n)` for naturals with its inverse `int(s)`, `', '.join`, and string containment.
- `Extensions` — `ALLOWED_EXTENSIONS`, `filename.rsplit('.', 1)[1]` and `allowed_file`.
- `SizeFormat` — the `bytes` / `KB` / `MB` size display. For sizes below 2^53 bytes, `n / 1024` and `n / 1048576` are exact doubles, so `:.1f` is the exact quotient rounded to tenths with ties to even; the model does this with integers and reads the display back to prove its meaning.
- `AnimalLookup` — `get_animal_image` on a parsed JSON body.
- `Upload` — `upload_file`: the ordered checks, the size limit, the reply record and the stored file.

`werkzeug.utils.secure_filename` is a library routine whose rules are not
part of this model: `UploadFile` takes it as a parameter `sanitize` and
assumes nothing about it. The refusal message for a disallowed type joins
the allowed extensions in a Python set's iteration order, which is not
fixed, so that order is the parameter `listing`.

Two behaviours of the code that are easy to misread:

- A body whose `animal` is the empty string gets the "invalid selection" reply, not "selection required". Among the modelled bodies (JSON `null` or a JSON object), only a `null` body, an empty object or a missing key give "required".
- The `type` field is taken from the *sanitised* name. So the `"unknown"` fallback is reachable even though `allowed_file` demands a dot. A sanitiser that drops a leading dot turns the accepted name `.pdf` into `pdf` (`Upload.UnknownTypeReachable`). The fallback is therefore kept.

Also, the size limit is 16 MiB (16,777,216 bytes), not 1 MiB: one byte past 1 MiB is still accepted, and `Upload.SizeLimitBoundary` pins the real edge.

## Model

| member | source | states |
|---|---|---|
| Extensions.AfterLastDot | src/routes/animal_file.py:17 | the text after the last dot exists exactly when the name has a dot; it holds no dot and the name is a stem, a dot and that text |
| Extensions.AfterLastDotCharacterization | src/routes/animal_file.py:17 | any split of a name into stem, dot and a dot-free right part is the split `rsplit('.', 1)` makes |
| Extensions.AllowedFile | src/routes/animal_file.py:15-17 | `allowed_file`; its meaning is stated by `AllowedFileSpec` and `AllowedFileByExtension` |
| Extensions.AllowedFileSpec | src/routes/animal_file.py:15-17 | a name is allowed iff it is some stem, a dot and a dot-free extension whose lower-case form is one of the eleven listed extensions |
| Extensions.AllowedFileByExtension | src/routes/animal_file.py:15-17 | for a name split at its last dot, the verdict depends only on the lower-cased extension |
| Extensions.AllowedFileLastDotDecides | src/routes/animal_file.py:15-17 | `a.tar.zip` is allowed: only the text after the last dot counts |
| Extensions.AllowedFileIgnoresCase | src/routes/animal_file.py:15-17 | `REPORT.PDF` is allowed: the extension is compared lower-cased |
| Extensions.AllowedFileRejectsEmptyExtension | src/routes/animal_file.py:15-17 | `file.` is refused: an empty extension is not on the list |
| Extensions.AllowedFileRejectsUnlisted | src/routes/animal_file.py:15-17 | `malware.exe` is refused |
| Text.Lower | src/routes/animal_file.py:31 | lower-casing keeps the length and lower-cases each ASCII letter in place |
| Text.LowerIdempotent | src/routes/animal_file.py:31 | lower-casing an already lower-cased string changes nothing |
| Text.DecimalString | src/routes/animal_file.py:86 | `str(n)`: a non-empty digit string without a leading zero; `DecimalRoundTrip` and `DecimalParsePrint` pin its value |
| Text.DecimalRoundTrip | src/routes/animal_file.py:86 | the digits printed for a count read back as that count |
| Text.DecimalParsePrint | src/routes/animal_file.py:86 | every digit string without a leading zero is what its value prints as, so printing is a bijection onto such strings |
| Text.Join | src/routes/animal_file.py:106 | `', '.join`: a one-item list joins to that item; `JoinContainsItems` states that every item appears |
| Text.JoinContainsItems | src/routes/animal_file.py:106 | every item of a joined list occurs in the joined string |
| SizeFormat.RoundHalfEven | src/routes/animal_file.py:88 | the computed tenths are within half a unit of the exact quotient, with a tie going to the even value |
| SizeFormat.RoundHalfEvenUnique | src/routes/animal_file.py:88 | only one value is correctly rounded half to even, so the `.1f` figure is determined |
| SizeFormat.RoundHalfEvenBounds | src/routes/animal_file.py:88 | rounding never crosses a whole-number bound that the exact quotient respects |
| SizeFormat.TenthsString | src/routes/animal_file.py:88-90 | a tenths count printed with one decimal; `TenthsRoundTrip` reads it back |
| SizeFormat.TenthsRoundTrip | src/routes/animal_file.py:88-90 | the one-decimal rendering of a tenths count reads back as that count |
| SizeFormat.FormatSize | src/routes/animal_file.py:85-90 | the size display; its meaning is stated by `FormatSizeReadsBack`, `FormatSizeTiers` and `BytesTier` |
| SizeFormat.FormatSizeReadsBack | src/routes/animal_file.py:85-90 | every display reads back as the tier the thresholds pick: the exact count below 1024, else the KB or MB figure correctly rounded to tenths |
| SizeFormat.DescribesUnique | src/routes/animal_file.py:85-90 | a size has exactly one correct display meaning, so the tiers are disjoint |
| SizeFormat.FormatSizeTiers | src/routes/animal_file.py:85-90 | the display ends in " bytes" iff n < 1024, in " KB" iff 1024 <= n < 1048576, in " MB" iff n >= 1048576 |
| SizeFormat.BytesTier | src/routes/animal_file.py:85-86 | the display is exactly the count followed by " bytes" iff n < 1024 |
| SizeFormat.KilobytesShownRange | src/routes/animal_file.py:87-88 | a KB figure lies between 1.0 and 1024.0 |
| SizeFormat.MegabytesShownRange | src/routes/animal_file.py:89-90 | an MB figure for at most k MiB lies between 1.0 and k.0 |
| SizeFormat.FormatSizeExamples | src/routes/animal_file.py:85-88 | 500 shows as "500 bytes" and 2048 as "2.0 KB" |
| SizeFormat.FormatSizeTopOfKilobytes | src/routes/animal_file.py:87-88 | 1048575 shows as "1024.0 KB" |
| SizeFormat.FormatSizeTieToEven | src/routes/animal_file.py:88 | 1280 (1.25 KB) shows as "1.2 KB" and 1792 (1.75 KB) as "1.8 KB": ties go to even |
| SizeFormat.FormatSizeMegabyteExamples | src/routes/animal_file.py:89-90 | 16777216 shows as "16.0 MB" and 1048576 as "1.0 MB" |
| AnimalLookup.ImagePath | src/routes/animal_file.py:36 | the path is the images prefix, the animal, and ".jpg" |
| AnimalLookup.GetAnimalImage | src/routes/animal_file.py:26-45 | a falsy body or missing key is "required" (400); a present string whose lower-case form is not cat, dog or elephant gets 400 with the "Invalid animal selection" message; success iff the lower-case form is one of them, returning that name and its image path; a non-string value is the only 500, with the `AttributeError` text |
| AnimalLookup.LowerAttributeError | src/routes/animal_file.py:44-45 | the 500 text for a non-string value; its use is stated by `GetAnimalImage` |
| AnimalLookup.EachAnimalSelectsItsImage | src/routes/animal_file.py:31-42 | each of cat, dog and elephant selects `/static/images/<animal>.jpg` |
| AnimalLookup.SelectionIgnoresCase | src/routes/animal_file.py:31 | a value and its lower-case form give the same reply |
| AnimalLookup.MixedCaseSelectsCat | src/routes/animal_file.py:31-42 | "CaT" selects `/static/images/cat.jpg` with animal "cat" |
| AnimalLookup.EmptyAnimalIsInvalid | src/routes/animal_file.py:28-33 | an empty string gets the "invalid selection" reply, not "required" |
| AnimalLookup.UnknownAnimalIsInvalid | src/routes/animal_file.py:32-33 | "giraffe" gets the "invalid selection" reply with status 400 |
| AnimalLookup.InvalidMessageListsChoices | src/routes/animal_file.py:33 | the "invalid selection" message names each valid animal |
| AnimalLookup.ImagePathRoundTrip | src/routes/animal_file.py:36 | the animal is recovered from its image path |
| Upload.FileType | src/routes/animal_file.py:78 | the type is "unknown" when the name has no dot, else the lower-cased text after the dot of any dot-free split |
| Upload.UploadFile | src/routes/animal_file.py:53-107 | the checks fire in order (no part, empty name, type, size) with their own 400 messages; success iff all pass; the reply carries the sanitised name, the payload length and its display, the type of the sanitised name and the declared MIME type, and the stored content is the full payload |
| Upload.RefusalsAreBadRequests | src/routes/animal_file.py:55-107 | every refusal of the checks has status 400, an acceptance 200 |
| Upload.NotAllowedMessage | src/routes/animal_file.py:104-107 | the type refusal; `NotAllowedMessageNamesEveryExtension` states that it names every allowed extension and `NotAllowedMessageOmits` that it names no word containing "ex", such as "exe" |
| Upload.TooLargeMessage | src/routes/animal_file.py:74 | the oversize refusal; `TooLargeMessageText` gives its text |
| Upload.Stream.ReadAll | src/routes/animal_file.py:67 | reading leaves the position at the end and returns everything after the old position |
| Upload.Stream.Seek | src/routes/animal_file.py:68 | moves the read position; `SavingWithoutRewindStoresNothing` shows why it is needed |
| Upload.TooLargeMessageText | src/routes/animal_file.py:71-75 | the oversize message reads "File too large. Maximum size is 16MB" |
| Upload.SizeLimitBoundary | src/routes/animal_file.py:71-75 | exactly 16,777,216 bytes is accepted; one more byte is refused with the 16MB message |
| Upload.TypeCheckedBeforeSize | src/routes/animal_file.py:64-107 | a disallowed name gets the type refusal whatever the payload size |
| Upload.NotAllowedMessageNamesEveryExtension | src/routes/animal_file.py:103-107 | in any iteration order, the type refusal names every allowed extension |
| Upload.NotAllowedMessageOmits | src/routes/animal_file.py:103-107 | the type refusal contains no word with "ex" in it: neither its prefix, its ", " separators nor any allowed extension can form that pair |
| Upload.NotAllowedMessageOmitsExe | src/routes/animal_file.py:103-107 | the refusal sent for "malware.exe" does not list "exe" |
| Upload.AcceptedSizeDisplay | src/routes/animal_file.py:84-90 | an accepted upload's display reads back as its correct tier and figure, and an MB figure is at most 16.0 |
| Upload.TypeOfUnchangedName | src/routes/animal_file.py:78 | when the sanitiser keeps the name, the type is an allowed extension |
| Upload.UnknownTypeReachable | src/routes/animal_file.py:66-78 | a sanitiser that drops a leading dot makes the accepted ".pdf" report type "unknown" |
| Upload.SavingWithoutRewindStoresNothing | src/routes/animal_file.py:67-68 | measuring the size consumes the stream; without the rewind nothing would be saved, with it the whole payload is |
| Upload.SmallReportAccepted | src/routes/animal_file.py:92-101 | a 500-byte "report.pdf" kept by the sanitiser yields name "report.pdf", size "500 bytes", 500 bytes, type "pdf" and the declared MIME type |

## Left out

- Flask plumbing (`request`, `jsonify`, the blueprint, routing): replies are the `Http.Response` datatype.
- The filesystem: creating the upload directory, joining the path and `file.save`. The model returns the `StoredFile` that would be written; silent overwrite is not modelled.
- `secure_filename`: a library routine, taken as the parameter `sanitize` with no assumed properties.
- `Text.Lower`: lower-cases ASCII letters only; Python's full Unicode case mapping is library behaviour.
- Non-object JSON bodies (lists, strings, numbers) for `/animal`: `'animal' in data` means something else for them. The body is either one that parses to JSON `null` or an object.
- A `/animal` request with no JSON body (wrong Content-Type, empty or malformed JSON): in recent Werkzeug versions `request.json` raises, and the catch-all turns it into a 500 carrying the exception text. That text and status depend on the library version, so such requests are not modelled; `Body` starts from a body that has parsed.
- The catch-all 500 replies: only the non-string `animal` value is modelled, with the text of its `AttributeError`. Faults in request parsing or in saving the file are not modelled.
- A `None` file name: the multipart parser gives every file part a string name, so `file` is truthy once the name is non-empty.
- `SizeFormat.FormatSize`: uses exact rational rounding. Python's float division is exact at least for sizes below 2^53 bytes, which every accepted upload is.
- The order of extensions in the type refusal: a set's iteration order. It is the parameter `listing`; the model proves that every allowed extension appears and that no word containing "ex" (such as "exe") does, not the exact order.
- Repeated identical uploads: the model keeps no state between requests, so a second identical upload gets the same reply; the overwrite of the earlier file is not modelled.
- The health check: a constant reply with no logic.
