# profile-upload: a Dafny model of the upload routes

This project models `Backend/routes/upload.js` of the profile-upload
back end. That file is an Express router with three routes over two pieces
of local state:

- the storage directory `uploads/`, which holds the uploaded images under
  generated names;
- the ledger `metadata.json`, a JSON array with one record per uploaded
  file (`original_name`, `file_path`, `upload_date`, `user_id`).

Every route is modelled as a total function. It takes the abstract disk
state and the success or failure of each I/O step, and it returns the
reply together with the new disk state:

- `Routes.GetFiles` models `GET /files`.
- `Routes.PostUpload` models `POST /upload`. It runs the multipart
  middleware (`Admission.Receive`), then the route handler
  (`Routes.UploadRoute`).
- `Routes.RemoveFile` models `DELETE /remove/:fileName`.

The modules follow the program's structure:

| module | what it models |
|---|---|
| `Text` | the string operations the routes rely on: ASCII `toLowerCase`, unanchored regular-expression search, case-insensitive suffix test, decimal rendering of integers |
| `Seqs` | `Array.prototype.filter` on sequences, with its characterisation |
| `PathName` | Node's POSIX `path.extname` |
| `Naming` | the disk storage engine's `filename` callback and the `uploads/` destination |
| `Admission` | the multer configuration: file filter, 5 MiB size limit, at most five files under the field `images`, and the disk storage engine's write |
| `Listing` | the listing filter `/\.(jpeg|jpg|png)$/i` |
| `Ledger` | building upload records, appending them, and deleting by original name |
| `Routes` | the three routes, with the ledger's read, parse and write stages |
| `Scenarios` | properties that span routes: upload then list, delete then list, uploading `cat.png`, uploading `doc.pdf`, deleting a name never uploaded |

Behaviour of the code as written that a reader of the routes may not
expect:

- Admission is looser than listing. The admission test is an unanchored
  substring test, so a file named `photo.pngx` declared as
  `image/jpegfoo` is stored. Its stored name then never appears in
  `GET /files` (`Scenarios.AdmittedButNeverListed`).
- A file named `.png` is rejected. `path.extname(".png")` is empty
  (`Admission.DotfileRejected`).
- A file the filter rejects does not reach the route's 400 branch. Multer
  hands the error to the framework's error handler, so the request ends as
  `Forwarded(UnsupportedFormat)` (`Scenarios.PdfUploadForwarded`). The
  route itself answers 400 only when the request is not multipart or
  carries no files.
- A ledger holding valid JSON that is not an array makes `push`/`filter`
  throw inside an I/O callback. Nothing catches that exception, so the
  process stops. The model reports this as the outcome `Crashed`; it does
  not claim the process survives.
- A missing `metadata.json` is never created. The first upload stores its
  files but answers 500 `Error reading metadata file`
  (`Scenarios.FirstUploadWithoutLedger`).
- A stored name that is already in the storage directory is overwritten,
  not added a second time: the directory never lists a name twice
  (`Routes.SaveAll`). A stored name equals another upload's only when both
  drawn numbers and the extension coincide (`Naming.StoredNameInjective`);
  when every stored name is new, the directory grows by exactly those
  names (`Routes.PostUploadAppendsFreshNames`).
- The media type the filter tests is the one the multipart parser reports,
  which lower-cases what the client declared. A part declared `IMAGE/PNG`
  is admitted (`Scenarios.UpperCaseMediaTypeAdmitted`), although the filter
  on its own rejects an upper-case type (`Admission.FilterKeepsMediaTypeCase`).
- Deletion matches ledger records by `original_name`. The listing shows
  the stored names, so deleting a listed file leaves its record in the
  ledger, unless the client's name for the file equals its stored name
  (`Scenarios.DeleteMatchesOriginalName`).

## Model

| member | source | states |
|---|---|---|
| Text.ContainsIffOccurs | Backend/routes/upload.js:22-24 | the unanchored regular-expression test succeeds exactly when the word occurs at some position of the string |
| Text.ContainsHasChar | Backend/routes/upload.js:22-24 | a string lacking any character of a word fails the unanchored test for it |
| Text.EndsWithIgnoreCaseMeaning | Backend/routes/upload.js:43 | for a lower-case pattern, the case-insensitive suffix test equals a plain suffix test on the lower-cased name |
| Text.Lower | Backend/routes/upload.js:24 | the result has the same length, with each ASCII letter lower-cased and every other character kept |
| Text.LastIndexOf | Backend/routes/upload.js:14 | the result is the position of the last occurrence of the character, and none exactly when the character does not occur |
| Text.Decimal | Backend/routes/upload.js:13 | the decimal rendering of a number is a non-empty run of digits with no leading zero |
| Text.DecimalRoundTrip | Backend/routes/upload.js:13 | reading back the decimal rendering gives the number |
| Text.DecimalInjective | Backend/routes/upload.js:13 | distinct numbers render differently |
| PathName.TrimTrailingSlashes | Backend/routes/upload.js:14 | the result is a prefix of the path that does not end in `/`, and only slashes were dropped |
| PathName.LastSegment | Backend/routes/upload.js:14 | the result ends the path, holds no `/`, and starts right after the last `/` when the path has one |
| PathName.LastSegmentAfterSlash | Backend/routes/upload.js:8-11 | a slash-free name joined to a directory ending in `/` has that name as its last segment |
| PathName.ExtName | Backend/routes/upload.js:14 | `path.extname` is empty or a dot followed by text free of dots and slashes, and it ends the path once trailing slashes are dropped |
| PathName.ExtNameOfPlainName | Backend/routes/upload.js:14 | for a plain name other than `..`, the extension is the text from the last dot when that dot is not the first character |
| PathName.ExtNameWithoutDot | Backend/routes/upload.js:14 | names with no dot after the first character (`cat`, `.png`) have an empty extension |
| PathName.ExtNameOfSuffixed | Backend/routes/upload.js:14 | a dotless, slashless non-empty stem followed by an extension has exactly that extension |
| Naming.UniqueSuffix | Backend/routes/upload.js:13 | `<millis>-<random>` is non-empty and holds no dot and no slash |
| Naming.StoredName | Backend/routes/upload.js:12-15 | the stored name is the unique suffix followed by the client name's extension, possibly empty; it holds no slash and does not start with a dot |
| Naming.StoredPath | Backend/routes/upload.js:8-11 | the recorded path is the `uploads/` destination followed by the stored name, and its base name is that stored name again |
| Naming.StoredNameKeepsExtension | Backend/routes/upload.js:14 | round trip: the stored name's extension is the client name's extension |
| Naming.StoredNameInjective | Backend/routes/upload.js:13-14 | two stored names coincide only when both drawn values and both extensions coincide |
| Admission.Store | Backend/routes/upload.js:8-15 | a kept part is reported with its client name, its stored name and the path under `uploads/`, whose base name is the stored name |
| Admission.ReportedType | Backend/routes/upload.js:23 | the media type the filter sees is the declared one lower-cased, letter by letter |
| Admission.ReceiveWithin | Backend/routes/upload.js:18-31 | for any filter and storage engine, the parts are accepted exactly when all pass and there are few enough; each accepted part yields its stored file, in order; a field or count rejection names a part under another field or a sixth part, and a filter, size or storage rejection names a part that fails that step |
| Admission.FirstOffenderDecides | Backend/routes/upload.js:18-31 | when every part before position `k` is kept, the part at `k` decides the rejection: another field or the sixth file gives `UnexpectedFile`, else a failed filter `UnsupportedFormat`, else too large `FileTooLarge`, else a failed write `StorageError` |
| Admission.Receive | Backend/routes/upload.js:18-31 | the request is accepted exactly when there are at most five parts, each in field `images`, passing the filter on the reported media type, at most 5·1024·1024 bytes and written without error; the stored files follow the parts in order; a field or count rejection names a part under another field or more than five parts |
| Admission.FileFilterMeaning | Backend/routes/upload.js:21-30 | the filter passes exactly when the media type and the lower-cased extension each contain `jpeg`, `jpg` or `png` somewhere |
| Admission.DotfileRejected | Backend/routes/upload.js:24 | a file named `.png` fails the filter whatever its media type |
| Admission.ExtensionTestIsUnanchored | Backend/routes/upload.js:22-24 | the extension `.pngx` passes the extension test |
| Admission.ExtensionTestFoldsCase | Backend/routes/upload.js:24 | the extension `.PNG` passes the extension test |
| Admission.MediaTypeTestIsUnanchored | Backend/routes/upload.js:22-23 | the media type `image/jpegfoo` passes the media-type test |
| Admission.FilterKeepsMediaTypeCase | Backend/routes/upload.js:23 | a media type with no lower-case letter, such as `IMAGE/PNG`, fails the filter, because the filter does not lower-case it |
| Seqs.Filter | Backend/routes/upload.js:111 | filtering keeps a subsequence whose elements all pass, exactly the passing elements, as many as pass |
| Seqs.FilterUnique | Backend/routes/upload.js:111 | any subsequence of passing elements as long as the count of passing elements is the filter's result |
| Seqs.FilterIdempotent | Backend/routes/upload.js:111 | filtering twice equals filtering once |
| Seqs.FilterAppend | Backend/routes/upload.js:111 | filtering a concatenation concatenates the filtered parts |
| Seqs.FilterNoDuplicates | Backend/routes/upload.js:111 | filtering a sequence without repeats gives a sequence without repeats |
| Listing.ListImages | Backend/routes/upload.js:43 | the listing is a subsequence of the entries holding exactly the image names, as many as there are, and repeats no name when the entries do not |
| Listing.ListImagesUnique | Backend/routes/upload.js:43 | the listing is the only order-preserving selection of all the image names |
| Listing.ListImagesIdempotent | Backend/routes/upload.js:43 | listing a listing changes nothing |
| Listing.IsImageNameMeaning | Backend/routes/upload.js:43 | an entry is listed exactly when its lower-cased name ends in `.jpeg`, `.jpg` or `.png` |
| Ledger.UserIdOrNull | Backend/routes/upload.js:58 | the record's user id is the supplied one when it is present and non-empty, and null otherwise |
| Ledger.RecordsFrom | Backend/routes/upload.js:54-59 | one record per file from the given position on, copying name and path, with that position's clock reading |
| Ledger.BuildRecords | Backend/routes/upload.js:54-59 | one record per file, in order, with its client name, its path, the i-th clock reading and the user id or null |
| Ledger.Append | Backend/routes/upload.js:75 | the old ledger is a prefix of the result and the new records are the rest |
| Ledger.RemoveByName | Backend/routes/upload.js:111 | the result keeps, in order, exactly the records whose original name differs from the deleted name |
| Ledger.RemoveByNameUnique | Backend/routes/upload.js:111 | the filtered ledger is the only order-preserving selection that keeps every record with another name |
| Ledger.RemoveByNameIdempotent | Backend/routes/upload.js:111 | removing a name twice equals removing it once |
| Ledger.RemoveByNameAppend | Backend/routes/upload.js:111 | removing a name from an extended ledger removes it from the old part and the new records separately |
| Ledger.RemoveAbsentName | Backend/routes/upload.js:111 | a name no record carries leaves the ledger unchanged |
| Routes.Load | Backend/routes/upload.js:62-73 | reading fails exactly on a missing document or a read fault; parsing fails exactly on non-JSON text; a readable array is returned as it is |
| Routes.GetFiles | Backend/routes/upload.js:34-46 | a failed scan answers 500 `Unable to scan files`; otherwise 200 with the image entries, in directory order and without repeats; the disk is unchanged |
| Routes.UploadRoute | Backend/routes/upload.js:49-85 | no files: 400, ledger untouched; success exactly when read, parse and write succeed, with the ledger becoming the old one followed by one record per file; a missing or unreadable ledger gives 500 `Error reading metadata file`, unparsable text 500 `Error parsing metadata file`, JSON that is not an array a crash, a failed write 500 `Error writing to metadata file`, each with the disk unchanged; the storage directory is never touched |
| Routes.PostUpload | Backend/routes/upload.js:49-85 | a request that is not multipart gets 400 and changes nothing; the ledger changes only on 200; the directory never gains a second entry with the same name |
| Routes.SaveAll | Backend/routes/upload.js:8-16 | writing the stored files keeps the old entries as a prefix, adds exactly the new names, and never creates a second entry with the same name |
| Routes.SaveAllFresh | Backend/routes/upload.js:8-16 | names that are new and distinct are appended in order |
| Routes.PostUploadAccepted | Backend/routes/upload.js:49 | an accepted request runs the route on the directory that already holds the stored files |
| Routes.PostUploadRejected | Backend/routes/upload.js:18-31 | a request with a part the middleware refuses is forwarded with the rejection before the route runs, and the model leaves the disk unchanged |
| Routes.PostUploadStoresFiles | Backend/routes/upload.js:8-16 | after an accepted upload the directory holds its old entries, in their places, and the parts' stored names, and nothing else, whatever happens to the ledger; a name is never listed twice |
| Routes.PostUploadAppendsFreshNames | Backend/routes/upload.js:8-16 | when the stored names are new and distinct, the directory grows by exactly those names, in order |
| Routes.PostUploadRecords | Backend/routes/upload.js:54-82 | a 200 answer carries one record per part, in order, with the client name and `uploads/<stored name>`, and the ledger gains exactly those records |
| Routes.Unlink | Backend/routes/upload.js:92 | the directory keeps every entry except the deleted name, in order, and gains no repeats |
| Routes.RemoveFile | Backend/routes/upload.js:88-122 | a missing entry or failed unlink gives 500 `Error deleting file` and changes nothing; otherwise the file is gone whatever the ledger does; on the unlinked disk a missing or unreadable ledger gives 500 `Error reading metadata file`, unparsable text 500 `Error parsing metadata file`, JSON that is not an array a crash, a failed write 500 `Error writing to metadata file`; when every step succeeds the answer is 200 `File deleted successfully` and the ledger loses exactly the records with that original name |
| Scenarios.SuffixMatchesExtension | Backend/routes/upload.js:43 | a name made of a dotless stem and an extension ends with an extension pattern exactly when the lower-cased extensions agree |
| Scenarios.StoredNameListedIff | Backend/routes/upload.js:43 | a stored name is listed exactly when the client name's lower-cased extension is `.jpeg`, `.jpg` or `.png` |
| Scenarios.AdmittedButNeverListed | Backend/routes/upload.js:22-24 | a file named `<stem>.pngx` passes the extension test but its stored name is never listed |
| Scenarios.UploadThenList | Backend/routes/upload.js:43 | after an accepted upload, the listing shows the stored name of every part with an exact image extension |
| Scenarios.DeleteThenList | Backend/routes/upload.js:88-122 | after a successful delete, the listing omits the name and no ledger record has it as original name |
| Scenarios.DeleteMatchesOriginalName | Backend/routes/upload.js:111 | after a successful delete, a ledger record is still there exactly when its original name differs from the deleted name |
| Scenarios.DeleteNeverUploaded | Backend/routes/upload.js:92-95 | deleting a name absent from the directory answers 500 `Error deleting file` and changes nothing |
| Scenarios.PngPartAdmissible | Backend/routes/upload.js:18-31 | a part `<stem>.png` declared `image/png` in field `images`, within the size limit and written without error, is admitted |
| Scenarios.UpperCaseMediaTypeAdmitted | Backend/routes/upload.js:18-31 | a part `<stem>.png` declared `IMAGE/PNG` is admitted, because the filter sees the lower-cased type, although the filter refuses `IMAGE/PNG` as declared |
| Scenarios.UploadOneFile | Backend/routes/upload.js:49-85 | uploading one admitted file with no user id to an existing ledger answers 200 with one record of that name and a null user id |
| Scenarios.FirstUploadWithoutLedger | Backend/routes/upload.js:62-65 | with no ledger, an accepted upload stores its files, keeping the old entries in place and adding exactly the stored names, but answers 500 `Error reading metadata file` and creates no ledger |
| Scenarios.PdfPartRejected | Backend/routes/upload.js:24-29 | a file named `<stem>.pdf` fails the filter whatever its media type |
| Scenarios.PdfUploadForwarded | Backend/routes/upload.js:29 | uploading `<stem>.pdf` is forwarded as an unsupported format and changes nothing |

## Left out

- `Backend/server.js` is not part of this model. It wires up body parsing, CORS, static serving of `uploads/` and the port, and holds no logic of its own.
- Real file-system I/O (`fs.readdir`, `fs.unlink`, `fs.readFile`, `fs.writeFile`) is not modelled. Each step's success or failure is an input.
- Admission.Receive: a file of exactly 5·1024·1024 bytes is admitted. The size limit is enforced by the multipart parser, whose behaviour at the exact boundary depends on its version; the model assumes the limit is inclusive.
- Multer's disk write is reduced to one flag per part. A part whose write fails rejects the request with `StorageError`, and the model leaves the directory unchanged. The model checks the size limit before the write, so a part that is both too large and unwritable is reported as too large; the real order depends on when the stream fails.
- Multipart parsing is not modelled. A file part arrives as its field, client name, declared media type, size, stamp and write outcome. The parser's lower-casing of the media type is modelled (`Admission.ReportedType`); its stripping of parameters such as `; charset=utf-8` is left out.
- Multer internals beyond what the configuration decides are left out: parts without a file name, field-count and part-count limits, and cleanup timing. Multer removes the files it already stored when it aborts a request; the model treats such a request as leaving the directory unchanged.
- Routes.PostUploadRejected: an aborted request leaves the directory exactly as it was, which simplifies the program in two ways. A write that fails after the file was opened (a full disk, say) may leave its partial file behind, because multer never lists that file for removal. And when a kept part overwrote an entry already on disk before a later part was refused, multer's cleanup deletes that entry, so the directory loses it.
- Admission.FirstOffenderDecides: the rejection is decided strictly in part order. In the program, write failures reach multer asynchronously while the field, count, filter and size checks run as the body is parsed, so a later part's synchronous rejection can be forwarded before an earlier part's `StorageError`.
- `Date.now()` and `Math.round(Math.random() * 1E9)` become the two numbers of a `Naming.Stamp`. The random value is not bounded to 0..10^9, and nothing is claimed about uniqueness beyond `Naming.StoredNameInjective`.
- `new Date().toISOString()` becomes the parameter `clock`, read once per record.
- JSON text is abstracted to three shapes: text that does not parse, JSON that is not an array, and an array of records. Pretty-printing with indent 2 and array elements that are not records (for example `null`, which makes the delete filter throw) are left out.
- Ledger.UserIdOrNull: the `user_id` form field is modelled as an optional string. A repeated field, which the body parser turns into an array, is left out.
- A failed `fs.writeFile` is modelled as leaving the ledger unchanged. The possible truncation of a partial write is left out.
- The HTTP response the framework's error handler builds for a forwarded rejection is left out. The route does not shape it, so the model stops at `Forwarded(rejection)`.
- The `Crashed` outcome records that the process stops. What a client observes afterwards is left out.
- Path traversal through `path.join(__dirname, '../uploads', fileName)` is left out. The model treats the parameter as an entry name of the storage directory, so deleting works only on names the directory holds.
- The read-modify-write race on `metadata.json` between concurrent requests is left out, because each request is modelled on its own.
- Case folding is ASCII only. JavaScript's `toLowerCase` and the `/i` flag also fold other letters, but none of them folds to `j`, `p`, `e`, `g` or `n`, so no test on image words changes.
- Numbers are rendered in plain decimal. JavaScript switches to exponent notation at 10^21, long after any clock reading.
- Directory enumeration order is not specified by the file system. The model keeps a sequence, appends new stored names at its end, and overwrites a name already present in place.
- The routes resolve `uploads/` and `metadata.json` against the process's working directory, but the directory for listing and deletion against `__dirname`. The model assumes both name the same places.
- Windows path rules for `path.extname` are left out; the POSIX variant is modelled.
