/** The three routes of Backend/routes/upload.js as total functions from the
    disk state and the outcome of each I/O step to the response and the new
    disk state. */
module Routes {
  import opened Wrappers
  import opened Seqs
  import opened Naming
  import opened Admission
  import opened Listing
  import opened Ledger

  /** What `metadata.json` holds: text that is not JSON, JSON that is not an
      array, or an array of records. */
  datatype LedgerContents = Unparsable | NotAnArray | Records(records: seq<UploadRecord>)

  /** The ledger document, which may not exist. */
  datatype LedgerFile = Missing | Present(contents: LedgerContents)

  /** The storage directory's entries, in enumeration order, and the
      ledger document. */
  datatype Disk = Disk(uploads: seq<string>, ledger: LedgerFile)

  /** JSON response bodies. */
  datatype Body =
    | ErrorBody(error: string)
    | FilesBody(files: seq<string>)
    | UploadedBody(message: string, data: seq<UploadRecord>)
    | MessageBody(message: string)

  /** How a request ends: a response from the route; the middleware's
      rejection handed to the framework's error handler, which the route
      does not shape; or an exception thrown inside an I/O callback, which
      nothing catches, so no response is sent and the process stops. */
  datatype Outcome = Reply(status: nat, body: Body) | Forwarded(rejection: Rejection) | Crashed

  datatype Exchange = Exchange(outcome: Outcome, disk: Disk)

  const ScanError: string := "Unable to scan files"
  const NoFilesError: string := "No files uploaded or invalid file format"
  const ReadError: string := "Error reading metadata file"
  const ParseError: string := "Error parsing metadata file"
  const WriteError: string := "Error writing to metadata file"
  const UnlinkError: string := "Error deleting file"
  const UploadedMessage: string := "Files uploaded successfully"
  const DeletedMessage: string := "File deleted successfully"

  /** Whether each ledger I/O step fails for a reason outside the model
      (permissions, a full disk, ...). */
  datatype LedgerFaults = LedgerFaults(readFails: bool, writeFails: bool)

  /** The outcome of reading and parsing the ledger. */
  datatype Loaded = ReadFailed | ParseFailed | NotArray | Loaded(records: seq<UploadRecord>)

  /** `fs.readFile` then `JSON.parse`: reading fails when the document is
      missing or the read faults, parsing fails on text that is not JSON. */
  function Load(file: LedgerFile, readFails: bool): (r: Loaded)
    ensures r.Loaded? ==> !readFails && file == Present(Records(r.records))
    ensures !readFails && file.Present? && file.contents.Records? ==> r == Loaded(file.contents.records)
    ensures r == ReadFailed <==> readFails || file.Missing?
    ensures r == ParseFailed <==> !readFails && file == Present(Unparsable)
  {
    if readFails || file.Missing? then ReadFailed
    else match file.contents
      case Unparsable => ParseFailed
      case NotAnArray => NotArray
      case Records(rs) => Loaded(rs)
  }

  /** The 500 reply for a failed ledger step. */
  function LedgerFailure(l: Loaded): (r: Outcome)
    requires l.ReadFailed? || l.ParseFailed?
    ensures r.Reply? && r.status == 500 && r.body.ErrorBody?
  {
    Reply(500, ErrorBody(if l.ReadFailed? then ReadError else ParseError))
  }

  /** `GET /files`. */
  function GetFiles(disk: Disk, readdirFails: bool): (r: Exchange)
    ensures r.disk == disk
    ensures readdirFails ==> r.outcome == Reply(500, ErrorBody(ScanError))
    ensures !readdirFails ==> r.outcome.Reply? && r.outcome.status == 200 && r.outcome.body.FilesBody?
    ensures !readdirFails ==> forall name :: name in r.outcome.body.files <==> name in disk.uploads && IsImageName(name)
    ensures !readdirFails ==> IsSubsequence(r.outcome.body.files, disk.uploads)
    ensures !readdirFails && NoDuplicates(disk.uploads) ==> NoDuplicates(r.outcome.body.files)
  {
    if readdirFails then Exchange(Reply(500, ErrorBody(ScanError)), disk)
    else Exchange(Reply(200, FilesBody(ListImages(disk.uploads))), disk)
  }

  /** The directory after the storage engine writes files under `names`, in
      order: a name already present is overwritten in place, a new one
      joins at the end. */
  function SaveAll(uploads: seq<string>, names: seq<string>): (r: seq<string>)
    ensures |uploads| <= |r| && r[..|uploads|] == uploads
    ensures forall n :: n in r <==> n in uploads || n in names
    ensures NoDuplicates(uploads) ==> NoDuplicates(r)
    decreases |names|
  {
    if names == [] then uploads
    else
      var next := if names[0] in uploads then uploads else uploads + [names[0]];
      assert next[..|uploads|] == uploads;
      assert NoDuplicates(uploads) ==> NoDuplicates(next) by {
        if NoDuplicates(uploads) && names[0] !in uploads {
          assert forall i :: 0 <= i < |uploads| ==> next[i] == uploads[i] != names[0];
        }
      }
      var r := SaveAll(next, names[1..]);
      assert forall n :: n in names <==> n == names[0] || n in names[1..];
      assert r[..|uploads|] == r[..|next|][..|uploads|];
      r
  }

  /** Names that are new and distinct are all appended, in order. */
  lemma {:induction false} SaveAllFresh(uploads: seq<string>, names: seq<string>)
    requires forall i :: 0 <= i < |names| ==> names[i] !in uploads
    requires NoDuplicates(names)
    ensures SaveAll(uploads, names) == uploads + names
    decreases |names|
  {
    if names == [] {
      assert uploads + names == uploads;
    } else {
      var next := uploads + [names[0]];
      SaveAllStep(uploads, names);
      FreshTail(uploads, names);
      SaveAllFresh(next, names[1..]);
    }
  }

  /** A name not yet in the directory is appended before the rest are
      saved. */
  lemma SaveAllStep(uploads: seq<string>, names: seq<string>)
    requires names != [] && names[0] !in uploads
    ensures SaveAll(uploads, names) == SaveAll(uploads + [names[0]], names[1..])
  {
  }

  /** Once the first of fresh, distinct names is appended, the rest are
      still fresh and distinct. */
  lemma FreshTail(uploads: seq<string>, names: seq<string>)
    requires names != []
    requires forall i :: 0 <= i < |names| ==> names[i] !in uploads
    requires NoDuplicates(names)
    ensures (uploads + [names[0]]) + names[1..] == uploads + names
    ensures forall i :: 0 <= i < |names[1..]| ==> names[1..][i] !in uploads + [names[0]]
    ensures NoDuplicates(names[1..])
  {
    assert names == [names[0]] + names[1..];
    var rest := names[1..];
    forall i | 0 <= i < |rest| ensures rest[i] !in uploads + [names[0]] {
      assert rest[i] == names[i + 1] != names[0];
    }
    forall i, j | 0 <= i < j < |rest| ensures rest[i] != rest[j] {
      assert rest[i] == names[i + 1] && rest[j] == names[j + 1];
    }
  }

  /** Names of the stored files, in order. */
  function Filenames(files: seq<UploadedFile>): (r: seq<string>)
    ensures |r| == |files|
    ensures forall i :: 0 <= i < |files| ==> r[i] == files[i].filename
  {
    if files == [] then [] else [files[0].filename] + Filenames(files[1..])
  }

  /** The route handler of `POST /upload`, given `req.files`: `None` when
      the request was not multipart, otherwise the files the middleware
      stored. `userId` is the `user_id` form field; `clock(i)` is the time
      read for the i-th record. */
  function UploadRoute(disk: Disk, files: Option<seq<UploadedFile>>, userId: Option<string>, clock: nat -> string, faults: LedgerFaults): (r: Exchange)
    // the route never touches the storage directory
    ensures r.disk.uploads == disk.uploads
    // no files at all: 400, the ledger is neither read nor written
    ensures files.None? || files == Some([]) ==> r == Exchange(Reply(400, ErrorBody(NoFilesError)), disk)
    // the ledger changes only when the final write succeeds
    ensures r.disk.ledger != disk.ledger ==> r.outcome.Reply? && r.outcome.status == 200
    // success: old ledger followed by one record per file, in order
    ensures r.outcome.Reply? && r.outcome.status == 200 ==>
      && files.Some? && |files.value| > 0
      && r.outcome.body.UploadedBody? && r.outcome.body.message == UploadedMessage
      && disk.ledger.Present? && disk.ledger.contents.Records?
      && r.disk.ledger == Present(Records(disk.ledger.contents.records + r.outcome.body.data))
      && |r.outcome.body.data| == |files.value|
      && (forall i :: 0 <= i < |files.value| ==>
            && r.outcome.body.data[i].originalName == files.value[i].originalName
            && r.outcome.body.data[i].filePath == files.value[i].path
            && r.outcome.body.data[i].uploadDate == clock(i)
            && r.outcome.body.data[i].userId == UserIdOrNull(userId))
    // and it happens exactly when every step succeeds
    ensures (&& files.Some? && |files.value| > 0 && !faults.readFails && !faults.writeFails
             && disk.ledger.Present? && disk.ledger.contents.Records?)
            ==> r.outcome.Reply? && r.outcome.status == 200
    // a missing or unreadable ledger: 500, nothing changed
    ensures files.Some? && |files.value| > 0 && (faults.readFails || disk.ledger.Missing?) ==>
      r == Exchange(Reply(500, ErrorBody(ReadError)), disk)
    // a ledger that is not JSON: 500, nothing changed
    ensures files.Some? && |files.value| > 0 && !faults.readFails && disk.ledger == Present(Unparsable) ==>
      r == Exchange(Reply(500, ErrorBody(ParseError)), disk)
    // JSON that is not an array: `push` throws, no reply, nothing changed
    ensures files.Some? && |files.value| > 0 && !faults.readFails && disk.ledger == Present(NotAnArray) ==>
      r == Exchange(Crashed, disk)
    // a failed write: 500, the ledger keeps its old contents
    ensures (&& files.Some? && |files.value| > 0 && !faults.readFails && faults.writeFails
             && disk.ledger.Present? && disk.ledger.contents.Records?)
            ==> r == Exchange(Reply(500, ErrorBody(WriteError)), disk)
    // failing ledger steps: 500 with the stage's message
    ensures r.outcome.Reply? && r.outcome.status == 500 ==>
      r.outcome.body.ErrorBody? && r.outcome.body.error in {ReadError, ParseError, WriteError}
  {
    if files.None? || |files.value| == 0 then Exchange(Reply(400, ErrorBody(NoFilesError)), disk)
    else
      var records := BuildRecords(files.value, userId, clock);
      var loaded := Load(disk.ledger, faults.readFails);
      if loaded.ReadFailed? || loaded.ParseFailed? then Exchange(LedgerFailure(loaded), disk)
      else if loaded.NotArray? then Exchange(Crashed, disk)
      else if faults.writeFails then Exchange(Reply(500, ErrorBody(WriteError)), disk)
      else
        Exchange(Reply(200, UploadedBody(UploadedMessage, records)),
                 disk.(ledger := Present(Records(Append(loaded.records, records)))))
  }

  /** `POST /upload` as a whole: the middleware, then the route. `parts` is
      `None` when the request is not multipart. The files the middleware
      stores stay on disk whatever happens to the ledger. */
  function PostUpload(disk: Disk, parts: Option<seq<Part>>, userId: Option<string>, clock: nat -> string, faults: LedgerFaults): (r: Exchange)
    // the ledger changes only when the final write succeeds
    ensures r.disk.ledger != disk.ledger ==> r.outcome.Reply? && r.outcome.status == 200
    // a request that is not multipart changes nothing
    ensures parts.None? ==> r == Exchange(Reply(400, ErrorBody(NoFilesError)), disk)
    // the directory never gains a second entry with the same name
    ensures NoDuplicates(disk.uploads) ==> NoDuplicates(r.disk.uploads)
  {
    if parts.None? then UploadRoute(disk, None, userId, clock, faults)
    else
      match Receive(parts.value)
      case Rejected(e) => Exchange(Forwarded(e), disk)
      case Accepted(files) =>
        var stored := disk.(uploads := SaveAll(disk.uploads, Filenames(files)));
        UploadRoute(stored, Some(files), userId, clock, faults)
  }

  /** When the middleware accepts the parts, the route runs on the disk that
      already holds the stored files. */
  lemma PostUploadAccepted(disk: Disk, parts: seq<Part>, userId: Option<string>, clock: nat -> string, faults: LedgerFaults)
    requires Acceptable(parts)
    ensures var files := Receive(parts).files;
      PostUpload(disk, Some(parts), userId, clock, faults)
        == UploadRoute(disk.(uploads := SaveAll(disk.uploads, Filenames(files))), Some(files), userId, clock, faults)
  {
  }

  /** A part the middleware rejects aborts the request before the ledger
      is read: the rejection goes to the framework, and the model leaves the
      storage directory as it was. */
  lemma PostUploadRejected(disk: Disk, parts: seq<Part>, userId: Option<string>, clock: nat -> string, faults: LedgerFaults)
    requires !Acceptable(parts)
    ensures PostUpload(disk, Some(parts), userId, clock, faults) == Exchange(Forwarded(Receive(parts).reason), disk)
  {
  }

  /** The stored names of the parts, in order. */
  function StoredNames(parts: seq<Part>): (r: seq<string>)
    ensures |r| == |parts|
    ensures forall i :: 0 <= i < |parts| ==> r[i] == StoredName(parts[i].stamp, parts[i].originalName)
  {
    if parts == [] then [] else [StoredName(parts[0].stamp, parts[0].originalName)] + StoredNames(parts[1..])
  }

  /** When the middleware accepts the parts, the storage directory ends up
      holding exactly its old entries and the parts' stored names, whatever
      happens to the ledger afterwards; the old entries keep their places and
      a name is never listed twice. */
  lemma PostUploadStoresFiles(disk: Disk, parts: seq<Part>, userId: Option<string>, clock: nat -> string, faults: LedgerFaults)
    requires Acceptable(parts)
    ensures var uploads := PostUpload(disk, Some(parts), userId, clock, faults).disk.uploads;
      && |disk.uploads| <= |uploads| && uploads[..|disk.uploads|] == disk.uploads
      && (forall n :: n in uploads <==> n in disk.uploads || n in StoredNames(parts))
      && (NoDuplicates(disk.uploads) ==> NoDuplicates(uploads))
  {
    PostUploadAccepted(disk, parts, userId, clock, faults);
    AcceptedFilenames(parts);
  }

  /** When every stored name is new and they are distinct, the directory
      grows by exactly the stored names, appended in order. */
  lemma PostUploadAppendsFreshNames(disk: Disk, parts: seq<Part>, userId: Option<string>, clock: nat -> string, faults: LedgerFaults)
    requires Acceptable(parts)
    requires forall i :: 0 <= i < |parts| ==> StoredNames(parts)[i] !in disk.uploads
    requires NoDuplicates(StoredNames(parts))
    ensures PostUpload(disk, Some(parts), userId, clock, faults).disk.uploads == disk.uploads + StoredNames(parts)
  {
    PostUploadAccepted(disk, parts, userId, clock, faults);
    AcceptedFilenames(parts);
    SaveAllFresh(disk.uploads, StoredNames(parts));
  }

  /** The accepted files carry the parts' stored names, in order. */
  lemma AcceptedFilenames(parts: seq<Part>)
    requires Acceptable(parts)
    ensures Filenames(Receive(parts).files) == StoredNames(parts)
  {
  }

  /** A successful upload answers with one record per part, in order, each
      naming the client's file and the path it was stored under. */
  lemma PostUploadRecords(disk: Disk, parts: seq<Part>, userId: Option<string>, clock: nat -> string, faults: LedgerFaults)
    ensures var r := PostUpload(disk, Some(parts), userId, clock, faults);
      r.outcome.Reply? && r.outcome.status == 200 ==>
      && r.outcome.body.UploadedBody?
      && |r.outcome.body.data| == |parts| > 0
      && r.disk.ledger == Present(Records(disk.ledger.contents.records + r.outcome.body.data))
      && forall i :: 0 <= i < |parts| ==>
           && r.outcome.body.data[i].originalName == parts[i].originalName
           && r.outcome.body.data[i].filePath == Destination + StoredName(parts[i].stamp, parts[i].originalName)
           && r.outcome.body.data[i].userId == UserIdOrNull(userId)
  {
  }

  /** Whether each step of a deletion fails for a reason outside the model. */
  datatype DeleteFaults = DeleteFaults(unlinkFails: bool, ledger: LedgerFaults)

  /** The directory without the entry `name`. */
  function Unlink(uploads: seq<string>, name: string): (r: seq<string>)
    ensures name !in r
    ensures forall n :: n in r <==> n in uploads && n != name
    ensures IsSubsequence(r, uploads)
    ensures NoDuplicates(uploads) ==> NoDuplicates(r)
  {
    FilterNoDuplicates(n => n != name, uploads);
    Filter(n => n != name, uploads)
  }

  /** `DELETE /remove/:fileName`. The unlink fails when no entry has that
      name or the file system refuses; once it succeeded the file stays
      deleted whatever happens to the ledger. */
  function RemoveFile(disk: Disk, fileName: string, faults: DeleteFaults): (r: Exchange)
    // unlink failure: 500, nothing touched
    ensures faults.unlinkFails || fileName !in disk.uploads ==> r == Exchange(Reply(500, ErrorBody(UnlinkError)), disk)
    // otherwise the entry is gone, whatever the ledger steps do
    ensures !faults.unlinkFails && fileName in disk.uploads ==> r.disk.uploads == Unlink(disk.uploads, fileName)
    ensures NoDuplicates(disk.uploads) ==> NoDuplicates(r.disk.uploads)
    // the ledger changes only when the final write succeeds
    ensures r.disk.ledger != disk.ledger ==> r.outcome == Reply(200, MessageBody(DeletedMessage))
    // success: every record with that original name is gone, the rest kept in order
    ensures r.outcome.Reply? && r.outcome.status == 200 ==>
      && r.outcome.body == MessageBody(DeletedMessage)
      && fileName !in r.disk.uploads
      && disk.ledger.Present? && disk.ledger.contents.Records?
      && r.disk.ledger == Present(Records(RemoveByName(disk.ledger.contents.records, fileName)))
    // the file went, but the ledger is missing or unreadable: 500, ledger untouched
    ensures !faults.unlinkFails && fileName in disk.uploads && (faults.ledger.readFails || disk.ledger.Missing?) ==>
      r == Exchange(Reply(500, ErrorBody(ReadError)), disk.(uploads := Unlink(disk.uploads, fileName)))
    // the file went, but the ledger is not JSON: 500, ledger untouched
    ensures (&& !faults.unlinkFails && fileName in disk.uploads && !faults.ledger.readFails
             && disk.ledger == Present(Unparsable))
            ==> r == Exchange(Reply(500, ErrorBody(ParseError)), disk.(uploads := Unlink(disk.uploads, fileName)))
    // the file went, but the ledger is JSON that is not an array: `filter` throws
    ensures (&& !faults.unlinkFails && fileName in disk.uploads && !faults.ledger.readFails
             && disk.ledger == Present(NotAnArray))
            ==> r == Exchange(Crashed, disk.(uploads := Unlink(disk.uploads, fileName)))
    // the file went, but the write failed: 500, ledger untouched
    ensures (&& !faults.unlinkFails && fileName in disk.uploads && !faults.ledger.readFails && faults.ledger.writeFails
             && disk.ledger.Present? && disk.ledger.contents.Records?)
            ==> r == Exchange(Reply(500, ErrorBody(WriteError)), disk.(uploads := Unlink(disk.uploads, fileName)))
    // every step succeeds: 200
    ensures (&& !faults.unlinkFails && fileName in disk.uploads && !faults.ledger.readFails && !faults.ledger.writeFails
             && disk.ledger.Present? && disk.ledger.contents.Records?)
            ==> r.outcome == Reply(200, MessageBody(DeletedMessage))
    ensures r.outcome.Reply? && r.outcome.status == 500 ==>
      r.outcome.body.ErrorBody? && r.outcome.body.error in {UnlinkError, ReadError, ParseError, WriteError}
  {
    if faults.unlinkFails || fileName !in disk.uploads then Exchange(Reply(500, ErrorBody(UnlinkError)), disk)
    else
      var unlinked := disk.(uploads := Unlink(disk.uploads, fileName));
      var loaded := Load(disk.ledger, faults.ledger.readFails);
      if loaded.ReadFailed? || loaded.ParseFailed? then Exchange(LedgerFailure(loaded), unlinked)
      else if loaded.NotArray? then Exchange(Crashed, unlinked)
      else if faults.ledger.writeFails then Exchange(Reply(500, ErrorBody(WriteError)), unlinked)
      else
        Exchange(Reply(200, MessageBody(DeletedMessage)),
                 unlinked.(ledger := Present(Records(RemoveByName(loaded.records, fileName)))))
  }
}
