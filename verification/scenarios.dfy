/** Properties that span the routes: what a later listing shows after an
    upload or a deletion, and how the admission test and the listing test
    disagree. */
module Scenarios {
  import opened Wrappers
  import opened Text
  import opened Seqs
  import opened PathName
  import opened Naming
  import opened Admission
  import opened Listing
  import opened Ledger
  import opened Routes

  /** A suffix starting with a dot, compared without regard to case, can only
      match a name `u + e` (no dot in `u`, `e` an extension) at `e` itself. */
  lemma SuffixMatchesExtension(u: string, e: string, t: string)
    requires '.' !in u
    requires IsExtension(e)
    requires t != [] && t[0] == '.'
    ensures EndsWithIgnoreCase(u + e, t) <==> Lower(e) == Lower(t)
  {
    var s := u + e;
    if Lower(e) == Lower(t) {
      assert s[|s| - |t|..] == e;
    }
    if EndsWithIgnoreCase(s, t) {
      var k := |s| - |t|;
      assert LowerChar(s[k]) == Lower(s[k..])[0] == Lower(t)[0] == '.';
      assert s[k] == '.';
      assert forall j :: 0 <= j < |u| ==> s[j] == u[j] && u[j] != '.';
      assert e[k - |u|] == '.';
      assert forall j :: 0 < j < |e| ==> e[j] == e[1..][j - 1] && e[j] != '.';
      assert s[k..] == e;
    }
  }

  /** A stored file shows up in the listing exactly when the client's name
      has the extension `.jpeg`, `.jpg` or `.png`, in any case. */
  lemma StoredNameListedIff(s: Stamp, originalName: string)
    ensures IsImageName(StoredName(s, originalName))
        <==> Lower(ExtName(originalName)) in {".jpeg", ".jpg", ".png"}
  {
    var u, e := UniqueSuffix(s), ExtName(originalName);
    LowerFixed(".jpeg");
    LowerFixed(".jpg");
    LowerFixed(".png");
    SuffixMatchesExtension(u, e, ".jpeg");
    SuffixMatchesExtension(u, e, ".jpg");
    SuffixMatchesExtension(u, e, ".png");
  }

  /** The admission test is looser than the listing test: a file whose
      extension merely contains `png` is admitted, yet its stored name never
      appears in the listing. */
  lemma AdmittedButNeverListed(s: Stamp, stem: string)
    requires stem != [] && '.' !in stem && '/' !in stem
    ensures NamesImageType(Lower(ExtName(stem + ".pngx")))
    ensures !IsImageName(StoredName(s, stem + ".pngx"))
  {
    ExtNameOfSuffixed(stem, ".pngx");
    ExtensionTestIsUnanchored();
    StoredNameListedIff(s, stem + ".pngx");
    assert |Lower(".pngx")| == 5;
  }

  /** Round trip: after an upload the middleware accepted, a listing shows
      the stored name of every part whose extension is `.jpeg`, `.jpg` or
      `.png` (in any case), whatever happened to the ledger. */
  lemma UploadThenList(disk: Disk, parts: seq<Part>, userId: Option<string>, clock: nat -> string, faults: LedgerFaults)
    requires Acceptable(parts)
    ensures var listed := GetFiles(PostUpload(disk, Some(parts), userId, clock, faults).disk, false).outcome.body.files;
      forall i :: 0 <= i < |parts| && Lower(ExtName(parts[i].originalName)) in {".jpeg", ".jpg", ".png"} ==>
        StoredName(parts[i].stamp, parts[i].originalName) in listed
  {
    forall i | 0 <= i < |parts| && Lower(ExtName(parts[i].originalName)) in {".jpeg", ".jpg", ".png"} {
      UploadThenListOne(disk, parts, userId, clock, faults, i);
    }
  }

  /** One part of `UploadThenList`. */
  lemma UploadThenListOne(disk: Disk, parts: seq<Part>, userId: Option<string>, clock: nat -> string, faults: LedgerFaults, i: nat)
    requires Acceptable(parts)
    ensures var after := PostUpload(disk, Some(parts), userId, clock, faults).disk;
      i < |parts| && Lower(ExtName(parts[i].originalName)) in {".jpeg", ".jpg", ".png"} ==>
      StoredName(parts[i].stamp, parts[i].originalName) in GetFiles(after, false).outcome.body.files
  {
    if i < |parts| {
      var after := PostUpload(disk, Some(parts), userId, clock, faults).disk;
      PostUploadStoresFiles(disk, parts, userId, clock, faults);
      assert StoredNames(parts)[i] in StoredNames(parts);
      StoredNameListedIff(parts[i].stamp, parts[i].originalName);
    }
  }

  /** After a successful deletion, a listing no longer shows the name and
      the ledger holds no record with it as original name. */
  lemma DeleteThenList(disk: Disk, fileName: string, faults: DeleteFaults)
    requires RemoveFile(disk, fileName, faults).outcome == Reply(200, MessageBody(DeletedMessage))
    ensures var after := RemoveFile(disk, fileName, faults).disk;
      && fileName !in GetFiles(after, false).outcome.body.files
      && after.ledger.Present? && after.ledger.contents.Records?
      && forall rec :: rec in after.ledger.contents.records ==> rec.originalName != fileName
  {
  }

  /** A successful deletion keeps a ledger record exactly when its original
      name differs from the deleted name. Records are matched on the client's
      original name, while the listing shows generated names; so deleting a
      listed file keeps the record of its upload, unless the client had
      named the file exactly as it was stored. */
  lemma DeleteMatchesOriginalName(disk: Disk, fileName: string, faults: DeleteFaults, rec: UploadRecord)
    requires disk.ledger.Present? && disk.ledger.contents.Records?
    requires rec in disk.ledger.contents.records
    requires RemoveFile(disk, fileName, faults).outcome.Reply?
    requires RemoveFile(disk, fileName, faults).outcome.status == 200
    ensures rec in RemoveFile(disk, fileName, faults).disk.ledger.contents.records <==> rec.originalName != fileName
  {
  }

  /** Deleting a name that is not in the storage directory fails with
      `Error deleting file` and changes nothing. */
  lemma DeleteNeverUploaded(disk: Disk, fileName: string, faults: DeleteFaults)
    requires fileName !in disk.uploads
    ensures RemoveFile(disk, fileName, faults) == Exchange(Reply(500, ErrorBody(UnlinkError)), disk)
  {
  }

  /** A part named `<stem>.png`, declared `image/png`, in the `images`
      field, within the size limit and written without error, passes the
      middleware. */
  lemma PngPartAdmissible(p: Part, stem: string)
    requires stem != [] && '.' !in stem && '/' !in stem
    requires p.fieldName == FieldName && p.mimetype == "image/png" && p.originalName == stem + ".png"
    requires p.size <= MaxFileSize && !p.writeFails
    ensures Admissible(p)
  {
    ExtNameOfSuffixed(stem, ".png");
    PngExtensionNamesImageType();
    PngReported(p);
  }

  /** A client may declare the media type in upper case: the parser
      lower-cases `IMAGE/PNG` to `image/png` before the filter sees it, so
      the part passes the middleware, although the filter would refuse the
      type as declared. */
  lemma UpperCaseMediaTypeAdmitted(p: Part, stem: string)
    requires stem != [] && '.' !in stem && '/' !in stem
    requires p.fieldName == FieldName && p.mimetype == "IMAGE/PNG" && p.originalName == stem + ".png"
    requires p.size <= MaxFileSize && !p.writeFails
    ensures Admissible(p)
    ensures !FileFilter(p.mimetype, p.originalName)
  {
    ExtNameOfSuffixed(stem, ".png");
    PngExtensionNamesImageType();
    PngReported(p);
    UpperPngRefused(p);
  }

  /** `IMAGE/PNG` as declared has no lower-case letter. */
  lemma UpperPngRefused(p: Part)
    requires p.mimetype == "IMAGE/PNG"
    ensures !FileFilter(p.mimetype, p.originalName)
  {
    var m := p.mimetype;
    assert forall i :: 0 <= i < |m| ==> m[i] in "IMAGE/PNG";
    FilterKeepsMediaTypeCase(m, p.originalName);
  }

  /** `image/png` and `IMAGE/PNG`, lower-cased, name an image type. */
  lemma PngReported(p: Part)
    requires p.mimetype == "image/png" || p.mimetype == "IMAGE/PNG"
    ensures NamesImageType(ReportedType(p))
  {
    LowerOccursAt(p.mimetype, "png", 6);
  }

  /** `.png`, lower-cased, contains `png`. */
  lemma PngExtensionNamesImageType()
    ensures NamesImageType(Lower(".png"))
  {
    LowerFixed(".png");
    ContainsAt(".png", "png", 1);
  }

  /** A string whose letters from `k` on lower-case to `p` contains `p`
      once lower-cased. */
  lemma LowerOccursAt(m: string, p: string, k: nat)
    requires k + |p| <= |m|
    requires forall j :: 0 <= j < |p| ==> LowerChar(m[k + j]) == p[j]
    ensures Contains(Lower(m), p)
  {
    var l := Lower(m);
    assert l[k..k + |p|] == p;
    ContainsAt(l, p, k);
  }

  /** Uploading one admissible file with no `user_id` to an existing ledger,
      with every I/O step succeeding, answers 200 with a single record that
      names the client's file and has a null user id; the ledger gains
      exactly that record. */
  lemma UploadOneFile(disk: Disk, p: Part, clock: nat -> string)
    requires disk.ledger.Present? && disk.ledger.contents.Records?
    ensures var r := PostUpload(disk, Some([p]), None, clock, LedgerFaults(false, false));
      Admissible(p) ==>
      && r.outcome.Reply? && r.outcome.status == 200
      && r.outcome.body.UploadedBody? && |r.outcome.body.data| == 1
      && r.outcome.body.data[0].originalName == p.originalName
      && r.outcome.body.data[0].userId.None?
      && r.disk.ledger == Present(Records(disk.ledger.contents.records + r.outcome.body.data))
  {
    var parts := [p];
    if Admissible(p) {
      assert forall i :: 0 <= i < |parts| ==> Admissible(parts[i]);
      PostUploadAccepted(disk, parts, None, clock, LedgerFaults(false, false));
      PostUploadRecords(disk, parts, None, clock, LedgerFaults(false, false));
    }
  }

  /** The first upload ever, before any ledger exists, stores the files but
      answers 500 `Error reading metadata file`: the route does not create a
      missing ledger. */
  lemma FirstUploadWithoutLedger(disk: Disk, parts: seq<Part>, userId: Option<string>, clock: nat -> string, faults: LedgerFaults)
    requires disk.ledger.Missing?
    requires parts != [] && Acceptable(parts)
    ensures var r := PostUpload(disk, Some(parts), userId, clock, faults);
      && r.outcome == Reply(500, ErrorBody(ReadError))
      && r.disk.ledger == disk.ledger
      && disk.uploads <= r.disk.uploads
      && forall n :: n in r.disk.uploads <==> n in disk.uploads || n in StoredNames(parts)
  {
    PostUploadAccepted(disk, parts, userId, clock, faults);
    PostUploadStoresFiles(disk, parts, userId, clock, faults);
  }

  /** `.pdf` names none of the image types. */
  lemma PdfNotImageType()
    ensures !NamesImageType(Lower(".pdf"))
  {
    var l := Lower(".pdf");
    assert l == ".pdf";
    ContainsHasChar(l, "jpeg", 0);
    ContainsHasChar(l, "jpg", 0);
    ContainsHasChar(l, "png", 2);
  }

  /** A file named `<stem>.pdf` fails the filter, whatever media type it
      declares. */
  lemma PdfPartRejected(p: Part, stem: string)
    requires stem != [] && '.' !in stem && '/' !in stem
    requires p.originalName == stem + ".pdf"
    ensures !FileFilter(ReportedType(p), p.originalName)
  {
    ExtNameOfSuffixed(stem, ".pdf");
    PdfNotImageType();
  }

  /** So a request carrying it is handed to the framework as an unsupported
      format: nothing is stored and the route never answers its own 400. */
  lemma PdfUploadForwarded(disk: Disk, p: Part, stem: string, userId: Option<string>, clock: nat -> string, faults: LedgerFaults)
    requires stem != [] && '.' !in stem && '/' !in stem
    requires p.fieldName == FieldName && p.originalName == stem + ".pdf"
    ensures PostUpload(disk, Some([p]), userId, clock, faults) == Exchange(Forwarded(UnsupportedFormat), disk)
  {
    PdfPartRejected(p, stem);
    assert !Admissible([p][0]);
    PostUploadRejected(disk, [p], userId, clock, faults);
  }
}
