/** What the multipart middleware, as configured in Backend/routes/upload.js,
    lets through to the upload route: at most five files under the field
    `images`, each passing the file filter and no larger than 5 MiB. */
module Admission {
  import opened Text
  import opened PathName
  import opened Naming

  /** Per-file size limit in bytes (5 MiB). The model lets a file of
      exactly this size through. */
  const MaxFileSize: nat := 5 * 1024 * 1024

  /** Most files accepted under the upload field. */
  const MaxFiles: nat := 5

  /** The only multipart field that may carry files. */
  const FieldName: string := "images"

  /** The unanchored, case-sensitive test `/jpeg|jpg|png/`: one of the three
      words occurs anywhere in `s`. */
  predicate NamesImageType(s: string) {
    Contains(s, "jpeg") || Contains(s, "jpg") || Contains(s, "png")
  }

  /** The file filter: the declared media type and the lower-cased extension
      of the client's file name must both pass the unanchored test. */
  predicate FileFilter(mimetype: string, originalName: string) {
    NamesImageType(mimetype) && NamesImageType(Lower(ExtName(originalName)))
  }

  /** One file part of the multipart request body: its field, the client's
      file name, the media type (`type/subtype`) the client declares for it,
      its size, the stamp drawn when the storage engine names it, and
      whether writing it to disk fails for a reason outside the model. */
  datatype Part = Part(fieldName: string, originalName: string, mimetype: string, size: nat, stamp: Stamp, writeFails: bool)

  /** The media type the multipart parser reports to the filter: the
      declared one with type and subtype lower-cased. */
  function ReportedType(p: Part): (r: string)
    ensures |r| == |p.mimetype|
    ensures forall i :: 0 <= i < |r| ==> r[i] == LowerChar(p.mimetype[i])
  {
    Lower(p.mimetype)
  }

  /** What the route sees of a stored file (`req.files[i]`). */
  datatype UploadedFile = UploadedFile(originalName: string, filename: string, path: string)

  /** Why the middleware aborted the request: a file under another field or
      beyond the fifth, the filter's `Unsupported file format` error, a file
      over the size limit, or a failed write of a file to disk. */
  datatype Rejection = UnexpectedFile(field: string) | UnsupportedFormat | FileTooLarge(field: string) | StorageError

  datatype Received = Rejected(reason: Rejection) | Accepted(files: seq<UploadedFile>)

  /** The storage engine's record of a kept part. */
  function Store(p: Part): (f: UploadedFile)
    ensures f.originalName == p.originalName
    ensures f.filename == StoredName(p.stamp, p.originalName)
    ensures f.path == Destination + f.filename
    ensures LastSegment(f.path) == f.filename
  {
    var name := StoredName(p.stamp, p.originalName);
    UploadedFile(p.originalName, name, StoredPath(name))
  }

  /** A part the middleware keeps when taken on its own, `filter` being the
      configured file filter over (reported media type, client file name). */
  predicate KeptBy(filter: (string, string) -> bool, p: Part) {
    && p.fieldName == FieldName
    && filter(ReportedType(p), p.originalName)
    && p.size <= MaxFileSize
    && !p.writeFails
  }

  /** A part the middleware as configured keeps when taken on its own. */
  predicate Admissible(p: Part) {
    KeptBy(FileFilter, p)
  }

  /** The middleware over the parts, in the order they arrive, with `left`
      more files allowed, the file filter `filter` and the storage engine
      `store`: the first offending part aborts the whole request, and the
      model takes every part or none (partial files and the removal of
      overwritten entries are not modelled). */
  function ReceiveWithin(filter: (string, string) -> bool, store: Part -> UploadedFile, parts: seq<Part>, left: nat): (r: Received)
    ensures r.Accepted? <==> |parts| <= left && forall i :: 0 <= i < |parts| ==> KeptBy(filter, parts[i])
    ensures r.Accepted? ==> |r.files| == |parts| && forall i :: 0 <= i < |parts| ==> r.files[i] == store(parts[i])
    ensures r == Rejected(UnsupportedFormat) ==> exists i :: 0 <= i < |parts| && !filter(ReportedType(parts[i]), parts[i].originalName)
    ensures r.Rejected? && r.reason.FileTooLarge? ==> exists i :: 0 <= i < |parts| && parts[i].size > MaxFileSize
    ensures r == Rejected(StorageError) ==> exists i :: 0 <= i < |parts| && parts[i].writeFails
    ensures r.Rejected? && r.reason.UnexpectedFile? ==> |parts| > left || exists i :: 0 <= i < |parts| && parts[i].fieldName != FieldName
  {
    if parts == [] then Accepted([])
    else
      var p := parts[0];
      if p.fieldName != FieldName || left == 0 then
        Rejected(UnexpectedFile(p.fieldName))
      else if !filter(ReportedType(p), p.originalName) then
        Rejected(UnsupportedFormat)
      else if p.size > MaxFileSize then
        Rejected(FileTooLarge(p.fieldName))
      else if p.writeFails then
        Rejected(StorageError)
      else
        var rest := ReceiveWithin(filter, store, parts[1..], left - 1);
        assert forall i :: 0 <= i < |parts| - 1 ==> parts[1..][i] == parts[i + 1];
        if rest.Rejected? then rest
        else
          var files := [store(p)] + rest.files;
          assert files[1..] == rest.files;
          Accepted(files)
  }

  /** The first offending part decides the rejection: when every part
      before position `k` is kept and the part at `k` is the sixth file or
      comes under another field, the request fails with `UnexpectedFile`;
      otherwise, when it fails the filter, with `UnsupportedFormat`; when it
      passes the filter but is too large, with `FileTooLarge`; when it
      passes both but its write fails, with `StorageError`. */
  lemma {:induction false} FirstOffenderDecides(filter: (string, string) -> bool, store: Part -> UploadedFile, parts: seq<Part>, left: nat, k: nat)
    requires k < |parts| && k <= left
    requires forall j :: 0 <= j < k ==> KeptBy(filter, parts[j])
    ensures k == left || parts[k].fieldName != FieldName
        ==> ReceiveWithin(filter, store, parts, left) == Rejected(UnexpectedFile(parts[k].fieldName))
    ensures k < left && parts[k].fieldName == FieldName && !filter(ReportedType(parts[k]), parts[k].originalName)
        ==> ReceiveWithin(filter, store, parts, left) == Rejected(UnsupportedFormat)
    ensures k < left && parts[k].fieldName == FieldName && filter(ReportedType(parts[k]), parts[k].originalName)
        && parts[k].size > MaxFileSize
        ==> ReceiveWithin(filter, store, parts, left) == Rejected(FileTooLarge(parts[k].fieldName))
    ensures k < left && parts[k].fieldName == FieldName && filter(ReportedType(parts[k]), parts[k].originalName)
        && parts[k].size <= MaxFileSize && parts[k].writeFails
        ==> ReceiveWithin(filter, store, parts, left) == Rejected(StorageError)
    decreases k
  {
    if k > 0 {
      var rest := parts[1..];
      assert KeptBy(filter, parts[0]);
      assert forall j :: 0 <= j < k - 1 ==> rest[j] == parts[j + 1];
      assert rest[k - 1] == parts[k];
      FirstOffenderDecides(filter, store, rest, left - 1, k - 1);
    }
  }

  /** `upload.array('images', 5)` with the configured filter and size limit. */
  function Receive(parts: seq<Part>): (r: Received)
    ensures r.Accepted? <==> Acceptable(parts)
    ensures r.Accepted? ==> |r.files| == |parts| && forall i :: 0 <= i < |parts| ==> r.files[i] == Store(parts[i])
    ensures r == Rejected(UnsupportedFormat) ==> exists i :: 0 <= i < |parts| && !FileFilter(ReportedType(parts[i]), parts[i].originalName)
    ensures r.Rejected? && r.reason.FileTooLarge? ==> exists i :: 0 <= i < |parts| && parts[i].size > MaxFileSize
    ensures r == Rejected(StorageError) ==> exists i :: 0 <= i < |parts| && parts[i].writeFails
    ensures r.Rejected? && r.reason.UnexpectedFile? ==> |parts| > MaxFiles || exists i :: 0 <= i < |parts| && parts[i].fieldName != FieldName
  {
    ReceiveWithin(FileFilter, Store, parts, MaxFiles)
  }

  /** A request the middleware lets through as a whole: at most five parts,
      each admissible on its own. */
  predicate Acceptable(parts: seq<Part>) {
    |parts| <= MaxFiles && forall i :: 0 <= i < |parts| ==> Admissible(parts[i])
  }

  /** One of the three words occurs somewhere in `s`. */
  ghost predicate HasImageWord(s: string) {
    exists i :: OccursAt(s, "jpeg", i) || OccursAt(s, "jpg", i) || OccursAt(s, "png", i)
  }

  /** The filter passes exactly when the media type contains one of the
      words and so does the lower-cased extension of the client's name; no
      anchoring, no case folding of the media type. */
  lemma FileFilterMeaning(mimetype: string, originalName: string)
    ensures FileFilter(mimetype, originalName)
        <==> HasImageWord(mimetype) && HasImageWord(Lower(ExtName(originalName)))
  {
    forall s | s == mimetype || s == Lower(ExtName(originalName))
      ensures NamesImageType(s) <==> HasImageWord(s)
    {
      ContainsIffOccurs(s, "jpeg");
      ContainsIffOccurs(s, "jpg");
      ContainsIffOccurs(s, "png");
    }
  }

  /** A file named only `.png` has no extension, so it fails the filter
      whatever its media type. */
  lemma DotfileRejected(mimetype: string)
    ensures !FileFilter(mimetype, ".png")
  {
    ExtNameWithoutDot(".png");
  }

  /** The extension test is unanchored: an extension that merely contains
      one of the words passes it (`photo.pngx` has extension `.pngx`, see
      `ExtNameOfSuffixed`). */
  lemma ExtensionTestIsUnanchored()
    ensures NamesImageType(Lower(".pngx"))
  {
    var l := Lower(".pngx");
    assert l == ".pngx";
    ContainsAt(l, "png", 1);
  }

  /** The extension is lower-cased before the test, so `.PNG` passes it. */
  lemma ExtensionTestFoldsCase()
    ensures NamesImageType(Lower(".PNG"))
  {
    var l := Lower(".PNG");
    assert l == ".png";
    ContainsAt(l, "png", 1);
  }

  /** The media type test is unanchored too: `image/jpegfoo` passes it. */
  lemma MediaTypeTestIsUnanchored()
    ensures NamesImageType("image/jpegfoo")
  {
    ContainsAt("image/jpegfoo", "jpeg", 6);
  }

  /** The filter itself compares the media type as it receives it, so a
      media type with no lower-case letter, such as `IMAGE/PNG`, fails it.
      A client declaring `IMAGE/PNG` still passes, because the multipart
      parser lower-cases the declared type before the filter sees it
      (`Scenarios.UpperCaseMediaTypeAdmitted`). */
  lemma FilterKeepsMediaTypeCase(mimetype: string, originalName: string)
    requires forall i :: 0 <= i < |mimetype| ==> !('a' <= mimetype[i] <= 'z')
    ensures !FileFilter(mimetype, originalName)
  {
    ContainsHasChar(mimetype, "jpeg", 0);
    ContainsHasChar(mimetype, "jpg", 0);
    ContainsHasChar(mimetype, "png", 0);
  }
}
