/** The metadata ledger (`metadata.json`): an ordered sequence of upload
    records, extended by uploads and filtered by deletions. */
module Ledger {
  import opened Wrappers
  import opened Seqs
  import opened Admission

  /** One ledger entry; the fields are the JSON keys `original_name`,
      `file_path`, `upload_date` and `user_id` (`null` is `None`). */
  datatype UploadRecord = UploadRecord(originalName: string, filePath: string, uploadDate: string, userId: Option<string>)

  /** `req.body.user_id || null`: an absent or empty value becomes `null`. */
  function UserIdOrNull(supplied: Option<string>): (r: Option<string>)
    ensures r.Some? <==> supplied.Some? && supplied.value != ""
    ensures r.Some? ==> r == supplied
  {
    match supplied
    case Some(v) => if v == "" then None else supplied
    case None => None
  }

  /** The records for `files[k..]`, dating the record of `files[i]` with
      `clock(k + i)`, the ISO time read when that record is built. */
  function RecordsFrom(files: seq<UploadedFile>, userId: Option<string>, clock: nat -> string, k: nat): (r: seq<UploadRecord>)
    ensures |r| == |files|
    ensures forall i :: 0 <= i < |files| ==>
      && r[i].originalName == files[i].originalName
      && r[i].filePath == files[i].path
      && r[i].uploadDate == clock(k + i)
      && r[i].userId == UserIdOrNull(userId)
  {
    if files == [] then []
    else
      var f := files[0];
      var rest := RecordsFrom(files[1..], userId, clock, k + 1);
      var r := [UploadRecord(f.originalName, f.path, clock(k), UserIdOrNull(userId))] + rest;
      assert r[1..] == rest;
      assert forall i :: 1 <= i < |files| ==> files[i] == files[1..][i - 1];
      r
  }

  /** One record per uploaded file, in the order the files were received. */
  function BuildRecords(files: seq<UploadedFile>, userId: Option<string>, clock: nat -> string): (r: seq<UploadRecord>)
    ensures |r| == |files|
    ensures forall i :: 0 <= i < |files| ==>
      && r[i].originalName == files[i].originalName
      && r[i].filePath == files[i].path
      && r[i].uploadDate == clock(i)
      && r[i].userId == UserIdOrNull(userId)
  {
    RecordsFrom(files, userId, clock, 0)
  }

  /** `metadata.push(...imageData)`: the old ledger followed by the new
      records. */
  function Append(ledger: seq<UploadRecord>, records: seq<UploadRecord>): (r: seq<UploadRecord>)
    ensures |r| == |ledger| + |records|
    ensures r[..|ledger|] == ledger
    ensures r[|ledger|..] == records
  {
    ledger + records
  }

  /** The record does not carry the name being deleted. */
  predicate Survives(name: string, rec: UploadRecord) {
    rec.originalName != name
  }

  /** `metadata.filter(file => file.original_name !== fileName)`. */
  function RemoveByName(ledger: seq<UploadRecord>, name: string): (r: seq<UploadRecord>)
    ensures IsSubsequence(r, ledger)
    ensures forall i :: 0 <= i < |r| ==> r[i].originalName != name
    ensures forall rec :: rec in r <==> rec in ledger && rec.originalName != name
    ensures |r| == Count(rec => Survives(name, rec), ledger)
  {
    Filter(rec => Survives(name, rec), ledger)
  }

  /** The filtered ledger is the only order-preserving selection that keeps
      every record with another name and none with this one. */
  lemma RemoveByNameUnique(ledger: seq<UploadRecord>, name: string, r: seq<UploadRecord>)
    requires IsSubsequence(r, ledger)
    requires forall i :: 0 <= i < |r| ==> r[i].originalName != name
    requires |r| == Count(rec => Survives(name, rec), ledger)
    ensures r == RemoveByName(ledger, name)
  {
    FilterUnique(rec => Survives(name, rec), r, ledger);
  }

  /** Removing a name twice is removing it once. */
  lemma RemoveByNameIdempotent(ledger: seq<UploadRecord>, name: string)
    ensures RemoveByName(RemoveByName(ledger, name), name) == RemoveByName(ledger, name)
  {
    FilterIdempotent(rec => Survives(name, rec), ledger);
  }

  /** Removing a name from an extended ledger removes it from the old part
      and from the appended records separately. */
  lemma RemoveByNameAppend(ledger: seq<UploadRecord>, records: seq<UploadRecord>, name: string)
    ensures RemoveByName(Append(ledger, records), name) == RemoveByName(ledger, name) + RemoveByName(records, name)
  {
    FilterAppend(rec => Survives(name, rec), ledger, records);
  }

  /** A name no record carries leaves the ledger as it is. */
  lemma {:induction false} RemoveAbsentName(ledger: seq<UploadRecord>, name: string)
    requires forall i :: 0 <= i < |ledger| ==> ledger[i].originalName != name
    ensures RemoveByName(ledger, name) == ledger
  {
    if ledger != [] {
      RemoveAbsentName(ledger[1..], name);
      assert ledger == [ledger[0]] + ledger[1..];
    }
  }
}
