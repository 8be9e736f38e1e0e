/** The listing route's view of the storage directory (Backend/routes/upload.js,
    `GET /files`): entries whose name ends in an image extension. */
module Listing {
  import opened Text
  import opened Seqs

  /** The anchored, case-insensitive test `/\.(jpeg|jpg|png)$/i`. */
  predicate IsImageName(name: string) {
    EndsWithIgnoreCase(name, ".jpeg") || EndsWithIgnoreCase(name, ".jpg") || EndsWithIgnoreCase(name, ".png")
  }

  /** The directory entries kept by the listing, in enumeration order. */
  function ListImages(entries: seq<string>): (r: seq<string>)
    ensures IsSubsequence(r, entries)
    ensures forall name :: name in r <==> name in entries && IsImageName(name)
    ensures |r| == Count(IsImageName, entries)
    ensures NoDuplicates(entries) ==> NoDuplicates(r)
  {
    FilterNoDuplicates(IsImageName, entries);
    Filter(IsImageName, entries)
  }

  /** The listing is the only order-preserving selection of the entries that
      keeps every image name and nothing else. */
  lemma ListImagesUnique(entries: seq<string>, r: seq<string>)
    requires IsSubsequence(r, entries)
    requires forall i :: 0 <= i < |r| ==> IsImageName(r[i])
    requires |r| == Count(IsImageName, entries)
    ensures r == ListImages(entries)
  {
    FilterUnique(IsImageName, r, entries);
  }

  /** Listing a listing changes nothing. */
  lemma ListImagesIdempotent(entries: seq<string>)
    ensures ListImages(ListImages(entries)) == ListImages(entries)
  {
    FilterIdempotent(IsImageName, entries);
  }

  /** The lower-cased name ends with `.jpeg`, `.jpg` or `.png`. */
  predicate EndsWithImageExtension(name: string) {
    var l := Lower(name);
    EndsWith(l, ".jpeg") || EndsWith(l, ".jpg") || EndsWith(l, ".png")
  }

  /** The case-insensitive test agrees with a plain suffix test on the
      lower-cased name. */
  lemma IsImageNameMeaning(name: string)
    ensures IsImageName(name) <==> EndsWithImageExtension(name)
  {
    LowerFixed(".jpeg");
    LowerFixed(".jpg");
    LowerFixed(".png");
    EndsWithIgnoreCaseMeaning(name, ".jpeg");
    EndsWithIgnoreCaseMeaning(name, ".jpg");
    EndsWithIgnoreCaseMeaning(name, ".png");
  }

  /** The three extension patterns are already lower case. */
  lemma LowerFixed(t: string)
    requires t == ".jpeg" || t == ".jpg" || t == ".png"
    ensures Lower(t) == t
  {
    var l := Lower(t);
    assert forall i :: 0 <= i < |t| ==> l[i] == LowerChar(t[i]) == t[i];
  }
}
