/** The name and path under which the disk storage engine keeps an accepted
    file (Backend/routes/upload.js, the `filename` callback and the fixed
    `uploads/` destination). */
module Naming {
  import opened Text
  import opened PathName

  /** The two values drawn from the environment when a file is stored: the
      clock reading in milliseconds and the rounded random integer. They are
      inputs here; nothing is assumed about their uniqueness. */
  datatype Stamp = Stamp(millis: nat, random: nat)

  /** Destination directory handed to the storage engine. */
  const Destination: string := "uploads/"

  /** `<millis>-<random>`, the part of a stored name that is not the
      extension. */
  function UniqueSuffix(s: Stamp): (r: string)
    ensures r != [] && '.' !in r && '/' !in r
  {
    var r := Decimal(s.millis) + "-" + Decimal(s.random);
    assert forall i :: 0 <= i < |r| ==> IsDigit(r[i]) || r[i] == '-';
    r
  }

  /** Name of the stored file: the unique suffix followed by the extension of
      the client's file name (which may be empty). */
  function StoredName(s: Stamp, originalName: string): (r: string)
    ensures EndsWith(r, ExtName(originalName))
    ensures r[..|r| - |ExtName(originalName)|] == UniqueSuffix(s)
    ensures '/' !in r
    // never a dot file, so never `.` or `..`
    ensures r != [] && r[0] != '.'
  {
    var u := UniqueSuffix(s);
    assert u[0] in u;
    u + ExtName(originalName)
  }

  /** Path recorded for the stored file: `path.join('uploads/', name)`, which
      is plain concatenation because the name has no slash and is neither
      `.` nor `..`. */
  function StoredPath(name: string): (r: string)
    requires '/' !in name && name != "." && name != ".."
    ensures EndsWith(r, name)
    ensures r[..|r| - |name|] == Destination
    // round trip: the base name of the recorded path is the stored name
    ensures LastSegment(r) == name
  {
    LastSegmentAfterSlash(Destination, name);
    Destination + name
  }

  /** Round trip: the stored name has the same extension as the client's
      name, so the extension survives storage unchanged. */
  lemma StoredNameKeepsExtension(s: Stamp, originalName: string)
    ensures ExtName(StoredName(s, originalName)) == ExtName(originalName)
  {
    ExtNameOfSuffixed(UniqueSuffix(s), ExtName(originalName));
  }

  /** A stored name determines the stamp it was made from and the extension
      it carries: two files get the same stored name only if both drawn
      values coincide. */
  lemma StoredNameInjective(s1: Stamp, n1: string, s2: Stamp, n2: string)
    requires StoredName(s1, n1) == StoredName(s2, n2)
    ensures s1 == s2
    ensures ExtName(n1) == ExtName(n2)
  {
    var e1, e2 := ExtName(n1), ExtName(n2);
    var m1, m2 := Decimal(s1.millis), Decimal(s2.millis);
    var r1, r2 := Decimal(s1.random), Decimal(s2.random);
    SplitStoredName(m1, r1, e1, m2, r2, e2);
    DecimalInjective(s1.millis, s2.millis);
    DecimalInjective(s1.random, s2.random);
  }

  /** `<digits>-<digits><extension>` splits in only one way. */
  lemma SplitStoredName(m1: string, r1: string, e1: string, m2: string, r2: string, e2: string)
    requires AllDigits(m1) && AllDigits(r1) && AllDigits(m2) && AllDigits(r2)
    requires IsExtension(e1) && IsExtension(e2)
    requires m1 + "-" + r1 + e1 == m2 + "-" + r2 + e2
    ensures m1 == m2 && r1 == r2 && e1 == e2
  {
    var t1, t2 := "-" + (r1 + e1), "-" + (r2 + e2);
    assert m1 + "-" + r1 + e1 == m1 + t1;
    assert m2 + "-" + r2 + e2 == m2 + t2;
    DigitRunUnique(m1, t1, m2, t2);
    assert t1[1..] == r1 + e1;
    assert t2[1..] == r2 + e2;
    DigitRunUnique(r1, e1, r2, e2);
  }
}
