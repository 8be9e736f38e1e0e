/** Node's POSIX `path.extname`, which both the stored-name generator and the
    upload filter apply to the client's file name. */
module PathName {
  import opened Wrappers
  import opened Text

  /** The path with every trailing `/` removed. */
  function TrimTrailingSlashes(p: string): (r: string)
    ensures r <= p
    ensures r == [] || r[|r| - 1] != '/'
    ensures forall i :: |r| <= i < |p| ==> p[i] == '/'
  {
    if p != [] && p[|p| - 1] == '/' then TrimTrailingSlashes(p[..|p| - 1]) else p
  }

  /** The text after the last `/`, or the whole path when it has none. */
  function LastSegment(p: string): (r: string)
    ensures '/' !in r
    ensures EndsWith(p, r)
    ensures '/' !in p ==> r == p
    // the segment starts right after the last slash
    ensures '/' in p ==> |r| < |p| && p[|p| - |r| - 1] == '/'
  {
    match LastIndexOf(p, '/')
    case None => p
    case Some(i) => p[i + 1..]
  }

  /** A directory path ending in `/` followed by a slash-free name has that
      name as its last segment. */
  lemma LastSegmentAfterSlash(dir: string, name: string)
    requires dir != [] && dir[|dir| - 1] == '/'
    requires '/' !in name
    ensures LastSegment(dir + name) == name
  {
    var p := dir + name;
    assert p[|dir| - 1] == '/';
    assert p[|dir|..] == name;
    LastIndexOfUnique(p, '/', |dir| - 1);
  }

  /** The shape of every extension: empty, or a dot followed by text holding
      neither a dot nor a slash. */
  ghost predicate IsExtension(e: string) {
    && '/' !in e
    && (e == [] || (e[0] == '.' && '.' !in e[1..]))
  }

  /** `path.extname`: of the last segment (trailing slashes ignored), the text
      from its last dot onward; empty when the segment has no dot, when its
      only dot is its first character (`.png`), or when it is `..`. */
  function ExtName(p: string): (r: string)
    ensures IsExtension(r)
    ensures EndsWith(TrimTrailingSlashes(p), r)
  {
    var trimmed := TrimTrailingSlashes(p);
    var base := LastSegment(trimmed);
    if base == ".." then ""
    else
      match LastIndexOf(base, '.')
      case None => ""
      case Some(d) =>
        if d == 0 then ""
        else
          FromLastDot(trimmed, base, d);
          base[d..]
  }

  /** The text from the last dot of a segment ending a path is an extension
      that ends the path too. */
  lemma FromLastDot(path: string, base: string, d: nat)
    requires '/' !in base && EndsWith(path, base)
    requires d < |base| && base[d] == '.' && '.' !in base[d + 1..]
    ensures IsExtension(base[d..]) && EndsWith(path, base[d..])
  {
    var r := base[d..];
    assert r[1..] == base[d + 1..];
    assert path[|path| - |r|..] == r by {
      assert path[|path| - |base|..] == base;
    }
  }

  /** For a plain file name, the extension is the text from the last dot on,
      provided that dot is not the first character and the name is not `..`. */
  lemma ExtNameOfPlainName(name: string, d: nat)
    requires '/' !in name && name != ".."
    requires 0 < d < |name| && name[d] == '.' && '.' !in name[d + 1..]
    ensures ExtName(name) == name[d..]
  {
    assert TrimTrailingSlashes(name) == name by {
      assert name[|name| - 1] in name;
    }
    LastIndexOfUnique(name, '.', d);
  }

  /** A plain file name with no dot after its first character has no
      extension: `cat`, `.png` and `.` alike. */
  lemma ExtNameWithoutDot(name: string)
    requires '/' !in name
    requires name == [] || '.' !in name[1..]
    ensures ExtName(name) == ""
  {
    if name != [] && name[0] == '.' {
      LastIndexOfUnique(name, '.', 0);
    }
  }

  /** A name made of a non-empty prefix without dots or slashes followed by
      an extension has exactly that extension. */
  lemma {:induction false} ExtNameOfSuffixed(prefix: string, e: string)
    requires prefix != [] && '.' !in prefix && '/' !in prefix
    requires IsExtension(e)
    ensures ExtName(prefix + e) == e
  {
    var name := prefix + e;
    assert name[|name| - 1] != '/' by {
      if e == [] {
        assert name[|name| - 1] == prefix[|prefix| - 1];
      } else {
        assert name[|name| - 1] == e[|e| - 1];
      }
    }
    assert '/' !in name by {
      forall i | 0 <= i < |name| ensures name[i] != '/' {
        if i < |prefix| { assert name[i] == prefix[i]; } else { assert name[i] == e[i - |prefix|]; }
      }
    }
    if e == [] {
      assert name == prefix;
      ExtNameWithoutDot(name);
    } else {
      var d := |prefix|;
      assert name[d..] == e;
      assert name[d + 1..] == e[1..];
      assert name != ".." by { assert name[0] == prefix[0] && prefix[0] in prefix; }
      ExtNameOfPlainName(name, d);
    }
  }
}
