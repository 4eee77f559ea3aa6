/**
 * The two `os.path` operations the tool applies to Windows paths:
 * `splitext`, which both the rotated-copy name and the HEIC-to-JPEG name are
 * built from, and `join` of a directory with a bare file name.
 * On Windows both `\` and `/` separate path components.
 */
module OsPath {
  import opened Strings

  predicate IsSep(c: char) { c == '\\' || c == '/' }

  predicate IsDot(c: char) { c == '.' }

  /** Some character strictly between the last separator and the last dot is not a dot. */
  predicate HasStem(p: string, sepIndex: int, dotIndex: int)
    requires -1 <= sepIndex < dotIndex <= |p|
  {
    exists k :: sepIndex < k < dotIndex && p[k] != '.'
  }

  /**
   * Some character before index `d` of `p` is neither a dot nor a separator,
   * and no separator lies between it and `d`: the last component of
   * `p[..d]` does not consist of dots only.
   */
  predicate StemBefore(p: string, d: int)
    requires 0 <= d <= |p|
  {
    exists k :: 0 <= k < d && p[k] != '.' && !IsSep(p[k]) && forall m :: k < m < d ==> !IsSep(p[m])
  }

  /**
   * A dot at `d` with neither dots nor separators after it and a stem before
   * it is the last dot, it comes after the last separator, and the stem lies
   * in between.
   */
  lemma LastDotAt(p: string, d: int)
    requires 0 <= d < |p| && IsDot(p[d]) && NoDotNoSep(p[d + 1..]) && StemBefore(p, d)
    ensures LastIndexWhere(p, IsDot) == d
    ensures LastIndexWhere(p, IsSep) < d && HasStem(p, LastIndexWhere(p, IsSep), d)
  {
    forall m | d < m < |p| ensures !IsDot(p[m]) && !IsSep(p[m]) {
      assert p[m] == p[d + 1..][m - d - 1];
    }
    LastIndexUnique(p, IsDot, d);
    var k :| 0 <= k < d && p[k] != '.' && !IsSep(p[k]) && forall m :: k < m < d ==> !IsSep(p[m]);
    assert forall m :: k <= m < |p| ==> !IsSep(p[m]);
    var sepIndex := LastIndexWhere(p, IsSep);
    assert sepIndex < k;
    assert sepIndex < k < d && p[k] != '.';
  }

  /** `LastDotAt` for every such dot. */
  lemma LastDotAtAll(p: string)
    ensures forall d :: 0 <= d < |p| && IsDot(p[d]) && NoDotNoSep(p[d + 1..]) && StemBefore(p, d) ==>
      LastIndexWhere(p, IsDot) == d && LastIndexWhere(p, IsSep) < d && HasStem(p, LastIndexWhere(p, IsSep), d)
  {
    forall d | 0 <= d < |p| && IsDot(p[d]) && NoDotNoSep(p[d + 1..]) && StemBefore(p, d)
      ensures LastIndexWhere(p, IsDot) == d && LastIndexWhere(p, IsSep) < d && HasStem(p, LastIndexWhere(p, IsSep), d)
    {
      LastDotAt(p, d);
    }
  }

  /**
   * `os.path.splitext(p)` on Windows: the extension runs from the last dot to
   * the end, provided that dot comes after the last separator and the final
   * component does not consist of dots only up to it (so `.heic` and `dir\.heic`
   * have no extension). The root is everything before the extension.
   * The last two clauses decide the split both ways: a non-empty extension is
   * such a dot and what follows it, and any such dot starts the extension.
   */
  function SplitExt(p: string): (r: (string, string))
    ensures r.0 + r.1 == p
    ensures r.1 == [] || r.1[0] == '.'
    ensures forall k :: 1 <= k < |r.1| ==> r.1[k] != '.' && !IsSep(r.1[k])
    ensures r.1 != [] ==> StemBefore(p, |r.0|)
    ensures forall d :: 0 <= d < |p| && IsDot(p[d]) && NoDotNoSep(p[d + 1..]) && StemBefore(p, d) ==>
      r == (p[..d], p[d..])
  {
    var sepIndex := LastIndexWhere(p, IsSep);
    var dotIndex := LastIndexWhere(p, IsDot);
    LastDotAtAll(p);
    if dotIndex > sepIndex && HasStem(p, sepIndex, dotIndex) then
      var k :| sepIndex < k < dotIndex && p[k] != '.';
      assert !IsSep(p[k]) && forall m :: k < m < dotIndex ==> !IsSep(p[m]);
      (p[..dotIndex], p[dotIndex..])
    else
      (p, "")
  }

  function Root(p: string): string { SplitExt(p).0 }

  function Ext(p: string): string { SplitExt(p).1 }

  predicate NoDotNoSep(t: string)
  {
    forall k :: 0 <= k < |t| ==> t[k] != '.' && !IsSep(t[k])
  }

  /**
   * Inserting a text without dots or separators between the root and the
   * extension keeps the extension: `splitext(root + suffix + ext)` is
   * `(root + suffix, ext)`.
   */
  lemma SplitExtInsert(p: string, suffix: string)
    requires NoDotNoSep(suffix)
    ensures SplitExt(Root(p) + suffix + Ext(p)) == (Root(p) + suffix, Ext(p))
  {
    if Ext(p) != [] {
      InsertBeforeExt(p, suffix);
    } else {
      AppendWithoutExt(p, suffix);
    }
  }

  /** An extension has its only dot first and no separator. */
  lemma ExtIndices(ext: string)
    requires ext != [] && ext[0] == '.'
    requires forall k :: 1 <= k < |ext| ==> ext[k] != '.' && !IsSep(ext[k])
    ensures LastIndexWhere(ext, IsSep) == -1 && LastIndexWhere(ext, IsDot) == 0
  {
    LastIndexUnique(ext, IsSep, -1);
    LastIndexUnique(ext, IsDot, 0);
  }

  /** Text without separators, inserted or appended, does not move the last separator. */
  lemma SepUnmoved(root: string, suffix: string, ext: string)
    requires NoDotNoSep(suffix)
    requires LastIndexWhere(ext, IsSep) == -1
    ensures LastIndexWhere(root + suffix + ext, IsSep) == LastIndexWhere(root, IsSep)
    ensures LastIndexWhere(root + ext, IsSep) == LastIndexWhere(root, IsSep)
  {
    LastIndexUnique(suffix, IsSep, -1);
    LastIndexAppend(root, suffix, IsSep);
    LastIndexAppend(root + suffix, ext, IsSep);
    LastIndexAppend(root, ext, IsSep);
  }

  lemma InsertBeforeExt(p: string, suffix: string)
    requires NoDotNoSep(suffix)
    requires Ext(p) != []
    ensures SplitExt(Root(p) + suffix + Ext(p)) == (Root(p) + suffix, Ext(p))
  {
    var root, ext := Root(p), Ext(p);
    var q := root + suffix + ext;
    ExtIndices(ext);
    SepUnmoved(root, suffix, ext);
    LastIndexAppend(root + suffix, ext, IsDot);
    LastIndexAppend(root, ext, IsDot);
    var sepP, dotP := LastIndexWhere(p, IsSep), LastIndexWhere(p, IsDot);
    var sepQ, dotQ := LastIndexWhere(q, IsSep), LastIndexWhere(q, IsDot);
    assert dotP == |root| && dotQ == |root| + |suffix|;
    assert dotP > sepP && HasStem(p, sepP, dotP);
    var k :| sepP < k < dotP && p[k] != '.';
    assert q[k] == p[k];
    assert HasStem(q, sepQ, dotQ);
    assert q[..dotQ] == root + suffix;
    assert q[dotQ..] == ext;
  }

  lemma AppendWithoutExt(p: string, suffix: string)
    requires NoDotNoSep(suffix)
    requires Ext(p) == []
    ensures SplitExt(p + suffix) == (p + suffix, [])
  {
    var q := p + suffix;
    assert LastIndexWhere(suffix, IsSep) == -1;
    assert LastIndexWhere(suffix, IsDot) == -1;
    LastIndexAppend(p, suffix, IsSep);
    LastIndexAppend(p, suffix, IsDot);
    var sepP, dotP := LastIndexWhere(p, IsSep), LastIndexWhere(p, IsDot);
    var sepQ, dotQ := LastIndexWhere(q, IsSep), LastIndexWhere(q, IsDot);
    assert sepQ == sepP && dotQ == dotP;
    assert !(dotP > sepP && HasStem(p, sepP, dotP));
    if dotQ > sepQ {
      forall k | sepQ < k < dotQ ensures q[k] == p[k] { }
      assert HasStem(q, sepQ, dotQ) == HasStem(p, sepP, dotP);
    }
  }

  /**
   * `os.path.join(directory, name)` on Windows for a bare file name, as
   * `os.listdir` returns them: a backslash is inserted unless the directory is
   * empty, already ends with a separator, or is a bare drive such as `C:`.
   */
  function Join(directory: string, name: string): (r: string)
    requires forall k :: 0 <= k < |name| ==> !IsSep(name[k]) && name[k] != ':'
    ensures EndsWith(r, name)
    ensures r[..|r| - |name|] == directory || r[..|r| - |name|] == directory + "\\"
    ensures (directory != [] && !IsSep(directory[|directory| - 1]) && directory[|directory| - 1] != ':')
              ==> r == directory + "\\" + name
    ensures (directory == [] || IsSep(directory[|directory| - 1]) || (|directory| == 2 && directory[1] == ':'))
              ==> r == directory + name
  {
    if directory == [] || IsSep(directory[|directory| - 1]) || (|directory| == 2 && directory[1] == ':') then
      directory + name
    else
      directory + "\\" + name
  }
}
