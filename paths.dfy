/** The two `os.path` operations the service uses, for POSIX paths. */
module PathOps {
  import opened Text

  /** `os.path.join(dir, name)` for a relative `name`: the two parts with one '/' between. */
  function Join(dir: string, name: string): (r: string)
    ensures |r| == |dir| + 1 + |name|
    ensures r[..|dir|] == dir && r[|dir|] == '/' && r[|dir| + 1..] == name
  {
    dir + "/" + name
  }

  /** The part of `p` after its last '/' (all of `p` when it has none). */
  function LastSegment(p: string): (r: string)
    ensures '/' !in r
    ensures |r| <= |p| && p[|p| - |r|..] == r
    ensures |r| == |p| || p[|p| - |r| - 1] == '/'
  {
    var sep := RFind(p, '/');
    NoneAfterLast(p, '/', sep + 1);
    p[sep + 1..]
  }

  /** Nothing after the last occurrence of `c` is `c`. */
  lemma NoneAfterLast(p: string, c: char, from: int)
    requires RFind(p, c) < from <= |p|
    ensures c !in p[from..]
  {
    var r := p[from..];
    forall j | 0 <= j < |r| ensures r[j] != c {
      assert r[j] == p[from + j];
    }
  }

  /**
   * Where `os.path.splitext` cuts `p`: the last '.' of `p`, provided that dot
   * lies in the last path segment and is preceded, within that segment, by
   * something other than dots (leading dots do not start an extension);
   * otherwise `|p|`, meaning no extension.
   */
  function ExtensionStart(p: string): (i: nat)
    ensures i <= |p|
    ensures i < |p| ==> p[i] == '.' && '.' !in p[i + 1..] && '/' !in p[i..]
    ensures i < |p| ==> HasNonDot(LastSegment(p[..i]))
  {
    var sep := RFind(p, '/');
    var dot := RFind(p, '.');
    if dot > sep && HasNonDot(p[sep + 1..dot]) then
      LastSegmentOfStem(p, dot);
      NoneAfterLast(p, '.', dot + 1);
      NoneAfterLast(p, '/', dot);
      dot
    else
      |p|
  }

  /** `os.path.splitext(p)`: `(root, ext)` with `root + ext == p`, cut at `ExtensionStart`. */
  function SplitExt(p: string): (r: (string, string))
    ensures r.0 + r.1 == p
    ensures r.1 != "" ==> r.1[0] == '.' && '.' !in r.1[1..] && '/' !in r.1
    ensures r.1 != "" ==> HasNonDot(LastSegment(r.0))
  {
    var i := ExtensionStart(p);
    CutRejoins(p, i);
    (p[..i], p[i..])
  }

  /** The two sides of a cut put back together give the whole; the right side begins at the cut. */
  lemma CutRejoins(p: string, i: nat)
    requires i <= |p|
    ensures p[..i] + p[i..] == p
    ensures i < |p| ==> p[i..][0] == p[i] && p[i..][1..] == p[i + 1..]
  {
  }

  /** Indexing a suffix slice is indexing the whole, shifted by the slice's start. */
  lemma IndexInSuffix(p: string, from: nat, j: nat)
    requires from <= j < |p|
    ensures p[from..][j - from] == p[j]
  {
  }

  /** Cut after the last '/', the last segment is the slice between that '/' and the cut. */
  lemma LastSegmentOfStem(p: string, cut: int)
    requires RFind(p, '/') < cut <= |p|
    ensures LastSegment(p[..cut]) == p[RFind(p, '/') + 1..cut]
  {
    var sep := RFind(p, '/');
    var q := p[..cut];
    NoneAfterLast(p, '/', sep + 1);
    AbsentFromPrefixTail(p, sep + 1, cut, '/');
    assert sep >= 0 ==> q[sep] == p[sep];
    LastSegmentAfter(q, sep);
  }

  /** When `sep` is a '/' (or -1) with no '/' after it, the last segment starts right after `sep`. */
  lemma LastSegmentAfter(q: string, sep: int)
    requires -1 <= sep < |q|
    requires sep >= 0 ==> q[sep] == '/'
    requires '/' !in q[sep + 1..]
    ensures LastSegment(q) == q[sep + 1..]
  {
    AbsentAfter(q, sep + 1, '/');
    RFindUnique(q, '/', sep);
  }

  /**
   * Dropping from a prefix slice is slicing the whole between the two
   * bounds, so what is absent after `from` stays absent there.
   */
  lemma AbsentFromPrefixTail(p: string, from: nat, cut: nat, c: char)
    requires from <= cut <= |p| && c !in p[from..]
    ensures p[..cut][from..] == p[from..cut] && c !in p[from..cut]
  {
    var t := p[from..cut];
    forall k | 0 <= k < |t| ensures t[k] != c {
      assert t[k] == p[from..][k];
    }
  }

  /** A character absent from a suffix slice is absent from every index it covers. */
  lemma AbsentAfter(p: string, i: nat, c: char)
    requires i <= |p| && c !in p[i..]
    ensures forall j :: i <= j < |p| ==> p[j] != c
  {
    forall j | i <= j < |p| ensures p[j] != c {
      assert p[j] == p[i..][j - i];
    }
  }

  /** Where `ExtensionStart` cuts when the '.' at `i` is the last '.' and no '/' follows it. */
  lemma ExtensionStartAt(p: string, i: nat)
    requires i < |p| && p[i] == '.'
    requires '.' !in p[i + 1..] && '/' !in p[i + 1..]
    ensures ExtensionStart(p) == if HasNonDot(LastSegment(p[..i])) then i else |p|
  {
    AbsentAfter(p, i + 1, '.');
    AbsentAfter(p, i + 1, '/');
    RFindUnique(p, '.', i);
    assert RFind(p, '/') < i;
    LastSegmentOfStem(p, i);
  }

  /**
   * An independent reading of `splitext`: when the '.' at `i` is followed by
   * neither '.' nor '/', the extension is the suffix from `i` exactly when
   * the segment before it holds a non-dot, and is empty otherwise.
   */
  lemma SplitExtAt(p: string, i: nat)
    requires i < |p| && p[i] == '.'
    requires '.' !in p[i + 1..] && '/' !in p[i + 1..]
    ensures SplitExt(p) == (if HasNonDot(LastSegment(p[..i])) then (p[..i], p[i..]) else (p, ""))
  {
    ExtensionStartAt(p, i);
    var e := ExtensionStart(p);
    assert SplitExt(p) == (p[..e], p[e..]);
    if !HasNonDot(LastSegment(p[..i])) {
      assert e == |p|;
      assert p[..|p|] == p && p[|p|..] == "";
    }
  }

  /** The last '.' lies in the last segment when it comes after the last '/'. */
  lemma LastDotInLastSegment(p: string)
    ensures RFind(p, '.') > RFind(p, '/') ==> '.' in LastSegment(p)
  {
    var sep := RFind(p, '/');
    var dot := RFind(p, '.');
    if dot > sep {
      IndexInSuffix(p, sep + 1, dot);
      assert LastSegment(p) == p[sep + 1..];
    }
  }

  /** Without a '.' in the last segment there is no extension. */
  lemma NoDotNoExtension(p: string)
    requires '.' !in LastSegment(p)
    ensures SplitExt(p) == (p, "")
  {
    LastDotInLastSegment(p);
    var sep, dot := RFind(p, '/'), RFind(p, '.');
    assert dot <= sep;
    assert ExtensionStart(p) == |p|;
    assert p[..|p|] == p && p[|p|..] == "";
  }

  /** A path without '/' is its own last segment. */
  lemma NoSlashIsLastSegment(p: string)
    requires '/' !in p
    ensures LastSegment(p) == p
  {
    RFindUnique(p, '/', -1);
  }
}
