/** Models of the two `posixpath` functions the filename rules call:
    `splitext` (by way of `genericpath._splitext`, with `/` as the
    separator) and `basename`. */
module PyPath {
  import opened PyStr

  /** Some character of `p[i..d]` is not a dot. This is the loop of
      `_splitext` that skips the leading dots of the last path component. */
  function NonDotBetween(p: string, i: int, d: int): bool
    requires 0 <= i && d <= |p|
    decreases d - i
  {
    i < d && (p[i] != '.' || NonDotBetween(p, i + 1, d))
  }

  /** The skip loop stops inside the range exactly when the range holds
      something other than a dot. */
  lemma {:induction false} NonDotBetweenSpec(p: string, i: int, d: int)
    requires 0 <= i && d <= |p|
    ensures NonDotBetween(p, i, d) <==> exists k :: i <= k < d && p[k] != '.'
    decreases d - i
  {
    if i < d {
      NonDotBetweenSpec(p, i + 1, d);
    }
  }

  /** Position `d` starts the extension of path `p`: it holds the last dot,
      no separator follows it, and the last path component has a character
      other than a dot in front of it. */
  ghost predicate ExtensionAt(p: string, d: int) {
    && 0 <= d < |p| && p[d] == '.'
    && (forall k :: d < k < |p| ==> p[k] != '.' && p[k] != '/')
    && (exists k :: 0 <= k < d && p[k] != '.' && forall m :: k <= m < d ==> p[m] != '/')
  }

  /** `os.path.splitext(p)` on a POSIX system. */
  function SplitExt(p: string): (r: (string, string))
    ensures |r.0| + |r.1| == |p|
  {
    var sep := RFind(p, '/');
    var dot := RFind(p, '.');
    if dot > sep && NonDotBetween(p, sep + 1, dot) then
      (p[..dot], p[dot..])
    else
      (p, [])
  }

  /** The extension is the text from the last dot onwards, unless that dot
      is in a directory part or only dots precede it in the last component
      (`.bashrc`, `..`, `dir.d/file`), in which case it is empty. The root
      and the extension always put the path back together. */
  lemma SplitExtSpec(p: string)
    ensures var r := SplitExt(p);
      && r.0 + r.1 == p
      && (r.1 != [] <==> exists d :: ExtensionAt(p, d))
      && (r.1 != [] ==> ExtensionAt(p, |r.0|))
  {
    var sep := RFind(p, '/');
    var dot := RFind(p, '.');
    RFindSpec(p, '/');
    RFindSpec(p, '.');
    if dot > sep && 0 <= sep + 1 {
      NonDotBetweenSpec(p, sep + 1, dot);
    }
    var r := SplitExt(p);
    if r.1 != [] {
      assert ExtensionAt(p, dot);
      assert p[..dot] + p[dot..] == p;
    } else {
      assert p + [] == p;
    }
  }

  /** The extension, when there is one, starts at the one place
      ExtensionAt allows. */
  lemma ExtensionAtUnique(p: string, d: int)
    requires ExtensionAt(p, d)
    ensures SplitExt(p) == (p[..d], p[d..])
  {
    SplitExtSpec(p);
    var r := SplitExt(p);
    var d' := |r.0|;
    assert ExtensionAt(p, d');
    assert r.0 == p[..d'];
  }

  /** The extension is empty or is one dot followed by characters that are
      neither dots nor separators. */
  lemma ExtensionShape(p: string)
    ensures var e := SplitExt(p).1;
      e == [] || (e[0] == '.' && forall k :: 1 <= k < |e| ==> e[k] != '.' && e[k] != '/')
  {
    SplitExtSpec(p);
    var r := SplitExt(p);
    if r.1 != [] {
      forall k | 1 <= k < |r.1| ensures r.1[k] != '.' && r.1[k] != '/' {
        assert r.1[k] == p[|r.0| + k];
      }
      assert r.1[0] == p[|r.0|];
    }
  }

  /** Prepending text never changes an extension that is already there. */
  lemma SplitExtPrepend(a: string, p: string)
    requires SplitExt(p).1 != []
    ensures SplitExt(a + p).1 == SplitExt(p).1
  {
    SplitExtSpec(p);
    var d := |SplitExt(p).0|;
    var q := a + p;
    assert ExtensionAt(q, |a| + d) by {
      assert q[|a| + d] == p[d];
      forall k | |a| + d < k < |q| ensures q[k] != '.' && q[k] != '/' {
        assert q[k] == p[k - |a|];
      }
      var k :| 0 <= k < d && p[k] != '.' && forall m :: k <= m < d ==> p[m] != '/';
      assert q[|a| + k] == p[k];
      forall m | |a| + k <= m < |a| + d ensures q[m] != '/' {
        assert q[m] == p[m - |a|];
      }
    }
    ExtensionAtUnique(q, |a| + d);
    assert q[|a| + d..] == p[d..];
  }

  /** `posixpath.basename(p)`. */
  function Basename(p: string): (r: string)
    ensures |r| <= |p|
  {
    p[RFind(p, '/') + 1..]
  }

  /** The base name is the part of the path after its last `/`: a suffix
      with no separator, preceded by one when it is not the whole path. */
  lemma BasenameSpec(p: string)
    ensures var r := Basename(p);
      && r == p[|p| - |r|..]
      && (forall k :: 0 <= k < |r| ==> r[k] != '/')
      && (|r| < |p| ==> p[|p| - |r| - 1] == '/')
  {
    RFindSpec(p, '/');
    var r := Basename(p);
    forall k | 0 <= k < |r| ensures r[k] != '/' {
      assert r[k] == p[RFind(p, '/') + 1 + k];
    }
  }

  /** A name without a separator is its own base name. */
  lemma BasenameOfName(p: string)
    requires forall k :: 0 <= k < |p| ==> p[k] != '/'
    ensures Basename(p) == p
  {
    RFindSpec(p, '/');
    if RFind(p, '/') >= 0 {
      assert p[RFind(p, '/')] == '/';
    }
  }
}
