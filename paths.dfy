/**
 * POSIX path handling as the background remover uses it: `os.path.basename`,
 * `os.path.splitext`, `os.path.join`, and the `<stem>_nobg.png` naming rule built on them.
 */
module Paths {
  /** The fixed suffix appended to the stem of every output file. */
  const OutputSuffix: string := "_nobg.png"

  /** The last index below `n` that holds `c`, or -1. */
  function LastIndexBelow(s: string, c: char, n: nat): (r: int)
    requires n <= |s|
    ensures -1 <= r < n
    decreases n
  {
    if n == 0 then -1
    else if s[n - 1] == c then n - 1
    else LastIndexBelow(s, c, n - 1)
  }

  /** Python's `str.rfind` for one character: the last index holding `c`, or -1. */
  function LastIndexOf(s: string, c: char): (r: int)
    ensures -1 <= r < |s|
  {
    LastIndexBelow(s, c, |s|)
  }

  /** `c` stands at the found index, and nowhere between it and `n`. */
  lemma {:induction false} LastIndexBelowIsLast(s: string, c: char, n: nat)
    requires n <= |s|
    ensures var r := LastIndexBelow(s, c, n);
      (r >= 0 ==> s[r] == c) && forall k :: r < k < n ==> s[k] != c
    decreases n
  {
    if n > 0 && s[n - 1] != c {
      LastIndexBelowIsLast(s, c, n - 1);
    }
  }

  /** `rfind` finds the last occurrence: `c` is there, and nowhere after it. */
  lemma LastIndexOfIsLast(s: string, c: char)
    ensures var r := LastIndexOf(s, c);
      (r >= 0 ==> s[r] == c) && forall k :: r < k < |s| ==> s[k] != c
  {
    LastIndexBelowIsLast(s, c, |s|);
  }

  /** Those two facts pin the result down: any index with them is what `rfind` returns. */
  lemma LastIndexOfUnique(s: string, c: char, r: int)
    requires -1 <= r < |s| && (r >= 0 ==> s[r] == c)
    requires forall k :: r < k < |s| ==> s[k] != c
    ensures LastIndexOf(s, c) == r
  {
    LastIndexOfIsLast(s, c);
  }

  /** The last `c` in `a + b` lies in `b` when `b` holds one, and otherwise where it lies in `a`. */
  lemma LastIndexOfAppend(a: string, b: string, c: char)
    ensures LastIndexOf(a + b, c) == if c in b then |a| + LastIndexOf(b, c) else LastIndexOf(a, c)
  {
    var ab := a + b;
    assert forall k :: 0 <= k < |a| ==> ab[k] == a[k];
    assert forall k :: |a| <= k < |ab| ==> ab[k] == b[k - |a|];
    LastIndexOfIsLast(a, c);
    LastIndexOfIsLast(b, c);
    if c in b {
      var q := LastIndexOf(b, c);
      assert ab[|a| + q] == c;
      LastIndexOfUnique(ab, c, |a| + q);
    } else {
      LastIndexOfUnique(ab, c, LastIndexOf(a, c));
    }
  }

  /** `os.path.basename`: everything after the last '/', the whole path when there is none. */
  function Basename(p: string): string {
    p[LastIndexOf(p, '/') + 1..]
  }

  /** The basename is the longest suffix of the path free of '/'. */
  lemma BasenameIsLastComponent(p: string)
    ensures '/' !in Basename(p)
    ensures |Basename(p)| <= |p| && p[|p| - |Basename(p)|..] == Basename(p)
    ensures |Basename(p)| < |p| ==> p[|p| - |Basename(p)| - 1] == '/'
  {
    LastIndexOfIsLast(p, '/');
  }

  /** Every character of `s` from index `lo` up to (not including) `hi` is a period. */
  predicate OnlyDots(s: string, lo: int, hi: int) {
    forall k :: lo <= k < hi && 0 <= k < |s| ==> s[k] == '.'
  }

  /**
   * Where `os.path.splitext` cuts on POSIX: at the last '.' of the last path component,
   * provided a character other than a period precedes it in that component (leading
   * periods are skipped, so ".png" has no extension); at the end of the path otherwise.
   */
  function ExtensionStart(p: string): (e: nat)
    ensures e <= |p|
  {
    var sep := LastIndexOf(p, '/');
    var dot := LastIndexOf(p, '.');
    if dot > sep && !OnlyDots(p, sep + 1, dot) then dot else |p|
  }

  /** `os.path.splitext`: the path before and from the cut. */
  function Splitext(p: string): (string, string) {
    var e := ExtensionStart(p);
    (p[..e], p[e..])
  }

  /**
   * The two parts put back together give the path, and the extension is empty or a period
   * followed by neither period nor '/'.
   */
  lemma SplitextParts(p: string)
    ensures Splitext(p).0 + Splitext(p).1 == p
    ensures var ext := Splitext(p).1;
      ext == [] || (ext[0] == '.' && forall k :: 0 < k < |ext| ==> ext[k] != '.' && ext[k] != '/')
  {
    LastIndexOfIsLast(p, '/');
    LastIndexOfIsLast(p, '.');
    var e := ExtensionStart(p);
    assert p[..e] + p[e..] == p;
  }

  /**
   * Where the cut falls in any path: an extension is split off exactly when the last '.'
   * follows the last '/' and some character other than a period lies between them (leading
   * periods are skipped); it is then everything from that last '.' on.
   */
  lemma SplitextCutPoint(p: string)
    ensures var sep, dot := LastIndexOf(p, '/'), LastIndexOf(p, '.');
      (Splitext(p).1 != [] <==> sep < dot && !OnlyDots(p, sep + 1, dot)) &&
      (Splitext(p).1 != [] ==> Splitext(p) == (p[..dot], p[dot..]))
  {
  }

  /** The component name without its extension: `os.path.splitext(name)[0]`. */
  function Stem(name: string): string {
    Splitext(name).0
  }

  /** `f"{os.path.splitext(name)[0]}_nobg.png"`: the output file name for `name`. */
  function OutputName(name: string): string {
    Stem(name) + OutputSuffix
  }

  /**
   * The output name ends with the suffix, and what precedes the suffix, followed by the
   * extension that was dropped, is the original name; no '/' is introduced.
   */
  lemma OutputNameParts(name: string)
    ensures var r := OutputName(name);
      |r| >= |OutputSuffix| && r[|r| - |OutputSuffix|..] == OutputSuffix &&
      r[..|r| - |OutputSuffix|] + Splitext(name).1 == name
    ensures '/' !in name ==> '/' !in OutputName(name)
  {
    SplitextParts(name);
    var stem := Stem(name);
    var r := stem + OutputSuffix;
    assert r[..|r| - |OutputSuffix|] == stem;
    assert r[|r| - |OutputSuffix|..] == OutputSuffix;
    if '/' !in name {
      forall k | 0 <= k < |stem| ensures stem[k] != '/' {
        assert stem[k] == name[k];
      }
      assert '/' !in OutputSuffix;
    }
  }

  /**
   * The default output path when none is given: the input's last component, its
   * extension dropped, with the suffix appended.
   */
  function DefaultOutputName(path: string): string {
    OutputName(Basename(path))
  }

  /** The default output name is a bare file name: it holds no directory at all. */
  lemma DefaultOutputNameParts(path: string)
    ensures var r, name := DefaultOutputName(path), Basename(path);
      '/' !in r &&
      |r| >= |OutputSuffix| && r[|r| - |OutputSuffix|..] == OutputSuffix &&
      r[..|r| - |OutputSuffix|] + Splitext(name).1 == name
  {
    BasenameIsLastComponent(path);
    OutputNameParts(Basename(path));
  }

  /** `os.path.join(a, b)` on POSIX for two components. */
  function Join(a: string, b: string): string {
    if |b| > 0 && b[0] == '/' then b
    else if a == [] || a[|a| - 1] == '/' then a + b
    else a + "/" + b
  }

  /** A name free of '/' joined onto any directory is the basename of the result. */
  lemma JoinBasename(dir: string, name: string)
    requires '/' !in name
    ensures Basename(Join(dir, name)) == name
  {
    if dir == [] || dir[|dir| - 1] == '/' {
      LastIndexOfAppend(dir, name, '/');
    } else {
      assert Join(dir, name) == (dir + "/") + name;
      LastIndexOfAppend(dir + "/", name, '/');
      LastIndexOfAppend(dir, "/", '/');
    }
  }

  /** The directory part of the input path never reaches the default output name. */
  lemma DefaultOutputDropsDirectory(dir: string, name: string)
    requires '/' !in name
    ensures DefaultOutputName(dir + "/" + name) == OutputName(name)
  {
    LastIndexOfAppend(dir + "/", name, '/');
    LastIndexOfAppend(dir, "/", '/');
  }

  /** A single-component root (not all periods) followed by one extension splits back into the two. */
  lemma SplitextOfExtended(root: string, ext: string)
    requires '/' !in root && !OnlyDots(root, 0, |root|)
    requires |ext| > 0 && ext[0] == '.' && '.' !in ext[1..] && '/' !in ext
    ensures Splitext(root + ext) == (root, ext)
  {
    var p := root + ext;
    LastIndexOfUnique(root, '/', -1);
    LastIndexOfAppend(root, ext, '/');
    LastIndexOfAppend(root, ext, '.');
    assert LastIndexOf(ext, '.') == 0 by {
      assert ext == [ext[0]] + ext[1..];
      LastIndexOfAppend([ext[0]], ext[1..], '.');
    }
    assert forall k :: 0 <= k < |root| ==> p[k] == root[k];
    assert p[..|root|] == root && p[|root|..] == ext;
  }

  /** A last component without any period has no extension. */
  lemma SplitextWithoutDot(p: string)
    ensures '.' !in Basename(p) ==> Splitext(p) == (p, [])
  {
    var sep := LastIndexOf(p, '/');
    var dot := LastIndexOf(p, '.');
    LastIndexOfIsLast(p, '.');
    if dot > sep {
      assert Basename(p)[dot - sep - 1] == p[dot] == '.';
    } else {
      assert ExtensionStart(p) == |p|;
      assert p[..|p|] == p && p[|p|..] == [];
      assert Splitext(p) == (p[..|p|], p[|p|..]);
    }
  }

  /** Two names with the same stem and different extensions collide on one output name. */
  lemma SameStemSameOutput(root: string, ext1: string, ext2: string)
    requires '/' !in root && !OnlyDots(root, 0, |root|)
    requires |ext1| > 0 && ext1[0] == '.' && '.' !in ext1[1..] && '/' !in ext1
    requires |ext2| > 0 && ext2[0] == '.' && '.' !in ext2[1..] && '/' !in ext2
    ensures OutputName(root + ext1) == OutputName(root + ext2) == root + OutputSuffix
  {
    SplitextOfExtended(root, ext1);
    SplitextOfExtended(root, ext2);
  }

  /** An ordinary name loses its extension: "photo.jpeg" becomes "photo_nobg.png". */
  lemma OutputNameOfPhoto()
    ensures OutputName("photo.jpeg") == "photo_nobg.png"
  {
    assert "photo.jpeg" == "photo" + ".jpeg";
    assert "photo"[0] == 'p';
    SplitextOfExtended("photo", ".jpeg");
    assert Stem("photo.jpeg") == "photo";
    assert "photo" + OutputSuffix == "photo_nobg.png";
  }

  /** Only the last of two extensions is dropped. */
  lemma OutputNameOfDoubleExtension()
    ensures OutputName("a.tar.jpg") == "a.tar_nobg.png"
  {
    assert "a.tar.jpg" == "a.tar" + ".jpg";
    assert "a.tar"[0] == 'a';
    SplitextOfExtended("a.tar", ".jpg");
    assert Stem("a.tar.jpg") == "a.tar";
    assert "a.tar" + OutputSuffix == "a.tar_nobg.png";
  }

  /** A dot-file such as ".png" has no extension to drop. */
  lemma OutputNameOfDotFile()
    ensures OutputName(".png") == ".png_nobg.png"
  {
    var p := ".png";
    assert p[3] == 'g' && p[2] == 'n' && p[1] == 'p' && p[0] == '.';
    assert LastIndexBelow(p, '.', 1) == 0;
    assert LastIndexBelow(p, '.', 4) == 0;
    assert LastIndexBelow(p, '/', 4) == -1;
    assert LastIndexOf(p, '.') == 0 && LastIndexOf(p, '/') == -1;
    assert OnlyDots(p, 0, 0);
    assert ExtensionStart(p) == |p|;
    assert p[..|p|] == p && p[|p|..] == [];
    assert Splitext(p) == (p[..|p|], p[|p|..]);
    assert Stem(p) == p;
    assert p + OutputSuffix == ".png_nobg.png";
  }
}
