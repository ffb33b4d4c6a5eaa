/**
 * The path handling `process_image` (batch_blur.py) relies on: POSIX
 * os.path.basename, os.path.join of two components and os.path.splitext,
 * and the output file name derived from them.
 */
module Paths {

  /** str.rfind for one character: the index of the last c in s, or -1. */
  function RFind(s: string, c: char): (r: int)
    ensures -1 <= r < |s|
    ensures r >= 0 ==> s[r] == c
    ensures forall i :: r < i < |s| ==> s[i] != c
  {
    if s == [] then -1
    else if s[|s| - 1] == c then |s| - 1
    else RFind(s[..|s| - 1], c)
  }

  /** os.path.basename: whatever follows the last '/'. */
  function Basename(p: string): (b: string)
    ensures '/' !in b
    ensures |b| <= |p| && b == p[|p| - |b|..]
    ensures '/' !in p ==> b == p
    ensures |b| < |p| ==> p[|p| - |b| - 1] == '/'
  {
    p[RFind(p, '/') + 1..]
  }

  /**
   * os.path.join(a, b): b alone when it is absolute, otherwise a and b with
   * one '/' between them unless a is empty or already ends in '/'.
   */
  function Join(a: string, b: string): string {
    if |b| > 0 && b[0] == '/' then b
    else if a == [] || a[|a| - 1] == '/' then a + b
    else a + "/" + b
  }

  /**
   * The shape of os.path.join(a, b): it ends with b; an absolute b replaces
   * a; otherwise it starts with a, adds at most one character between, and
   * (for a non-empty a) has a '/' right before b.
   */
  lemma JoinShape(a: string, b: string)
    ensures var r := Join(a, b);
      |b| <= |r| && r[|r| - |b|..] == b
    ensures |b| > 0 && b[0] == '/' ==> Join(a, b) == b
    ensures var r := Join(a, b);
      !(|b| > 0 && b[0] == '/') ==> |a| + |b| <= |r| <= |a| + 1 + |b| && r[..|a|] == a
    ensures var r := Join(a, b);
      !(|b| > 0 && b[0] == '/') && a != [] ==> |r| > |b| && r[|r| - |b| - 1] == '/'
  {
  }

  /** Whether every character of s is a '.'. */
  predicate AllDots(s: string) {
    forall i :: 0 <= i < |s| ==> s[i] == '.'
  }

  /** Whether ext is an extension as splitext returns it: a '.' and then no '.' or '/'. */
  predicate DotExtension(ext: string) {
    |ext| > 0 && ext[0] == '.' && forall i :: 0 < i < |ext| ==> ext[i] != '.' && ext[i] != '/'
  }

  /**
   * Whether p[lo..hi] holds a character other than '.': the scan splitext
   * makes over the leading dots of the final path component.
   */
  predicate HasNonDot(p: string, lo: int, hi: int)
    requires 0 <= lo <= hi <= |p|
    decreases hi - lo
  {
    lo < hi && (p[lo] != '.' || HasNonDot(p, lo + 1, hi))
  }

  /** The scan finds a non-dot exactly when the slice is not all dots. */
  lemma {:induction false} HasNonDotIff(p: string, lo: int, hi: int)
    requires 0 <= lo <= hi <= |p|
    ensures HasNonDot(p, lo, hi) <==> !AllDots(p[lo..hi])
    decreases hi - lo
  {
    if lo < hi {
      HasNonDotIff(p, lo + 1, hi);
      assert p[lo..hi][0] == p[lo];
      assert forall i :: 1 <= i < hi - lo ==> p[lo..hi][i] == p[lo + 1..hi][i - 1];
    }
  }

  /**
   * os.path.splitext: split at the last '.' of the final path component,
   * unless only dots precede it in that component (".bashrc", "..png"), in
   * which case the extension is empty.
   */
  function SplitExt(p: string): (r: (string, string))
    ensures r.0 + r.1 == p
    ensures r.1 == [] || DotExtension(r.1)
  {
    var sep := RFind(p, '/');
    var dot := RFind(p, '.');
    if dot > sep && HasNonDot(p, sep + 1, dot) then
      TailAfterLast(p, sep, dot);
      (p[..dot], p[dot..])
    else
      (p, [])
  }

  /** The text from the last '.' on, when no '/' follows the '.', is a dotless extension. */
  lemma TailAfterLast(p: string, sep: int, dot: int)
    requires -1 <= sep < dot < |p|
    requires p[dot] == '.'
    requires forall i :: dot < i < |p| ==> p[i] != '.'
    requires forall i :: sep < i < |p| ==> p[i] != '/'
    ensures DotExtension(p[dot..])
  {
  }

  /** The name process_image writes to: the basename without its extension, then ".jpg". */
  function OutputName(imagePath: string): (name: string)
    ensures '/' !in name
    ensures |name| >= 4 && name[|name| - 4..] == ".jpg"
  {
    SplitExt(Basename(imagePath)).0 + ".jpg"
  }

  /** The basename of a file name joined to a folder is that file name. */
  lemma BasenameOfJoin(folder: string, name: string)
    requires '/' !in name
    ensures Basename(Join(folder, name)) == name
  {
    var p := Join(folder, name);
    var prefix := p[..|p| - |name|];
    assert p == prefix + name;
    assert prefix == [] || prefix[|prefix| - 1] == '/';
    var r := RFind(p, '/');
    if prefix != [] {
      assert p[|prefix| - 1] == '/';
    }
    assert forall i :: |prefix| <= i < |p| ==> p[i] == name[i - |prefix|];
  }

  /**
   * Splitting a dotless-extension file name: with a non-dot character before
   * the extension, splitext gives back exactly that root and extension; with
   * only dots before it, there is no extension at all.
   */
  lemma {:induction false} SplitExtOfName(root: string, ext: string)
    requires '/' !in root && DotExtension(ext)
    ensures SplitExt(root + ext) == if AllDots(root) then (root + ext, []) else (root, ext)
  {
    var p := root + ext;
    assert p[|root|] == '.';
    var dot := RFind(p, '.');
    assert forall i :: |root| < i < |p| ==> p[i] == ext[1..][i - |root| - 1];
    assert dot == |root|;
    assert RFind(p, '/') == -1 by {
      assert forall i :: 0 <= i < |p| ==> p[i] != '/' by {
        forall i | 0 <= i < |p| ensures p[i] != '/' {
          if i < |root| { assert p[i] == root[i]; } else { assert p[i] == ext[i - |root|]; }
        }
      }
    }
    assert p[0..dot] == root;
    assert p[dot..] == ext;
    HasNonDotIff(p, 0, dot);
  }

  /**
   * The output name of a file in a folder: its root plus ".jpg" when it has a
   * root, otherwise the whole name plus ".jpg" (".jpg" becomes ".jpg.jpg").
   */
  lemma OutputNameOfFile(folder: string, root: string, ext: string)
    requires '/' !in root && DotExtension(ext)
    ensures OutputName(Join(folder, root + ext)) == (if AllDots(root) then root + ext else root) + ".jpg"
  {
    BasenameOfJoin(folder, root + ext);
    SplitExtOfName(root, ext);
  }

  /**
   * Two files of one folder whose names differ only in their extensions are
   * written to the same output name, so the later one overwrites the other.
   */
  lemma OutputNamesCollide(folder: string, root: string, ext1: string, ext2: string)
    requires '/' !in root && !AllDots(root)
    requires DotExtension(ext1) && DotExtension(ext2)
    ensures OutputName(Join(folder, root + ext1)) == OutputName(Join(folder, root + ext2)) == root + ".jpg"
  {
    OutputNameOfFile(folder, root, ext1);
    OutputNameOfFile(folder, root, ext2);
  }

  // The example paths below are written as concatenations ("foo" + ".png",
  // [] + ".jpg") so that the verifier reasons about the root and the
  // extension as two parts instead of evaluating a long literal.

  /** input_images/foo.png and input_images/foo.PNG are both written as foo.jpg. */
  lemma OutputNameOfFooPng()
    ensures OutputName(Join("input_images", "foo" + ".png")) == "foo" + ".jpg"
    ensures OutputName(Join("input_images", "foo" + ".PNG")) == "foo" + ".jpg"
  {
    assert !AllDots("foo") by { assert "foo"[0] != '.'; }
    OutputNamesCollide("input_images", "foo", ".png", ".PNG");
  }

  /** A file named ".jpg" has no extension, so it is written as ".jpg.jpg". */
  lemma OutputNameOfDotJpg()
    ensures OutputName(Join("input_images", [] + ".jpg")) == ".jpg" + ".jpg"
  {
    assert DotExtension(".jpg");
    assert AllDots([]);
    OutputNameOfFile("input_images", [], ".jpg");
  }
}
