/**
 * The file-name test `batch_process_images` (batch_blur.py) applies to each
 * directory entry: its lower-cased name must end with one of five image
 * extensions.
 */
module ImageFilter {
  import opened Paths

  /** The suffixes an image file name may end with, in lower case. */
  const ImageExtensions: seq<string> := [".jpg", ".png", ".bmp", ".tiff", ".tif"]

  /** Whether c is an ASCII capital letter. */
  predicate IsUpper(c: char) {
    'A' <= c <= 'Z'
  }

  /**
   * str.lower on one character, for ASCII letters: a capital letter becomes
   * the small letter 32 code points above it, every other character is kept.
   */
  function LowerChar(c: char): (l: char)
    ensures !IsUpper(l)
    ensures IsUpper(c) ==> 'a' <= l <= 'z' && l as int == c as int + 32
    ensures !IsUpper(c) ==> l == c
    ensures l == '.' <==> c == '.'
    ensures l == '/' <==> c == '/'
  {
    if 'A' <= c <= 'Z' then (c as int - 'A' as int + 'a' as int) as char else c
  }

  /** str.lower: each character lower-cased. */
  function Lower(s: string): (r: string)
    ensures |r| == |s|
    ensures forall i :: 0 <= i < |s| ==> r[i] == LowerChar(s[i])
  {
    seq(|s|, i requires 0 <= i < |s| => LowerChar(s[i]))
  }

  /**
   * What str.lower does to a text: every capital letter is lowered to the
   * small letter 32 code points above it, nothing else changes, and no
   * capital letter is left.
   */
  lemma LowerCases(s: string)
    ensures var r := Lower(s);
      |r| == |s| &&
      (forall i :: 0 <= i < |s| ==> !IsUpper(r[i])) &&
      (forall i :: 0 <= i < |s| && !IsUpper(s[i]) ==> r[i] == s[i]) &&
      (forall i :: 0 <= i < |s| && IsUpper(s[i]) ==> r[i] as int == s[i] as int + 32)
  {
  }

  /** Lower-casing twice is lower-casing once. */
  lemma LowerIdempotent(s: string)
    ensures Lower(Lower(s)) == Lower(s)
  {
    var once := Lower(s);
    assert forall i :: 0 <= i < |s| ==> Lower(once)[i] == once[i];
  }

  /** The filter ignores letter case: a name passes exactly when its lower-cased form does. */
  lemma FilterIgnoresCase(name: string)
    ensures IsImageFile(Lower(name)) <==> IsImageFile(name)
  {
    LowerIdempotent(name);
  }

  /** Two names that lower-case alike are filtered alike ("photo.JPG" and "Photo.jpg"). */
  lemma SameLowerSameFilter(a: string, b: string)
    requires Lower(a) == Lower(b)
    ensures IsImageFile(a) <==> IsImageFile(b)
  {
    FilterIgnoresCase(a);
    FilterIgnoresCase(b);
  }

  /** str.endswith for one suffix. */
  predicate EndsWith(s: string, suffix: string) {
    |suffix| <= |s| && s[|s| - |suffix|..] == suffix
  }

  /** filename.lower().endswith((".jpg", ".png", ".bmp", ".tiff", ".tif")) */
  predicate IsImageFile(filename: string) {
    exists e :: e in ImageExtensions && EndsWith(Lower(filename), e)
  }

  /** Each image extension is a '.' followed by dotless, slashless letters. */
  lemma ImageExtensionShape(e: string)
    requires e in ImageExtensions
    ensures DotExtension(e)
  {
  }

  /** Lower-casing commutes with taking a suffix. */
  lemma LowerSuffix(s: string, k: nat)
    requires k <= |s|
    ensures Lower(s[k..]) == Lower(s)[k..]
  {
    assert forall i :: 0 <= i < |s| - k ==> Lower(s[k..])[i] == LowerChar(s[k + i]);
  }

  /** A text that lower-cases to an image extension has that extension's dots and slashes. */
  lemma ExtensionCaseShape(ext: string, e: string)
    requires DotExtension(e) && Lower(ext) == e
    ensures DotExtension(ext)
  {
    assert forall i :: 0 <= i < |ext| ==> LowerChar(ext[i]) == e[i];
  }

  /**
   * A slash-free name whose lower-cased form ends with a dotted extension e
   * is a stem followed by e in some letter case; splitext splits off exactly
   * that suffix unless the stem is only dots.
   */
  lemma SuffixSplit(name: string, e: string)
    requires '/' !in name
    requires DotExtension(e) && EndsWith(Lower(name), e)
    ensures var k := |name| - |e|;
      Lower(name[k..]) == e &&
      SplitExt(name) == if AllDots(name[..k]) then (name, []) else (name[..k], name[k..])
  {
    var k := |name| - |e|;
    SuffixCase(name, e);
    StemSlashFree(name, k);
    SplitExtOfName(name[..k], name[k..]);
  }

  /** The suffix of a name that lower-cases to a dotted extension e is itself a dotted extension. */
  lemma SuffixCase(name: string, e: string)
    requires DotExtension(e) && EndsWith(Lower(name), e)
    ensures Lower(name[|name| - |e|..]) == e && DotExtension(name[|name| - |e|..])
  {
    LowerSuffix(name, |name| - |e|);
    ExtensionCaseShape(name[|name| - |e|..], e);
  }

  /** Cutting a slash-free name in two gives two slash-free parts that join back to it. */
  lemma StemSlashFree(name: string, k: nat)
    requires '/' !in name && k <= |name|
    ensures '/' !in name[..k] && name == name[..k] + name[k..]
  {
    assert forall i :: 0 <= i < k ==> name[..k][i] == name[i];
  }

  /**
   * An accepted name is its stem followed by one of the image extensions in
   * any letter case. splitext agrees with the filter and splits off exactly
   * that extension, except when the stem is nothing but dots (".jpg",
   * "..png"): then splitext sees no extension at all.
   */
  lemma AcceptedNameSplit(name: string, e: string)
    requires '/' !in name
    requires e in ImageExtensions && EndsWith(Lower(name), e)
    ensures var k := |name| - |e|;
      Lower(name[k..]) == e &&
      SplitExt(name) == if AllDots(name[..k]) then (name, []) else (name[..k], name[k..])
  {
    ImageExtensionShape(e);
    SuffixSplit(name, e);
  }

  /**
   * Conversely, a name whose splitext extension is one of the image
   * extensions in any letter case passes the filter.
   */
  lemma ExtensionAccepted(name: string)
    requires Lower(SplitExt(name).1) in ImageExtensions
    ensures IsImageFile(name)
  {
    var (root, ext) := SplitExt(name);
    assert name[|root|..] == ext;
    LowerSuffix(name, |root|);
    assert EndsWith(Lower(name), Lower(ext));
  }

  /**
   * The file name of an accepted image in a folder yields the output name
   * stem + ".jpg", or the whole name + ".jpg" when the stem is only dots.
   */
  lemma AcceptedOutputName(folder: string, name: string, e: string)
    requires '/' !in name
    requires e in ImageExtensions && EndsWith(Lower(name), e)
    ensures var stem := name[..|name| - |e|];
      OutputName(Join(folder, name)) == (if AllDots(stem) then name else stem) + ".jpg"
  {
    AcceptedNameSplit(name, e);
    BasenameOfJoin(folder, name);
  }

  // The example names below are written as concatenations ("photo" + ".JPG"
  // rather than "photo.JPG") so that the verifier reasons about the stem and
  // the extension as two parts instead of evaluating a long literal.

  /** photo.JPG passes the filter. */
  lemma AcceptsPhotoJpg()
    ensures IsImageFile("photo" + ".JPG")
  {
    var jpg := "photo" + ".JPG";
    assert Lower(jpg)[|jpg| - 4..] == ".jpg";
    assert ".jpg" in ImageExtensions;
  }

  /** photo.txt does not pass the filter. */
  lemma RejectsPhotoTxt()
    ensures !IsImageFile("photo" + ".txt")
  {
    var txt := "photo" + ".txt";
    assert Lower(txt)[|txt| - 1] == 't' && Lower(txt)[|txt| - 2] == 'x';
  }

  /** photo, with no extension, does not pass the filter. */
  lemma RejectsPhoto()
    ensures !IsImageFile("photo")
  {
    assert Lower("photo")[4] == 'o';
  }
}
