/**
 * `process_image` and `batch_process_images` (batch_blur.py): blur one
 * decoded image and name its output file, and run that over every image
 * file of a directory listing.
 *
 * Decoding (cv2.imread) is a foreign call: its outcome is an input, a map
 * from the paths that decode to their 8-bit grayscale pixels (a path absent
 * from the map fails to load). Encoding and writing (cv2.imwrite) are
 * modelled by the output folder's new contents: a map from output path to
 * the pixels written there.
 */
module Batch {
  import opened GaussianBlur
  import opened Launch
  import opened Paths
  import opened ImageFilter

  datatype Option<T> = None | Some(value: T)

  /** What process_image hands to cv2.imwrite: the output path and the uint8 pixels. */
  datatype Written = Written(path: string, pixels: array2<Byte>)

  /**
   * The stand-in for cv2.imread: the pixels of path when it decodes, or None
   * when it fails to load.
   */
  function Imread(images: map<string, array2<Byte>>, path: string): Option<array2<Byte>> {
    if path in images then Some(images[path]) else None
  }

  /** The path process_image writes the blurred version of imagePath to. */
  function OutputPath(outputFolder: string, imagePath: string): string {
    Join(outputFolder, OutputName(imagePath))
  }

  /**
   * The file process_image writes lies in the output folder under the output
   * name: its basename is OutputName(imagePath), a name ending in ".jpg".
   */
  lemma OutputPathName(outputFolder: string, imagePath: string)
    ensures Basename(OutputPath(outputFolder, imagePath)) == OutputName(imagePath)
  {
    BasenameOfJoin(outputFolder, OutputName(imagePath));
  }

  /** Whether out holds, cell by cell, the blurred and truncated version of input. */
  predicate IsBlurOf(input: array2<Byte>, out: array2<Byte>)
    reads input, out
  {
    out.Length0 == input.Length0 && out.Length1 == input.Length1 &&
    forall y, x :: 0 <= y < out.Length0 && 0 <= x < out.Length1 ==> out[y, x] == BlurredPixel(input, x, y)
  }

  /**
   * d_output.copy_to_host().astype(np.uint8): a new uint8 grid holding each
   * value of the device output truncated.
   */
  method ToUint8Image(src: array2<real>) returns (dst: array2<Byte>)
    requires forall y, x :: 0 <= y < src.Length0 && 0 <= x < src.Length1 ==> 0.0 <= src[y, x] < 256.0
    ensures fresh(dst) && dst.Length0 == src.Length0 && dst.Length1 == src.Length1
    ensures forall y, x :: 0 <= y < src.Length0 && 0 <= x < src.Length1 ==> dst[y, x] == ToUint8(src[y, x])
  {
    dst := new Byte[src.Length0, src.Length1];
    for y := 0 to src.Length0
      invariant forall i, j :: 0 <= i < y && 0 <= j < src.Length1 ==> dst[i, j] == ToUint8(src[i, j])
    {
      for x := 0 to src.Length1
        invariant forall i, j :: 0 <= i < y && 0 <= j < src.Length1 ==> dst[i, j] == ToUint8(src[i, j])
        invariant forall j :: 0 <= j < x ==> dst[y, j] == ToUint8(src[y, j])
      {
        dst[y, x] := ToUint8(src[y, x]);
      }
    }
  }

  /**
   * process_image: nothing is written when the image fails to load;
   * otherwise its blur, truncated to uint8, goes to the output folder under
   * its basename with the extension replaced by ".jpg".
   */
  method ProcessImage(imagePath: string, outputFolder: string, img: Option<array2<Byte>>)
    returns (written: Option<Written>)
    ensures img.None? ==> written.None?
    ensures img.Some? ==> written.Some? && written.value.path == OutputPath(outputFolder, imagePath)
    ensures img.Some? ==> fresh(written.value.pixels) && IsBlurOf(img.value, written.value.pixels)
  {
    if img.None? {
      return None;
    }
    var input := img.value;
    var height, width := input.Length0, input.Length1;
    var deviceOutput := new real[height, width];
    LaunchBlur(input, deviceOutput, width, height);
    forall y, x | 0 <= y < height && 0 <= x < width
      ensures 0.0 <= deviceOutput[y, x] < 256.0
    {
      NumeratorBounds(input, x, y);
    }
    var blurred := ToUint8Image(deviceOutput);
    written := Some(Written(OutputPath(outputFolder, imagePath), blurred));
  }

  /**
   * The write batch_process_images makes for one directory entry, as
   * (output path, input path): none when the name fails the extension filter
   * or the file fails to load.
   */
  function EntryWrite(inputFolder: string, outputFolder: string, decodable: set<string>, filename: string)
    : Option<(string, string)>
  {
    var path := Join(inputFolder, filename);
    if IsImageFile(filename) && path in decodable then Some((OutputPath(outputFolder, path), path)) else None
  }

  /** The writes of a whole directory listing, entry by entry in listing order. */
  function Writes(entry: string -> Option<(string, string)>, filenames: seq<string>): seq<Option<(string, string)>> {
    seq(|filenames|, j requires 0 <= j < |filenames| => entry(filenames[j]))
  }

  /** Listing one more entry appends that entry's write. */
  lemma WritesSnoc(entry: string -> Option<(string, string)>, filenames: seq<string>, i: nat)
    requires i < |filenames|
    ensures Writes(entry, filenames[..i + 1]) == Writes(entry, filenames[..i]) + [entry(filenames[i])]
  {
    var longer, shorter := Writes(entry, filenames[..i + 1]), Writes(entry, filenames[..i]);
    forall j | 0 <= j < i ensures longer[j] == shorter[j] {
      assert filenames[..i + 1][j] == filenames[..i][j];
    }
  }

  /** Whether the j-th of a sequence of writes goes to out. */
  predicate WritesAt(ws: seq<Option<(string, string)>>, j: int, out: string) {
    0 <= j < |ws| && ws[j].Some? && ws[j].value.0 == out
  }

  /**
   * The output folder after a sequence of writes, as a map from output path
   * to the input path whose blur is stored there: a later write to a path
   * replaces an earlier one.
   */
  function ApplyWrites(ws: seq<Option<(string, string)>>): map<string, string> {
    if ws == [] then map[]
    else
      var prev := ApplyWrites(ws[..|ws| - 1]);
      match ws[|ws| - 1]
      case None => prev
      case Some((out, path)) => prev[out := path]
  }

  /** An output path is in the folder exactly when some write goes to it. */
  lemma {:induction false} ApplyWritesKeys(ws: seq<Option<(string, string)>>, out: string)
    ensures out in ApplyWrites(ws) <==> exists j :: WritesAt(ws, j, out)
  {
    if ws != [] {
      var n := |ws| - 1;
      ApplyWritesKeys(ws[..n], out);
      if out in ApplyWrites(ws[..n]) {
        var j :| WritesAt(ws[..n], j, out);
        assert WritesAt(ws, j, out);
      }
      if !WritesAt(ws, n, out) {
        forall j | WritesAt(ws, j, out) ensures WritesAt(ws[..n], j, out) {
          assert ws[..n][j] == ws[j];
        }
      }
    }
  }

  /**
   * The folder holds, at each output path, the input of the last write that
   * went there: no later write goes to the same path.
   */
  lemma {:induction false} ApplyWritesLast(ws: seq<Option<(string, string)>>, out: string)
    requires out in ApplyWrites(ws)
    ensures exists j :: WritesAt(ws, j, out) && ws[j].value.1 == ApplyWrites(ws)[out] &&
                        forall k :: j < k < |ws| ==> !WritesAt(ws, k, out)
  {
    var n := |ws| - 1;
    if WritesAt(ws, n, out) {
      assert ws[n].value.1 == ApplyWrites(ws)[out];
    } else {
      ApplyWritesLast(ws[..n], out);
      var j :| WritesAt(ws[..n], j, out) && ws[..n][j].value.1 == ApplyWrites(ws[..n])[out] &&
        forall k :: j < k < n ==> !WritesAt(ws[..n], k, out);
      assert ws[..n][j] == ws[j];
      forall k | j < k < |ws| ensures !WritesAt(ws, k, out) {
        if k < n {
          assert ws[..n][k] == ws[k];
          assert !WritesAt(ws[..n], k, out);
        } else {
          assert k == n;
        }
      }
    }
  }

  /**
   * The output folder after batch_process_images over a directory listing,
   * mapping each output path to the input path whose blur ends up there.
   */
  function Outputs(inputFolder: string, outputFolder: string, decodable: set<string>, filenames: seq<string>)
    : map<string, string>
  {
    ApplyWrites(Writes(name => EntryWrite(inputFolder, outputFolder, decodable, name), filenames))
  }

  /** Whether the j-th entry of the listing writes to out. */
  predicate EntryWritesTo(entry: string -> Option<(string, string)>, filenames: seq<string>, j: int, out: string) {
    0 <= j < |filenames| && entry(filenames[j]).Some? && entry(filenames[j]).value.0 == out
  }

  /**
   * After a listing is processed with the per-entry writes entry, an output
   * path holds a file exactly when some entry writes to it. With entry as
   * EntryWrite this is the output folder of batch_process_images (Outputs).
   */
  lemma ListingOutputKeys(entry: string -> Option<(string, string)>, filenames: seq<string>, out: string)
    ensures out in ApplyWrites(Writes(entry, filenames)) <==> exists j :: EntryWritesTo(entry, filenames, j, out)
  {
    var ws := Writes(entry, filenames);
    ApplyWritesKeys(ws, out);
    if out in ApplyWrites(ws) {
      var j :| WritesAt(ws, j, out);
      assert EntryWritesTo(entry, filenames, j, out);
    }
    forall j | EntryWritesTo(entry, filenames, j, out) ensures WritesAt(ws, j, out) {
    }
  }

  /**
   * The file at an output path comes from the last entry of the listing that
   * writes to it.
   */
  lemma ListingOutputLast(entry: string -> Option<(string, string)>, filenames: seq<string>, out: string)
    requires out in ApplyWrites(Writes(entry, filenames))
    ensures exists j :: EntryWritesTo(entry, filenames, j, out) &&
                        entry(filenames[j]).value.1 == ApplyWrites(Writes(entry, filenames))[out] &&
                        forall k :: j < k < |filenames| ==> !EntryWritesTo(entry, filenames, k, out)
  {
    var ws := Writes(entry, filenames);
    ApplyWritesLast(ws, out);
    var last :| WritesAt(ws, last, out) && ws[last].value.1 == ApplyWrites(ws)[out] &&
      forall k :: last < k < |ws| ==> !WritesAt(ws, k, out);
    assert EntryWritesTo(entry, filenames, last, out);
    forall k | last < k < |filenames| ensures !EntryWritesTo(entry, filenames, k, out) {
      assert !WritesAt(ws, k, out);
    }
  }

  /**
   * Listing one more entry updates the output folder with that entry's write,
   * if it makes one.
   */
  lemma OutputsSnoc(inputFolder: string, outputFolder: string, decodable: set<string>, filenames: seq<string>, i: nat)
    requires i < |filenames|
    ensures var w := EntryWrite(inputFolder, outputFolder, decodable, filenames[i]);
      var prev := Outputs(inputFolder, outputFolder, decodable, filenames[..i]);
      Outputs(inputFolder, outputFolder, decodable, filenames[..i + 1]) ==
        if w.Some? then prev[w.value.0 := w.value.1] else prev
  {
    var entry := name => EntryWrite(inputFolder, outputFolder, decodable, name);
    WritesSnoc(entry, filenames, i);
    var ws := Writes(entry, filenames[..i + 1]);
    assert ws[..i] == Writes(entry, filenames[..i]);
  }

  /** Whether folder holds the earlier files existing overlaid with the blurs the writes outputs name. */
  predicate FolderAfter(folder: map<string, array2<Byte>>, existing: map<string, array2<Byte>>,
                        outputs: map<string, string>, images: map<string, array2<Byte>>)
    reads set out | out in outputs && out in folder :: folder[out]
    reads set out | out in outputs && outputs[out] in images :: images[outputs[out]]
  {
    folder.Keys == existing.Keys + outputs.Keys &&
    (forall out :: out in outputs ==> outputs[out] in images && IsBlurOf(images[outputs[out]], folder[out])) &&
    (forall p :: p in existing && p !in outputs ==> folder[p] == existing[p])
  }

  /** Writing the blur of an input to an output path keeps FolderAfter, with that write added. */
  lemma FolderStep(folder: map<string, array2<Byte>>, existing: map<string, array2<Byte>>,
                   outputs: map<string, string>, images: map<string, array2<Byte>>,
                   out: string, path: string, pixels: array2<Byte>)
    requires FolderAfter(folder, existing, outputs, images)
    requires path in images && IsBlurOf(images[path], pixels)
    ensures FolderAfter(folder[out := pixels], existing, outputs[out := path], images)
  {
  }

  /**
   * batch_process_images over a directory listing, into an output folder
   * that already holds the files existing: every entry that passes the
   * extension filter is processed in listing order. Afterwards the folder
   * holds its earlier files and the outputs of this run, the blur of the last
   * input written to a path replacing whatever was there.
   */
  method BatchProcessImages(inputFolder: string, outputFolder: string, filenames: seq<string>,
                            images: map<string, array2<Byte>>, existing: map<string, array2<Byte>>)
    returns (folder: map<string, array2<Byte>>)
    ensures var outputs := Outputs(inputFolder, outputFolder, images.Keys, filenames);
      folder.Keys == existing.Keys + outputs.Keys &&
      (forall out :: out in outputs ==> outputs[out] in images && IsBlurOf(images[outputs[out]], folder[out])) &&
      (forall p :: p in existing && p !in outputs ==> folder[p] == existing[p])
  {
    folder := existing;
    for i := 0 to |filenames|
      invariant FolderAfter(folder, existing, Outputs(inputFolder, outputFolder, images.Keys, filenames[..i]), images)
    {
      var filename := filenames[i];
      OutputsSnoc(inputFolder, outputFolder, images.Keys, filenames, i);
      ghost var prev := Outputs(inputFolder, outputFolder, images.Keys, filenames[..i]);
      ghost var w := EntryWrite(inputFolder, outputFolder, images.Keys, filename);
      if IsImageFile(filename) {
        var inputPath := Join(inputFolder, filename);
        var result := ProcessImage(inputPath, outputFolder, Imread(images, inputPath));
        if result.Some? {
          assert w == Some((result.value.path, inputPath));
          FolderStep(folder, existing, prev, images, result.value.path, inputPath, result.value.pixels);
          folder := folder[result.value.path := result.value.pixels];
        } else {
          assert w.None?;
        }
      } else {
        assert w.None?;
      }
    }
    assert filenames[..|filenames|] == filenames;
  }
}
