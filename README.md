# Batch Gaussian blur — a Dafny model

This project models `batch_blur.py`, a script that blurs every image in a folder on a CUDA device and writes the results to an output folder. The model covers:

- **The stencil.** `gaussian_blur_kernel` is a work-item that computes one output cell. It returns at once outside the image. Otherwise it accumulates a 3x3 binomial neighbourhood with weights 1 2 1 / 2 4 2 / 1 2 1, each divided by 16. Neighbours that fall outside the image are skipped, and the weight they would have carried is not redistributed.
- **The launch.** Blocks hold 16 x 16 threads. The number of blocks per axis is the ceiling of the image size divided by 16. The launch itself is modelled as a sequential loop over every thread position.
- **Per-image processing.** `process_image` truncates the device output to uint8 and writes it to `<output folder>/<basename without its extension>.jpg`.
- **The batch loop.** `batch_process_images` keeps a directory entry when its lower-cased name ends with `.jpg`, `.png`, `.bmp`, `.tiff` or `.tif`.

The model uses exact arithmetic. Every input is an integer from 0 to 255 and every weight is k/16, so the stored value is S/16 for the integer numerator S = Σ weight·pixel, taken over the in-image neighbours. That value is modelled as a real number. The uint8 conversion is truncation, which equals S div 16.

The files are:

- `blur_kernel.dfy`, module `GaussianBlur`: the numerator, the work-item method and the lemmas about the stencil.
- `launch.dfy`, module `Launch`: the launch geometry and the sequential launch.
- `paths.dfy`, module `Paths`: POSIX `os.path.basename`, `os.path.join` of two components, `os.path.splitext` and the output file name.
- `image_filter.dfy`, module `ImageFilter`: the extension filter.
- `batch.dfy`, module `Batch`: `process_image` and `batch_process_images`. The decoded images are an input map. The output folder is a map from output path to pixels; it starts with its earlier contents.

## Model

| member | source | states |
|---|---|---|
| GaussianBlur.Numerator | batch_blur.py:61-67 | Definition, with no contract of its own: the integer numerator S, the sum over ky, kx in -1..1 of weight times pixel over the neighbours inside the image. NumeratorBounds, InteriorNumerator and UniformNumerator state its properties. |
| GaussianBlur.GaussianBlurKernel | batch_blur.py:53-69 | Outside the image (x ≥ width or y ≥ height) the output is unchanged. Inside, `output[y, x]` becomes the numerator over 16 and every other cell keeps its old value. |
| GaussianBlur.NumeratorBounds | batch_blur.py:63-69 | The numerator is between 0 and 255 times the pixel's coverage (the total weight of its in-image neighbours), and the coverage is at most 16. So every blurred value lies in [0, 256) and fits a uint8. |
| GaussianBlur.InteriorNumerator | batch_blur.py:59-67 | At an interior pixel, the numerator is the full nine-term weighted sum and the coverage is exactly 16. |
| GaussianBlur.UniformNumerator | batch_blur.py:63-67 | On a uniform image of value c, the numerator is c times the coverage: skipped weight is lost, not renormalised. |
| GaussianBlur.UniformBorderAttenuation | batch_blur.py:63-67 | On a uniform image of value c (at least 2x2), a corner pixel becomes 9c/16, an edge pixel 12c/16 and an interior pixel c, all truncated. |
| GaussianBlur.BlurredPixel | batch_blur.py:69 | The uint8 value of a pixel is the truncation of the stored S/16: it is ≤ S/16 and greater than S/16 − 1. |
| GaussianBlur.ToUint8 | batch_blur.py:87 | For a value in [0, 256), astype(uint8) gives the greatest integer not above it. |
| GaussianBlur.TruncateExact | batch_blur.py:87 | Truncating the real S/16 gives the integer quotient S div 16. |
| Launch.BlocksPerGrid | batch_blur.py:82-84 | (dim + 15) // 16 blocks cover dim (blocks·16 ≥ dim), one block fewer would not ((blocks−1)·16 < dim), and fewer than 16 threads per axis are spare. |
| Launch.GeometryFor | batch_blur.py:82-84 | The grid for a width x height image covers both axes, and one block fewer on either axis would not. |
| Launch.GridPosition | batch_blur.py:54 | cuda.grid(2) can be inverted: for a thread index below 16, the position divided by 16 is the block index and the remainder is the thread index, per axis. |
| Launch.GeometryOf17By1 | batch_blur.py:82-84 | A 17x1 image is launched with 2 blocks across and 1 block down. |
| Launch.EveryPixelHasOneThread | batch_blur.py:54-56 | Every pixel is the cuda.grid(2) position of a launched thread (block x/16, lane x%16 per axis), and of no other launched thread. |
| Launch.LaunchPositions | batch_blur.py:54 | The positions of the launched threads are exactly the rectangle [0, blocksX·16) x [0, blocksY·16). |
| Launch.LaunchBlur | batch_blur.py:82-85 | After the launch, every cell of the height x width output holds the blurred value of its pixel. |
| Paths.RFind | batch_blur.py:90 | Returns the index of the last occurrence of c, or −1, and no c occurs after that index. |
| Paths.Basename | batch_blur.py:90 | The basename has no '/' and is a suffix of the path. It is the whole path when the path has no '/', and otherwise the character right before it is '/', so it is exactly what follows the last '/'. |
| Paths.SplitExt | batch_blur.py:90 | root + ext is the path, and ext is either empty or a '.' followed by no '.' or '/'. |
| Paths.HasNonDotIff | batch_blur.py:90 | splitext's leading-dot scan finds a non-dot exactly when the slice is not all dots. |
| Paths.SplitExtOfName | batch_blur.py:90 | For a slash-free root and a dotted extension, splitext returns (root, ext). When the root is only dots (".jpg", "..png"), it returns (name, ""). |
| Paths.OutputName | batch_blur.py:90-91 | The output file name has no '/' and ends with ".jpg". |
| Paths.Join | batch_blur.py:103 | Definition, with no contract of its own: posixpath.join of two components. JoinShape states its shape. |
| Paths.JoinShape | batch_blur.py:103 | The join ends with its second part. An absolute second part replaces the first. Otherwise the join starts with the first part, adds at most one character, and has a '/' right before the second part when the first is non-empty. |
| Paths.BasenameOfJoin | batch_blur.py:103 | The basename of `os.path.join(folder, name)` is name, when name has no '/'. |
| Paths.OutputNameOfFile | batch_blur.py:90-91 | A file root + ext in a folder is written as root + ".jpg", or as root + ext + ".jpg" when the root is only dots. |
| Paths.OutputNamesCollide | batch_blur.py:90-91 | Two files of one folder that differ only in extension get the same output name, root + ".jpg". |
| Paths.OutputNameOfFooPng | batch_blur.py:90-91 | input_images/foo.png and input_images/foo.PNG are both written as foo.jpg. |
| Paths.OutputNameOfDotJpg | batch_blur.py:90-91 | A file named ".jpg" is written as ".jpg.jpg". |
| ImageFilter.LowerChar | batch_blur.py:102 | A capital ASCII letter becomes the small letter 32 code points above it, and every other character is kept, so no capital letter comes out. Only '.' lower-cases to '.', and only '/' to '/'. |
| ImageFilter.LowerCases | batch_blur.py:102 | str.lower keeps the length, lowers every capital letter by 32 code points, changes nothing else, and leaves no capital letter. |
| ImageFilter.LowerIdempotent | batch_blur.py:102 | Lower-casing twice is lower-casing once. |
| ImageFilter.IsImageFile | batch_blur.py:102 | Definition, with no contract of its own: the lower-cased name ends with one of ".jpg", ".png", ".bmp", ".tiff", ".tif". The lemmas below state its properties. |
| ImageFilter.FilterIgnoresCase | batch_blur.py:102 | A name passes the filter exactly when its lower-cased form does. |
| ImageFilter.SameLowerSameFilter | batch_blur.py:102 | Two names that lower-case alike are both accepted or both rejected. |
| ImageFilter.LowerSuffix | batch_blur.py:102 | Lower-casing commutes with taking a suffix. |
| ImageFilter.AcceptedNameSplit | batch_blur.py:102 | An accepted name ends with an image extension in some letter case. splitext removes exactly that suffix, unless the stem before it is only dots. |
| ImageFilter.ExtensionAccepted | batch_blur.py:102 | A name whose splitext extension lower-cases to an image extension passes the filter. |
| ImageFilter.AcceptedOutputName | batch_blur.py:90-103 | An accepted file of a folder is written as stem + ".jpg", or as name + ".jpg" when the stem is only dots. |
| ImageFilter.AcceptsPhotoJpg | batch_blur.py:102 | photo.JPG is accepted. |
| ImageFilter.RejectsPhotoTxt | batch_blur.py:102 | photo.txt is rejected. |
| ImageFilter.RejectsPhoto | batch_blur.py:102 | photo, with no extension, is rejected. |
| Batch.ToUint8Image | batch_blur.py:87 | Produces a fresh uint8 grid of the same shape, each cell the truncation of the device value. |
| Batch.OutputPath | batch_blur.py:90-91 | Definition, with no contract of its own: the output folder joined with OutputName(imagePath). OutputPathName states its meaning. |
| Batch.OutputPathName | batch_blur.py:90-91 | The basename of the path process_image writes to is the output name: the input's basename without its extension, then ".jpg". |
| Batch.ProcessImage | batch_blur.py:72-94 | A failed load writes nothing. Otherwise the blur of every pixel, truncated, is written to the output folder under the basename with ".jpg". |
| Batch.EntryWrite | batch_blur.py:101-104 | Definition, with no contract of its own: the write one directory entry causes, namely (OutputPath, input path) when the name passes the filter and the file decodes, and nothing otherwise. |
| Batch.WritesSnoc | batch_blur.py:101-104 | Listing one more entry appends that entry's write. |
| Batch.ApplyWrites | batch_blur.py:93-104 | Definition, with no contract of its own: the output paths after a sequence of writes, each mapped to the input of its latest write. ApplyWritesKeys and ApplyWritesLast state its meaning. |
| Batch.ApplyWritesKeys | batch_blur.py:93-104 | After a sequence of writes, an output path holds a file exactly when some write went to it. |
| Batch.ApplyWritesLast | batch_blur.py:93-104 | A path holds the input of the last write that went there; no later write went to it. |
| Batch.ListingOutputKeys | batch_blur.py:93-104 | Over a directory listing, an output path holds a file exactly when some entry of the listing writes to it. |
| Batch.ListingOutputLast | batch_blur.py:93-104 | The file at an output path comes from the last entry of the listing that writes to it: no later entry writes there. |
| Batch.Outputs | batch_blur.py:97-104 | Definition, with no contract of its own: the writes of batch_process_images over a listing, applied in listing order. ListingOutputKeys, ListingOutputLast and OutputsSnoc state its meaning. |
| Batch.OutputsSnoc | batch_blur.py:101-104 | Processing one more entry of the listing adds that entry's write, if it makes one, over the earlier outputs. |
| Batch.FolderStep | batch_blur.py:93 | Writing the blur of an input to an output path keeps the folder invariant: the earlier files plus the blurs of the writes so far, now with this write added. |
| Batch.BatchProcessImages | batch_blur.py:97-104 | The output folder afterwards holds its earlier files plus the output paths of the accepted, decodable entries. Each such path holds the truncated blur of the last input written there. Every earlier file that no entry overwrites is unchanged. |

## Left out

- **Decoding and encoding.** `cv2.imread` and `cv2.imwrite` are foreign library calls. Decoding is an input map from path to 8-bit grayscale pixels; a missing path is a load failure. Writing is an update of the output-folder map. JPEG encoding loss is not modelled.
- **Diagnostics.** The "Failed to load" and "Processed" prints produce no state.
- **Output folder creation.** `os.path.exists` and `os.makedirs` are not modelled; the folder's earlier contents are a parameter of `BatchProcessImages`, and an absent folder is one with no files.
- Batch.BatchProcessImages: the decoded images are fixed when the run starts, so a file the run writes is never read back in the same run. When the input and output folders are the same, an entry listed after another whose output overwrote it ("a.jpg" after "a.png") is decoded from the file the run just wrote, with JPEG loss, and that is blurred; the model blurs the original file. Folders are told apart by their path strings: two spellings of one folder ("d" and "d/.") are treated as different folders.
- **Listing order.** `os.listdir` order is an input sequence; no particular order is assumed.
- **Device transfers.** `cuda.to_device`, `device_array` and `copy_to_host` are not modelled. The float32 copy of 8-bit input is exact, so the kernel reads the bytes directly.
- **Parallel scheduling.** Work-items share no state and each writes at most its own cell, so the launch is a sequential loop over thread positions.
- **Floating point.** Every partial sum is a multiple of 1/16 no greater than 255, which float32 represents exactly, so the accumulated `pixel_value` is the exact real S/16.
- GaussianBlur.ToUint8: requires a value in [0, 256). numpy's behaviour on out-of-range casts is not modelled, and NumeratorBounds shows the kernel never produces such a value.
- ImageFilter.LowerChar: lower-cases ASCII letters only. Python's full Unicode `str.lower` is not modelled.
- Paths.Join: models `os.path.join` for two components on POSIX only.
- Paths.SplitExt: models POSIX `os.path.splitext` only (separator '/', no alternate separator).
- **Module-level driver.** The hard-coded folders `input_images` and `output_images` are parameters of `BatchProcessImages`.
