# img-cmpr in Dafny

A model of the batch image compressor `img-cmpr`. The program walks the `images` directory tree. It picks the files whose lowercased extension is `.jpg`, `.jpeg`, `.png` or `.webp` and decodes each one. Decoded images whose format tag is "png" or "webp" are copied into a full-colour RGBA image first. Only the GIF, JPEG and PNG decoders are registered (main.go:7-9), and `image.Decode` picks the decoder by sniffing the file's bytes, not its name. So a `.webp` file holding WebP data fails to decode, and one holding PNG, JPEG or GIF data decodes with that format's tag. The "webp" branch of the tag test (main.go:85) is therefore never taken in the program as written. Then it re-encodes the image as JPEG under the mirrored `img_cmp` tree. The encoding starts at quality 100 and steps down by 5 until it fits in 480 KiB; below quality 10 the program gives up.

Modules:

- `QualitySearch` (quality_search.dfy): the loop of `compressImage`. The JPEG encoder is a parameter `encode` from a quality level to an encoded byte length or a failure, and the write's outcome is a parameter `writeOk`. `Run` is the search written as a function. `CompressSearch` is the loop as a method, proved equal to `Run`. The lemmas state the order of the levels, the bound on attempts, the ceiling, first fit in both directions, encoder-error abort and the no-fit case. Nothing assumes that the encoded size falls with the quality.
- `Raster` (raster.dfy): a decoded image is a rectangle of bounds plus a two-dimensional array of colours. Its `At` and `Set` behave like Go's `image.RGBA`: outside the bounds, `At` gives transparent black and `Set` does nothing.
- `Normalize` (normalize.dfy): `convertToRGB` as a nested loop that fills a freshly allocated image.
- `Compress` (compress.dfy): `compressImage` as a whole. It takes the outcome of opening and decoding, decides on normalisation from the format tag, and runs the search on the resulting image.
- `WalkPaths` (walk_paths.dfy): the walk callback. It covers the extension filter and the output path. A path is a sequence of components.

Two behaviours of the code are worth knowing.

- `photo.PNG` becomes `photo.PNG.jpg`, not `photo.jpg`. The code lowercases the extension to `.png` and then trims that lowercased extension from the base name. `strings.TrimSuffix` is case-sensitive, so `.PNG` is not removed. See `WalkPaths.UppercaseExtKept` and `WalkPaths.WalkUppercaseExt`.
- The loop visits 19 quality levels, 100 down to 10 inclusive, so it encodes at most 19 times. See `QualitySearch.LadderOfLevels` and `QualitySearch.TriedInOrder`.

## Model

| member | source | states |
|---|---|---|
| `QualitySearch.Fits` | main.go:97-98 | the size test `float64(len)/1024 <= 480` holds exactly when the length is at most 491520 bytes (inclusive ceiling) |
| `QualitySearch.Run` | main.go:89-104 | the definition of the search as a function of the encoder: encode at the current level; stop on an encoder error; accept a fitting length; otherwise go down by 5 while at least 10. `RunShape` and the first-fit lemmas state its properties |
| `QualitySearch.Levels` | main.go:89-101 | defined as `q - 5*i` for `i < LevelCount(q)`. Its ensures give the count, that every level is at least 10, and that the next one down would be below 10 |
| `QualitySearch.LadderOfLevels` | main.go:21-23 | from 100 the ladder has nineteen levels, `100 - 5*i`, from 100 to 10 |
| `QualitySearch.RunShape` | main.go:89-104 | the search tries a prefix of the ladder, in order. Every level before the last one tried was encoded and was too large. An accepted level's length is within the ceiling, and an error stop is at a level whose encoding failed. No fit means every level was tried and rejected |
| `QualitySearch.CompressSearch` | main.go:89-104 | the loop hands the encoder exactly the levels of `Run`. It hands the write one buffer, the accepted one, or none. It returns true exactly when a level was accepted and the write succeeded |
| `QualitySearch.TriedInOrder` | main.go:89-102 | the levels tried are 100, 95, ... in strictly decreasing order, and there are at most 19 attempts |
| `QualitySearch.RunStopsAtFirstDecisive` | main.go:90-101 | from any start, the search stops at the first level that is not rejected, after trying exactly the levels above it |
| `QualitySearch.AcceptedIsFirstFit` | main.go:90-101 | an accepted level is on the ladder and its length is within the ceiling. Every higher level was encoded and exceeded the ceiling |
| `QualitySearch.FirstFitIsAccepted` | main.go:90-101 | conversely, the highest level that fits, with every higher level rejected, is the level accepted |
| `QualitySearch.EncodeErrorAborts` | main.go:92-95 | an encoder error at a reached level stops the search there. Only that level and those above it were tried, and nothing is written |
| `QualitySearch.NoFitIffAllTooLarge` | main.go:90-104 | the search finds no fit exactly when every level from 100 to 10 encoded to more than the ceiling |
| `Raster.Image.constructor` | main.go:109 | a new image has the given bounds and every pixel transparent black |
| `Raster.Image.At` | main.go:112 | outside the bounds the colour is transparent black |
| `Raster.Image.Set` | main.go:112 | storing a colour inside the bounds changes that point only; outside the bounds nothing changes |
| `Normalize.ConvertToRGB` | main.go:108-116 | the result is a fresh image with the source's bounds and the source's colour at every point. The source is not modified, and an empty rectangle gives an empty image |
| `Compress.NeedsNormalization` | main.go:85 | the definition of the tag test: "png" or "webp". `CompressImage` states what follows from it |
| `Compress.CompressImage` | main.go:67-104 | an open or decode failure, or no image, gives false with nothing encoded or written. A "png" or "webp" tag sends a fresh pixel-identical copy to the encoder, and any other tag sends the decoded image itself. The levels tried, the write and the result are those of the search on that image |
| `WalkPaths.Ext` | main.go:39 | the extension is the suffix from the last dot on. It is empty exactly when the name has no dot |
| `WalkPaths.ExtAfterLastDot` | main.go:39 | a name `stem.tail` whose `tail` has no dot has extension `.tail` |
| `WalkPaths.ToLower` | main.go:39 | lowercasing keeps the length. It folds ASCII letters only (see the `ToLower` line under "## Left out") |
| `WalkPaths.ToLowerFolds` | main.go:39 | position by position: no upper-case ASCII letter is left, an upper-case letter becomes its lower-case partner, and every other character is kept |
| `WalkPaths.Supported` | main.go:40 | the lookup in the allow-list of main.go:26-31, with a missing key reading as false, holds exactly for ".jpg", ".jpeg", ".png" and ".webp" |
| `WalkPaths.Base` | main.go:51 | the last component of a non-empty path, so the path is its other components followed by the base. The empty path gives "." |
| `WalkPaths.Dir` | main.go:49 | a relative path of one component (or none) has no directory part, because `filepath.Join` drops the "." that `filepath.Dir` gives. Otherwise the relative path is its directory part followed by its base |
| `WalkPaths.TrimSuffix` | main.go:51 | the suffix, compared exactly, is removed when the string ends with it. Otherwise the string is unchanged |
| `WalkPaths.ToLowerIdempotent` | main.go:39 | lowercasing keeps the length and is idempotent |
| `WalkPaths.OutputName` | main.go:51 | the definition of the output file name: the base with the lowercased extension trimmed, then `.jpg`. `LowercaseExtReplaced` and `UppercaseExtKept` state its two cases |
| `WalkPaths.Visit` | main.go:34-51 | the definition of the walk callback: abort on a walk error, skip directories and unsupported extensions, otherwise compress into the mirrored output path. `VisitCompressesExactly`, `OutputMirrorsInput` and the `Walk*` lemmas state its properties |
| `WalkPaths.VisitCompressesExactly` | main.go:34-42 | an entry is compressed exactly when no walk error was reported, it is not a directory, and its lowercased extension is one of the four allowed. A walk error aborts the walk. A compressed entry has at least one relative component |
| `WalkPaths.OutputMirrorsInput` | main.go:44-51 | the output path keeps the input's relative directories, with `img_cmp` in place of `images`, and its name ends in `.jpg` |
| `WalkPaths.LowercaseExtReplaced` | main.go:51 | when the extension is already lower case, the output name is the base without it, plus `.jpg` |
| `WalkPaths.UppercaseExtKept` | main.go:39-51 | when the extension has an upper-case letter, the output name is the whole base plus `.jpg` |
| `WalkPaths.WalkLowercaseExt` | main.go:39-51 | `images/dirs/stem.png` is compressed into `img_cmp/dirs/stem.jpg`, for any directories, stem and allowed lower-case extension |
| `WalkPaths.WalkUppercaseExt` | main.go:39-51 | `images/dirs/stem.PNG` is compressed into `img_cmp/dirs/stem.PNG.jpg`, for any extension with an upper-case letter whose lowercase is allowed |
| `WalkPaths.WalkSkipsOtherExt` | main.go:39-42 | a file whose lowercased extension is not allowed, such as `notes.txt`, is skipped |

## Left out

- Opening, closing and decoding the input file (main.go:68-82) are not modelled. They become the `Decoding` input: open failure, decode failure, or an image with its format tag. Closing the handle on every path is not modelled. The `Decoding` input allows any tag, including "webp". The program never produces that tag, because no WebP decoder is registered (main.go:7-9, line 14 is only a comment).
- The JPEG encoder (main.go:92) is the parameter `encode`, a function of the image reference and the quality level. It cannot read the heap, so it depends on which image object it is handed, not on that image's pixels. No contract relies on the encoder looking at pixels. Its output bytes are represented by their length only.
- Writing the file (main.go:99) is the boolean `writeOk`. The model says nothing about what is left on disk when the write fails.
- The colour-model conversion done by `image.RGBA.Set` and the source's `At` (main.go:112) is not modelled. Colours are copied as opaque values.
- The directory traversal of `filepath.Walk`, `filepath.Rel`, `os.MkdirAll` (whose error is ignored) and the `fmt` logging (main.go:34-64) are not modelled. Only the per-entry decision is: an entry is its path relative to the walk root, whether it is a directory, and whether the walk reported an error.
- Paths are sequences of components, and `filepath.Join` and `Clean` become concatenation of components. Lexical cleaning of arbitrary path text (`.`, `..`, repeated separators) is not modelled.
- `filepath.Rel` cannot fail for entries below the walk root, so its error branch (main.go:45-47) is not modelled.
- `WalkPaths.ToLower` folds ASCII letters only. Unicode case mapping is not modelled.
- `QualitySearch.Fits` does the size test in exact rational arithmetic. It agrees with the float64 test for every length below 2^53.
- `Raster.Image.constructor` requires well-formed bounds (min at most max on both axes). `image.NewRGBA` panics on any other rectangle, and decoders never produce one.
