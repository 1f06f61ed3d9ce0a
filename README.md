# Background-removal page: a Dafny model

This project models the deterministic rules of a client-side background-removal
page: the canvas size its resize step picks for an oversized image, the fallback to
the original file when encoding fails, the checks on an uploaded file, the choice of
removal model from the file name, the alpha pass that softens edges in the cut-out's
RGBA buffer, the simulated progress counter, the state each page keeps and how its
handlers change it, and the name offered for download.

Modules follow the source:

- `ImageUtils` (`src/utils/imageUtils.ts`): `TargetDims`, the resize rule, and
  `ResizeImage`, the file `resizeImage` resolves with.
- `RemoveBg` (`src/removebg.tsx`): the page's own copy of the resize rule as a method
  over reassigned `width`/`height`, proved equal to `TargetDims`; `ChooseModel`; and
  the class `PageState` with one method per handler.
- `RemoveBgPage` (`src/pages/RemoveBgPage.tsx`): the progress tick and its iteration,
  and the class `PageState` of that page, which also keeps `progress`.
- `ResultDisplay` (`src/components/layout/ResultDisplay.tsx`): the download name.
- Shared by both pages, which repeat the same code: `Upload` (file checks) and
  `EdgeSoftening` (the alpha pass, an in-place method on an `array` of bytes proved
  against the pixel-by-pixel function `Attenuated`).
- Helpers: `JsMath` (`Math.round` of an integer quotient), `Text` (`startsWith`,
  ASCII case folding, substring search), `Media` (bytes and files), `Wrappers`
  (`Option`, standing for JavaScript's `null`).

Modelling choices:

- `Math.round(p / q)` for integers `p >= 0`, `q > 0` is `(2p + q) / (2q)`: the nearest
  integer, halves rounded up. `Math.round(a * 0.9)` for a byte is the nearest integer
  to `9a/10`, halves up: the floating-point product of a byte and 0.9 lands on the
  same side of every half-integer as the exact product.
- The regular expression `/selfie|face|portrait/i` is a search of the three words in
  the name after mapping 'A'..'Z' to 'a'..'z'. With the `i` flag and no `u` flag, a
  non-ASCII character never matches an ASCII letter, so this is exact.
- `/\.[^/.]+$/` matches at most at one place: a dot followed by at least one
  character, with no '/' or '.' after it. `ResultDisplay.MatchStart` scans for it from
  the end of the name.
- Each asynchronous run is split into the synchronous start (`BeginRemoval`), the
  interval's firings (`ProgressTick`, on the page that has them) and the completion
  (`CompleteRemoval`). The completion takes the file captured when the run started,
  as the handler's closure does, not the file current at the end.
- The browser and the removal library are parameters of `CompleteRemoval`:
  `encode` (draw on a canvas of the given size and encode it in the given type),
  `removal` (call the removal library with a model, then decode the result and read
  its RGBA pixels; `None` when any of these throws), and `toPng` (encode the pixels
  as PNG and create an object URL; `None` for a null blob). The decoded size of the
  image, `natural`, is a parameter too.
- The pixel loop reads `data[i + 3]` also for a trailing group shorter than four
  bytes; in JavaScript that read gives `undefined`, which is not below 255, so the
  model leaves such bytes alone. A buffer from `getImageData` always has a length
  divisible by four.

Behaviour of the code worth knowing:

- A square image over the bound is clamped by height: the width test is strict
  (`width > height`), not `width >= height`.
- The size rule does not keep dimensions positive: a 10000x1 image gets height 0
  (`ImageUtils.ThinStripRoundsToZero`).
- An image that cannot be decoded is not a reported failure: `resizeImage` sets no
  error handler, so its promise never settles and the run never completes; in the
  model `CompleteRemoval` is then never called and `loading` stays true.
- Neither page clears an earlier result when a run starts, so a failed run leaves a
  previous result in place; `RemoveBgPage` does not clear an earlier error either.
- The softened alpha becomes 0 only when it was 0, and the values 1 to 5 are left
  unchanged (`EdgeSoftening.SoftenAlphaDecreases`).

## Model

| member | source | states |
|---|---|---|
| `JsMath.RoundDiv` | src/utils/imageUtils.ts:9 | `Math.round(p/q)` is within half a unit of `p/q`: `q(2r-1) <= 2p < q(2r+1)` |
| `JsMath.RoundDivUnique` | src/utils/imageUtils.ts:12 | no other integer satisfies those bounds, so they define the rounding |
| `JsMath.RoundDivAtMost` | src/utils/imageUtils.ts:9 | rounding a quotient that is at most `k` gives at most `k` |
| `JsMath.RoundDivMonotone` | src/utils/imageUtils.ts:9 | rounding is monotone in the numerator |
| `ImageUtils.ScaledSideBounds` | src/utils/imageUtils.ts:9-12 | the scaled side is at most the bound and at most its own natural length |
| `ImageUtils.TargetDims` | src/utils/imageUtils.ts:7-14 | both target sides are at most `maxSize`, and neither exceeds the natural side |
| `ImageUtils.WithinBoundUnchanged` | src/utils/imageUtils.ts:8-14 | an image within the bound on both sides keeps its size |
| `ImageUtils.WideImageClampedByWidth` | src/utils/imageUtils.ts:8-10 | width strictly greater than height and the bound: width becomes `maxSize`, height the nearest integer to `height*maxSize/width` |
| `ImageUtils.TallImageClampedByHeight` | src/utils/imageUtils.ts:11-13 | otherwise, height over the bound (square images included): height becomes `maxSize`, width the nearest integer to `width*maxSize/height` |
| `ImageUtils.OversizedReachesBound` | src/utils/imageUtils.ts:8-13 | an oversized image ends with its longer target side exactly `maxSize` |
| `ImageUtils.ScaledSideMonotone` | src/utils/imageUtils.ts:8-13 | for a fixed width, a larger natural height never gives a smaller target height, in whichever branch |
| `ImageUtils.DefaultBoundExamples` | src/utils/imageUtils.ts:1-14 | at the default 2048, 4000x2000 becomes 2048x1024, 800x600 is kept, 3000x3000 becomes 2048x2048 |
| `ImageUtils.ThinStripRoundsToZero` | src/utils/imageUtils.ts:8-10 | 10000x1 becomes 2048x0: positivity is not kept |
| `ImageUtils.ResizeImage` | src/utils/imageUtils.ts:24-27 | the result keeps name and MIME type; a blob gives its bytes, no blob gives the original file |
| `RemoveBg.ResizeDims` | src/removebg.tsx:23-30 | the page's copy computes exactly `ImageUtils.TargetDims`, so the same bound and no upsizing |
| `Text.StartsWith` | src/removebg.tsx:49 | `s.startsWith(p)` holds exactly when `s` is `p` followed by some string |
| `Upload.IsImageType` | src/pages/RemoveBgPage.tsx:24 | the type test holds exactly when the type is "image/" followed by some subtype |
| `Text.LowerAscii` | src/removebg.tsx:107 | 'A'..'Z' map to 'a'..'z' (code point plus 32); every other character is unchanged |
| `Text.Fold` | src/removebg.tsx:107 | the folded name has the same length and each character is folded by `LowerAscii` |
| `RemoveBg.LooksLikePortrait` | src/removebg.tsx:107 | the `i`-flag regular expression test holds exactly when one of the three words occurs in the folded name |
| `Text.Contains` | src/removebg.tsx:107 | true exactly when the pattern occurs at some index of the name |
| `Text.MissingFirstLetter` | src/removebg.tsx:107 | a pattern whose first letter is absent from the name does not occur in it |
| `RemoveBg.ChooseModel` | src/removebg.tsx:107-109 | `"isnet"` exactly when "selfie", "face" or "portrait" occurs in the case-folded name, `"isnet_fp16"` otherwise |
| `RemoveBg.ChooseModelIgnoresCase` | src/removebg.tsx:107 | folding the name's letter case does not change the choice |
| `RemoveBg.ChooseModelExamples` | src/removebg.tsx:107-109 | "My_SELFIE.jpg" selects `"isnet"`, "cat.png" selects `"isnet_fp16"` |
| `Upload.Validate` | src/removebg.tsx:49-56 | accepted exactly when the type starts with "image/" and the size is at most 10 MiB; a wrong type gives the type message whatever the size |
| `Upload.LimitIsInclusive` | src/removebg.tsx:53-56 | exactly 10485760 bytes is accepted, 10485761 is refused with the size message |
| `RemoveBg.PageState.constructor` | src/removebg.tsx:7-11 | no file, preview, result or error, not loading |
| `RemoveBg.PageState.HandleFile` | src/removebg.tsx:48-60 | a refused file only sets the message and leaves file and result; an accepted one sets `file` and clears error and result |
| `RemoveBg.PageState.PreviewRead` | src/removebg.tsx:62-64 | the reader's data URL becomes the preview; nothing else changes |
| `RemoveBg.PageState.RemoveFile` | src/removebg.tsx:86-92 | file, preview, result and error all become null |
| `RemoveBg.PageState.BeginRemoval` | src/removebg.tsx:94-101 | without a file only the "select an image" error is set and `loading` is unchanged; with one the error is cleared and `loading` set |
| `RemoveBg.PageState.CompleteRemoval` | src/removebg.tsx:103-139 | the resized file goes to the model chosen from the name; failure sets the error and keeps the result; success stores the URL of the softened pixels when encoding gives a blob; `loading` ends false |
| `EdgeSoftening.NineTenths` | src/removebg.tsx:127 | `Math.round(a*0.9)`: `10r - 5 <= 9a < 10r + 5` |
| `EdgeSoftening.SoftenAlpha` | src/removebg.tsx:127 | 255 stays 255; a lower alpha becomes the nearest integer to `0.9a`, halves up |
| `EdgeSoftening.SoftenAlphaClosedForm` | src/removebg.tsx:127 | for `a < 255` the softened alpha is `(9a + 5) / 10` |
| `EdgeSoftening.SoftenAlphaDecreases` | src/removebg.tsx:127 | never raises an alpha; 0 and only 0 gives 0; exactly 0..5 and 255 are fixed |
| `EdgeSoftening.SoftenAlphaTwice` | src/removebg.tsx:127 | 200 gives 180, and 180 gives 162 |
| `EdgeSoftening.Attenuated` | src/removebg.tsx:126-128 | the buffer after the pass has the same length as before |
| `EdgeSoftening.AttenuatedAt` | src/removebg.tsx:126-128 | bytes at indices 3, 7, 11, ... are softened, every other byte is untouched |
| `EdgeSoftening.AttenuatedKeepsOpaque` | src/removebg.tsx:126-128 | an opaque alpha stays 255 and no alpha rises |
| `EdgeSoftening.AttenuatedNotIdempotent` | src/removebg.tsx:126-128 | a second pass changes a buffer the first pass produced |
| `EdgeSoftening.SoftenEdges` | src/pages/RemoveBgPage.tsx:75-76 | the in-place loop leaves the buffer equal to `Attenuated` of its old contents |
| `RemoveBgPage.Tick` | src/pages/RemoveBgPage.tsx:53 | `Math.min(prev + 5, 95)`: at most both operands and equal to one of them |
| `RemoveBgPage.TickWithinCap` | src/pages/RemoveBgPage.tsx:53 | from 0..95 a tick stays in 0..95, never goes down, and is fixed only at 95 |
| `RemoveBgPage.ProgressAfterClosedForm` | src/pages/RemoveBgPage.tsx:49-53 | after `n` ticks from 0 the progress is `min(5n, 95)` |
| `RemoveBgPage.ProgressMonotoneAndCapped` | src/pages/RemoveBgPage.tsx:49-53 | progress is non-decreasing, never above 95, and is 95 exactly from the 19th tick on |
| `RemoveBgPage.PageState.constructor` | src/pages/RemoveBgPage.tsx:12-17 | no file, preview, result or error, not loading, progress 0 |
| `RemoveBgPage.PageState.HandleFileSelect` | src/pages/RemoveBgPage.tsx:23-31 | same checks and order as the other page; refusal only sets the message, acceptance sets `file` and clears error and result |
| `RemoveBgPage.PageState.PreviewRead` | src/pages/RemoveBgPage.tsx:33-35 | the reader's data URL becomes the preview; nothing else changes |
| `RemoveBgPage.PageState.RemoveFile` | src/pages/RemoveBgPage.tsx:38-43 | the four file fields become null; `loading` and `progress` stay |
| `RemoveBgPage.PageState.BeginRemoval` | src/pages/RemoveBgPage.tsx:45-49 | without a file no field changes; with one `loading` is set and progress is 0 |
| `RemoveBgPage.PageState.ProgressTick` | src/pages/RemoveBgPage.tsx:52-54 | one interval firing: progress becomes `min(progress + 5, 95)`, nothing else changes |
| `RemoveBgPage.PageState.CompleteRemoval` | src/pages/RemoveBgPage.tsx:56-91 | the model is always `"isnet_fp16"`; success sets progress 100 and stores the URL of the softened pixels when there is a blob; failure sets the error and progress 0; `loading` ends false |
| `ResultDisplay.ExtensionAt` | src/components/layout/ResultDisplay.tsx:15 | `/\.[^/.]+$/` matches at `i` exactly when `s[i]` is a dot followed by a non-empty rest containing no '/' and no '.' |
| `ResultDisplay.ExtensionUnique` | src/components/layout/ResultDisplay.tsx:15 | the pattern matches a name at most at one index |
| `ResultDisplay.MatchStart` | src/components/layout/ResultDisplay.tsx:15 | the scan returns the index where the pattern matches, or none when it matches nowhere |
| `ResultDisplay.StripExtension` | src/components/layout/ResultDisplay.tsx:15 | the replacement cuts the name at the matching dot, or keeps it whole when nothing matches |
| `ResultDisplay.StripExtensionCharacterized` | src/components/layout/ResultDisplay.tsx:15 | when the pattern matches at `i`, the stem is exactly the name's first `i` characters |
| `ResultDisplay.DownloadName` | src/components/layout/ResultDisplay.tsx:15 | the download name is the stripped name followed by ".png" |
| `ResultDisplay.DownloadNameShape` | src/components/layout/ResultDisplay.tsx:15 | the download name ends with ".png" and what precedes it is a prefix of the original name |
| `ResultDisplay.NoDotKeepsName` | src/components/layout/ResultDisplay.tsx:15 | a name without a dot gets ".png" appended to the whole name |
| `ResultDisplay.DownloadNameExamples` | src/components/layout/ResultDisplay.tsx:15 | "photo" to "photo.png", "a.tar.gz" to "a.tar.png", "dir.x/file" to "dir.x/file.png", "a." to "a..png", ".bashrc" to ".png" |

## Left out

- Decoding and encoding images (`FileReader`, `Image`, `createImageBitmap`, canvas
  drawing, `toBlob`, image smoothing): browser I/O, passed in as parameters.
- The `blur(...) saturate(1.1)` canvas filter: floating-point pixel filtering by the
  browser; its output is part of the `removal` parameter's pixels.
- The removal library itself: an external model call, a parameter that succeeds or fails.
- Timers and event-loop ordering: `setInterval`/`clearInterval` appear only as the
  `ProgressTick` method, which requires that a run be in flight (the interval exists
  only between the start and the end of a run, while `loading` is true). The `toBlob`
  callback that stores the result fires after the `finally` block in the code; the
  model stores it in `CompleteRemoval`, in the same step.
- Interleaving of handlers with a run in flight (removing or selecting a file while a
  run is pending) is possible in the model only through the split methods; no policy
  is proved about it.
- Drag-and-drop handling (`handleDrag`, `handleDrop`, `handleImageUpload`, and
  `FileUpload`): event forwarding; its only rule is that `dragActive` is true for
  "dragenter" and "dragover".
- Rendering, `URL.createObjectURL`, `console.error`, the `toFixed(2)` size display,
  the reset of the file input (`inputRef.current.value = ""`) in `removeFile` of
  `src/removebg.tsx`,
  the fixed download name "no-bg.png" of `src/removebg.tsx`, and the components
  `ProgressButton`, `Button`, `ImagePreview` and `App`: display only.
