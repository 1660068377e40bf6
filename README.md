# Target-size JPEG compression, modelled in Dafny

The photo compressor takes a decoded image and a target size in kilobytes. It
binary-searches the JPEG quality in [20, 100] and keeps, of the qualities it probes,
the encoding whose byte size is closest to the target. While that encoding is still too large, it shrinks the bitmap
to 0.9 of its width and height, at most ten times and never below 50 pixels, and
searches again each time. It then reports the last encoding with its size in KB, the
percentage saved and the final dimensions. Before all this, the decoder picks a
power-of-two subsampling factor so that large photos are decoded at reduced size.

The model has five modules:

- `KotlinInt` (`kotlin_int.dfy`): the 32-bit `Int` facts the code relies on.
  - `Wrap`: wrap-around of an exact result into an `Int`.
  - `Div`: `/`, which truncates toward zero.
- `Images` (`images.dfy`): the platform pieces.
  - A bitmap is its generation (0 for the decoded original, `k` after `k` downscales) and its dimensions.
  - The JPEG encoder is a deterministic function `(Bitmap, quality) -> bytes`, passed in as a parameter.
- `QualitySearch` (`quality_search.dfy`): `binarySearchQuality`.
  - `BinarySearchQuality` is a method with the source's `while` loop.
  - It is proved against the specification functions `Probes` (the qualities encoded, in order) and `SearchResult` (the closest probe, the first on ties, or the `minQuality` fallback).
  - Lemmas state what those functions promise.
- `Compressor` (`compressor.dfy`): `compressToTargetSize` after decoding.
  - `DownscaleLoop` is the loop of lines 53-93. It is proved against `PassCount` (how many downscales the loop makes), `Generation` (the bitmap after `k` downscales) and `PassResult` (the search result of pass `k`).
  - `CompressToTargetSize` computes the target in bytes, runs the loop, then computes the metrics and the clean-up. Its result is `Expected(...)`.
  - A ghost sequence records which bitmap generations are recycled, and in what order.
- `SampleSize` (`sample_size.dfy`): `calculateInSampleSize`, the doubling loop, proved against `InSampleSize`.

## Model

| member | source | states |
|---|---|---|
| KotlinInt.Wrap | app/src/main/java/com/photocompressor/kbsize/ImageCompressor.kt:56 | The `Int` result of an exact product is congruent to it modulo 2^32 and equals it when it fits |
| KotlinInt.Div | app/src/main/java/com/photocompressor/kbsize/ImageCompressor.kt:139 | Kotlin `/` by a positive divisor truncates toward zero: the quotient brackets a non-negative dividend from below and a negative one from above |
| QualitySearch.Narrow | app/src/main/java/com/photocompressor/kbsize/ImageCompressor.kt:151-164 | One pass moves the window to below or above the midpoint, or empties it on an exact match; the new window lies inside the old one and holds at most half of its qualities |
| QualitySearch.Probes | app/src/main/java/com/photocompressor/kbsize/ImageCompressor.kt:138-165 | The loop probes no quality exactly when `low > high` (the fallback encode at `minQuality` of line 167 is not a probe) |
| QualitySearch.Dists | app/src/main/java/com/photocompressor/kbsize/ImageCompressor.kt:142-143 | Entry `i` is `abs(size - target)` of the encoding at the `i`-th probed quality |
| QualitySearch.FirstMinIndex | app/src/main/java/com/photocompressor/kbsize/ImageCompressor.kt:146-149 | The position kept by an update on strict `<`: no entry is smaller, and every earlier entry is strictly larger |
| QualitySearch.TracksBestStep | app/src/main/java/com/photocompressor/kbsize/ImageCompressor.kt:142-149 | One strict-`<` update keeps `bestData`/`bestDiff` equal to the first closest encoding among the qualities probed so far |
| QualitySearch.TracksBestIsBestOf | app/src/main/java/com/photocompressor/kbsize/ImageCompressor.kt:167 | The tracked best, or the `minQuality` encoding when none was recorded, is the closest probe (first on ties) |
| QualitySearch.ScanTracksBest | app/src/main/java/com/photocompressor/kbsize/ImageCompressor.kt:138-149 | Updating over any sequence of qualities keeps the first-closest invariant |
| QualitySearch.RunSearchProbes | app/src/main/java/com/photocompressor/kbsize/ImageCompressor.kt:138-165 | The loop, early return included, encodes exactly the qualities `Probes` lists, after those already probed |
| QualitySearch.RunSearchScan | app/src/main/java/com/photocompressor/kbsize/ImageCompressor.kt:138-167 | The loop's return value, early return included, is the strict-`<` scan of `Probes`, settled by the fallback |
| QualitySearch.SearchOutcome | app/src/main/java/com/photocompressor/kbsize/ImageCompressor.kt:133-167 | From the initial state (`bestData = null`, `bestDiff = Int.MAX_VALUE`) the loop probes `Probes` and returns `SearchResult` |
| QualitySearch.BinarySearchQuality | app/src/main/java/com/photocompressor/kbsize/ImageCompressor.kt:127-168 | The loop encodes exactly the qualities `Probes` lists (plus the one fallback encode at `minQuality` when the range is empty) and the method returns `SearchResult`: the closest probed encoding, the first on ties, or the `minQuality` encoding for an empty range |
| QualitySearch.MidSplits | app/src/main/java/com/photocompressor/kbsize/ImageCompressor.kt:139 | `(low + high) / 2` lies in the window and leaves at most half of it on either side |
| QualitySearch.ProbesInWindow | app/src/main/java/com/photocompressor/kbsize/ImageCompressor.kt:133-139 | Every encoded quality lies in `[minQuality, maxQuality]` |
| QualitySearch.ProbesBound | app/src/main/java/com/photocompressor/kbsize/ImageCompressor.kt:138-165 | A window of `n` qualities is probed at most `Halvings(n)` times |
| QualitySearch.ProbesExactIsLast | app/src/main/java/com/photocompressor/kbsize/ImageCompressor.kt:160-163 | Only the last probe can hit the target exactly: no quality is tried after an exact match |
| QualitySearch.SearchExactMatch | app/src/main/java/com/photocompressor/kbsize/ImageCompressor.kt:160-163 | If a probed quality encodes to exactly the target size, it is the last probe, and its bytes (of exactly the target size) are returned |
| QualitySearch.SearchResultClosest | app/src/main/java/com/photocompressor/kbsize/ImageCompressor.kt:133-167 | For an empty range the result is the `minQuality` encoding. Otherwise it is the encoding of some probe, as close to the target as any probe and strictly closer than every earlier probe, so the fallback is never taken |
| QualitySearch.ConstantEncoderResult | app/src/main/java/com/photocompressor/kbsize/ImageCompressor.kt:146-167 | An encoder that ignores the quality makes the search return its bytes |
| QualitySearch.MonotoneBrackets | app/src/main/java/com/photocompressor/kbsize/ImageCompressor.kt:151-159 | Under the hypothesis that sizes grow with quality, qualities too large lie above an exact hit and qualities too small lie below it |
| QualitySearch.BracketedProbesHit | app/src/main/java/com/photocompressor/kbsize/ImageCompressor.kt:151-163 | A window that brackets an exact hit keeps it, and the search ends on a probe of exactly the target size |
| QualitySearch.MonotoneSearchHitsTarget | app/src/main/java/com/photocompressor/kbsize/ImageCompressor.kt:133-167 | Under the monotone hypothesis, if some quality in range encodes to exactly the target size, the result has exactly that size |
| QualitySearch.ClosestMayExceedTarget | app/src/main/java/com/photocompressor/kbsize/ImageCompressor.kt:146-149 | With no monotonicity, the closest probe can be larger than the target even though a lower quality fits |
| Compressor.TargetBytesWraps | app/src/main/java/com/photocompressor/kbsize/ImageCompressor.kt:56 | From 2097152 KB on, `targetSizeKB * 1024` as written is not the byte count. At 2097152 it is `Int.MIN_VALUE`, and every byte array is larger than it |
| Compressor.TargetSizeBytes | app/src/main/java/com/photocompressor/kbsize/ImageCompressor.kt:56 | Defined exactly for targets up to 2097151 KB, where it equals the code's product and lies in (0, `Int.MAX_VALUE`); larger targets are refused |
| Compressor.ScaledDimension | app/src/main/java/com/photocompressor/kbsize/ImageCompressor.kt:68-69 | `(d * 0.9).roundToInt()`: the result is within one half of 0.9 d, rounding a tie up |
| Compressor.Downscaled | app/src/main/java/com/photocompressor/kbsize/ImageCompressor.kt:77 | `createScaledBitmap` yields a new bitmap, one generation on |
| Compressor.Generation | app/src/main/java/com/photocompressor/kbsize/ImageCompressor.kt:53-82 | After `k` downscales the working bitmap is generation `k` |
| Compressor.PassCount | app/src/main/java/com/photocompressor/kbsize/ImageCompressor.kt:67-93 | The loop makes at most 10 downscales. It goes on after every earlier pass and stops after the counted one |
| Compressor.LoopExit | app/src/main/java/com/photocompressor/kbsize/ImageCompressor.kt:67-74 | The loop stops only because the result fits, ten downscales were made, or a new dimension would be below 50 |
| Compressor.DownscalesShrink | app/src/main/java/com/photocompressor/kbsize/ImageCompressor.kt:68-82 | Every downscale the loop makes gives dimensions of at least 50, strictly below the previous ones, equal to 0.9 of them rounded |
| Compressor.SearchProbesAtMostSeven | app/src/main/java/com/photocompressor/kbsize/ImageCompressor.kt:133-165 | Each search over [20, 100] encodes between one and seven qualities, all in [20, 100] |
| Compressor.LastPassMayBeFarther | app/src/main/java/com/photocompressor/kbsize/ImageCompressor.kt:85-90 | The reported data is the last pass's result, which can be farther from the target than an earlier pass's (2048 bytes off instead of 1) |
| Compressor.SizeKB | app/src/main/java/com/photocompressor/kbsize/ImageCompressor.kt:95 | Whole kilobytes, rounded down |
| Compressor.Clamp | app/src/main/java/com/photocompressor/kbsize/ImageCompressor.kt:97 | `coerceIn(lo, hi)`: the value if it is in range, else the nearer bound |
| Compressor.ReductionPercentage | app/src/main/java/com/photocompressor/kbsize/ImageCompressor.kt:96-98 | It is in [0, 100], and 0 when the original size is not positive or the result is no smaller. It is 100 when the result is under 1 KB. Otherwise it is the truncated percentage saved |
| Compressor.PercentageNoOverflow | app/src/main/java/com/photocompressor/kbsize/ImageCompressor.kt:97 | `(original - compressed) * 100` fits in an `Int` for every size the compressor sees |
| Compressor.RecycledOnce | app/src/main/java/com/photocompressor/kbsize/ImageCompressor.kt:79-106 | A run with `n` downscales recycles each of its `n + 1` bitmaps exactly once, with the original last |
| Compressor.DownscaleLoop | app/src/main/java/com/photocompressor/kbsize/ImageCompressor.kt:53-93 | The loop makes `PassCount` downscales, ends on that generation's bitmap with its search result, and inside the loop recycles generations 1 to `attempts - 1` in order, never the original |
| Compressor.CompressToTargetSize | app/src/main/java/com/photocompressor/kbsize/ImageCompressor.kt:45-117 | It fails when decoding failed or the target overflows. Otherwise it returns `Expected`: the last pass's data, its size in KB, the percentage, and the last bitmap's dimensions. It recycles every bitmap exactly once (original last). When decoding failed there is nothing to recycle; a refused target recycles only the original |
| SampleSize.Doublings | app/src/main/java/com/photocompressor/kbsize/ImageCompressor.kt:221-223 | The doubling stops at the first power of two where the loop condition fails: the condition held at every power from the start up to it |
| SampleSize.CalculateInSampleSize | app/src/main/java/com/photocompressor/kbsize/ImageCompressor.kt:209-228 | The loop's `Int` doubling never overflows and returns `InSampleSize` |
| SampleSize.SampleSizeIsLargest | app/src/main/java/com/photocompressor/kbsize/ImageCompressor.kt:214-227 | The factor is 1 unless a dimension exceeds the request. Above 1, both subsampled dimensions still reach the request. When a dimension exceeds the request, twice the factor takes one of them below it |
| SampleSize.DecodeRequestExamples | app/src/main/java/com/photocompressor/kbsize/ImageCompressor.kt:192 | With the 2048 by 2048 request: 4000×3000 gets 1, 8192×8192 gets 4, 8192×1000 gets 1 |

## Left out

- Two reads are not modelled: decoding the image (`decodeBitmapFromUri`) and reading its file size (`calculateOriginalSize`). Both are content-resolver I/O. Their results are inputs: `None` dimensions stand for a failed decode, and `originalSizeKB` is a number in [0, 2097151]. That range covers every `available() / 1024`.
- JPEG encoding (`Bitmap.compress`) and resampling (`Bitmap.createScaledBitmap`) are platform code. The encoder is an arbitrary deterministic function whose outputs fit in a `ByteArray`. A scaled bitmap is known only by its generation and dimensions. Monotone sizes are only a hypothesis of the lemmas that name `SizesMonotone`.
- ScaledDimension: `0.9f` and `roundToInt` are not modelled as floating point. The model computes 0.9·d exactly and rounds half up. The float product can differ from this only where 0.9·d is an exact tie.
- Coroutine dispatch and the catch-all `try`/`catch` are not modelled. No exception is reachable in the model's inputs. `Log` calls are not modelled either.
- BinarySearchQuality: requires a target below `Int.MAX_VALUE`. Every target of at most 2097151 KB meets this. Beyond that, the code's own product wraps (see Findings).
- CompressToTargetSize: requires `targetSizeKB > 0`, because the input screen refuses other targets before calling.
- CompressToTargetSize: targets above 2097151 KB return `Failure(TargetTooLarge)`. The source throws nothing there: it runs the search and the downscale loop on the wrapped product of line 56 and reports success (see Findings). The input screen's `toIntOrNull` lets such a target through, so the model does not capture what the app reports for it.
- CompressToTargetSize: reads `finalWidth`/`finalHeight` from the last bitmap after recycling it. The model takes the dimensions that bitmap had. Reading them after `recycle()` is not modelled as an error.
- BinarySearchQuality: accepts any `minQuality` and `maxQuality`. The `Int` overflow of `low + high` and `mid ± 1`, and `Bitmap.compress` accepting only qualities in [0, 100], are not modelled. Neither is reachable: the only calls pass 20 and 100.
- CalculateInSampleSize: requires positive requested sizes; the only call passes 2048. With both requested sizes at most 0, the doubling would wrap to 0 and divide by zero. That case is not modelled.
- The surrounding app is not part of this model: the UI, billing, ads, storage and theme files. They hold no compression logic.

## Findings

| source | as written | input that shows it | evidently intended | confidence | as-written member | corrected member |
|---|---|---|---|---|---|---|
| app/src/main/java/com/photocompressor/kbsize/ImageCompressor.kt:56 | `targetSizeKB * 1024` is an `Int` product and wraps | A typed target of 2097152 KB gives `Int.MIN_VALUE` bytes. Every result is then "too large", so the loop downscales until ten passes or the 50-pixel floor. Larger targets wrap to arbitrary values | the target's exact byte count, or refusing targets it cannot represent | high (not executed) | Compressor.TargetBytesWraps | Compressor.TargetSizeBytes |
