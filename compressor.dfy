/** `compressToTargetSize`: a quality search on the decoded bitmap, then up to ten
    passes that shrink both dimensions by 0.9 and search again while the result is
    still larger than the target, and finally the size metrics of the last result. */
module Compressor {
  import opened KotlinInt
  import opened Images
  import opened QualitySearch

  const MIN_QUALITY: int := 20
  const MAX_QUALITY: int := 100
  /** The most downscale passes after the first search. */
  const MAX_ATTEMPTS: nat := 10
  /** A downscale to a width or height below this is refused. */
  const MIN_DIMENSION: int := 50
  /** The largest number of kilobytes whose byte count is an `Int` (2097151). Both the
      target and the original size, which is an `Int` byte count divided by 1024, are
      at most this. */
  const MAX_KB: int := INT_MAX / 1024

  // ---------------------------------------------------------------------------
  // Target size in bytes

  /** `targetSizeKB * 1024` as the code computes it: a 32-bit product that wraps. */
  function TargetBytesAsWritten(targetSizeKB: int): int {
    Wrap(targetSizeKB * 1024)
  }

  /** From 2097152 KB on the product no longer fits an `Int`: at 2097152 it wraps to
      `Int.MIN_VALUE`, and every byte array is then "larger than the target", so the
      downscale loop runs on a target no result can meet. */
  lemma TargetBytesWraps(targetSizeKB: int)
    requires MAX_KB < targetSizeKB <= INT_MAX
    ensures TargetBytesAsWritten(targetSizeKB) != targetSizeKB * 1024
    ensures TargetBytesAsWritten(MAX_KB + 1) == INT_MIN
    ensures forall data: seq<byte> :: |data| > TargetBytesAsWritten(MAX_KB + 1)
  {
    assert TargetBytesAsWritten(MAX_KB + 1) == Wrap(0x8000_0000);
  }

  /** The target in bytes, for targets whose byte count is an `Int`; larger targets are
      refused instead of wrapping. Where it is defined it agrees with the code. */
  function TargetSizeBytes(targetSizeKB: int): (r: Option<int>)
    requires 0 < targetSizeKB
    ensures r.Some? <==> targetSizeKB <= MAX_KB
    ensures r.Some? ==> r.value == targetSizeKB * 1024 == TargetBytesAsWritten(targetSizeKB)
    ensures r.Some? ==> 0 < r.value < INT_MAX && Div(r.value, 1024) == targetSizeKB
  {
    if targetSizeKB <= MAX_KB then Some(targetSizeKB * 1024) else None
  }

  // ---------------------------------------------------------------------------
  // Downscaling

  /** `(d * 0.9f).roundToInt()`, computed exactly: `0.9 * d` rounded half up. */
  function ScaledDimension(d: int): (r: int)
    ensures 10 * r - 5 <= 9 * d < 10 * r + 5
  {
    (9 * d + 5) / 10
  }

  /** The bitmap `Bitmap.createScaledBitmap` makes from `b`: the next generation, with
      both dimensions scaled by 0.9. */
  function Downscaled(b: Bitmap): (s: Bitmap)
    ensures s.generation == b.generation + 1
  {
    Bitmap(b.generation + 1, ScaledDimension(b.width), ScaledDimension(b.height))
  }

  /** The loop's guard against a downscale: one of the new dimensions is below 50. */
  predicate TooSmall(b: Bitmap) {
    ScaledDimension(b.width) < MIN_DIMENSION || ScaledDimension(b.height) < MIN_DIMENSION
  }

  /** The bitmap after `k` downscales of `original`. */
  function Generation(original: Bitmap, k: nat): (b: Bitmap)
    ensures b.generation == original.generation + k
  {
    if k == 0 then original else Downscaled(Generation(original, k - 1))
  }

  lemma GenerationStep(original: Bitmap, k: nat)
    ensures Generation(original, k + 1) == Downscaled(Generation(original, k))
  {
  }

  /** The quality search the loop runs on each bitmap, as a function of the bitmap. */
  type Search = Bitmap -> seq<byte>

  /** `binarySearchQuality(bitmap, targetSizeBytes, MIN_QUALITY, MAX_QUALITY)`. */
  function QualitySearchFor(encode: Encoder, target: int): Search {
    b => SearchResult(encode, b, target, MIN_QUALITY, MAX_QUALITY)
  }

  /** The search result of pass `k` (pass 0 is the search on the decoded bitmap). */
  function PassResult(search: Search, original: Bitmap, k: nat): seq<byte> {
    search(Generation(original, k))
  }

  /** The loop goes on after pass `k`: the result is too large, fewer than ten downscales
      were made, and the next downscale is not too small. */
  predicate Continues(search: Search, original: Bitmap, target: int, k: nat) {
    k < MAX_ATTEMPTS && |PassResult(search, original, k)| > target && !TooSmall(Generation(original, k))
  }

  /** The number of downscales the loop makes when it has made `k` and goes on from
      there: the first pass at or after `k` after which the loop stops. */
  function PassCount(search: Search, original: Bitmap, target: int, k: nat): (n: nat)
    requires k <= MAX_ATTEMPTS
    ensures k <= n <= MAX_ATTEMPTS
    ensures !Continues(search, original, target, n)
    ensures forall j :: k <= j < n ==> Continues(search, original, target, j)
    decreases MAX_ATTEMPTS - k
  {
    if Continues(search, original, target, k) then PassCount(search, original, target, k + 1) else k
  }

  /** The loop stops for one of its three reasons: the result fits, ten downscales were
      made, or the next downscale would go below 50 pixels. */
  lemma LoopExit(search: Search, original: Bitmap, target: int)
    ensures var n := PassCount(search, original, target, 0);
      |PassResult(search, original, n)| <= target || n == MAX_ATTEMPTS || TooSmall(Generation(original, n))
  {
  }

  /** Every downscale the loop makes yields dimensions of at least 50, strictly smaller
      than the previous ones and equal to 0.9 times them, rounded. */
  lemma DownscalesShrink(search: Search, original: Bitmap, target: int, k: nat)
    requires 1 <= k <= PassCount(search, original, target, 0)
    ensures var prev := Generation(original, k - 1);
      var b := Generation(original, k);
      && MIN_DIMENSION <= b.width < prev.width
      && MIN_DIMENSION <= b.height < prev.height
      && 10 * b.width - 5 <= 9 * prev.width < 10 * b.width + 5
      && 10 * b.height - 5 <= 9 * prev.height < 10 * b.height + 5
  {
    assert Continues(search, original, target, k - 1);
  }

  /** Every search the loop runs encodes at most seven qualities, all within
      [`MIN_QUALITY`, `MAX_QUALITY`]. */
  lemma SearchProbesAtMostSeven(encode: Encoder, b: Bitmap, target: int)
    ensures 1 <= |Probes(encode, b, target, MIN_QUALITY, MAX_QUALITY)| <= 7
    ensures forall i :: 0 <= i < |Probes(encode, b, target, MIN_QUALITY, MAX_QUALITY)| ==>
      MIN_QUALITY <= Probes(encode, b, target, MIN_QUALITY, MAX_QUALITY)[i] <= MAX_QUALITY
  {
    ProbesBound(encode, b, target, MIN_QUALITY, MAX_QUALITY);
    ProbesInWindow(encode, b, target, MIN_QUALITY, MAX_QUALITY);
    assert Halvings(0) == 0;
    assert Halvings(1) == 1;
    assert Halvings(2) == 2;
    assert Halvings(5) == 3;
    assert Halvings(10) == 4;
    assert Halvings(20) == 5;
    assert Halvings(40) == 6;
    assert Halvings(81) == 7;
  }

  /** The loop keeps the last pass's result, not the closest one: here the decoded
      bitmap encodes to 2049 bytes at every quality and the downscaled one to 0 bytes,
      against a target of 2 KB. Pass 0 misses by one byte, the loop downscales once, and
      the reported result misses by 2048 bytes. */
  lemma LastPassMayBeFarther()
    ensures var encode: Encoder := (b: Bitmap, q: int) => if b.generation == 0 then Zeros(2049) else [];
      var original := Bitmap(0, 100, 100);
      var search := QualitySearchFor(encode, 2048);
      && PassCount(search, original, 2048, 0) == 1
      && Dist(|PassResult(search, original, 0)|, 2048) == 1
      && Dist(|PassResult(search, original, 1)|, 2048) == 2048
      && Expected(encode, Some(Dimensions(100, 100)), 0, 2) == Success(CompressionResult([], 0, 0, 0, 90, 90))
  {
    var encode: Encoder := (b: Bitmap, q: int) => if b.generation == 0 then Zeros(2049) else [];
    var original := Bitmap(0, 100, 100);
    var search := QualitySearchFor(encode, 2048);
    var scaled := Bitmap(1, 90, 90);
    assert Generation(original, 1) == scaled;
    ConstantEncoderResult(encode, original, 2048, MIN_QUALITY, MAX_QUALITY, Zeros(2049));
    ConstantEncoderResult(encode, scaled, 2048, MIN_QUALITY, MAX_QUALITY, []);
    assert PassResult(search, original, 0) == Zeros(2049);
    assert PassResult(search, original, 1) == [];
    assert Continues(search, original, 2048, 0);
    assert !Continues(search, original, 2048, 1);
    assert PassCount(search, original, 2048, 1) == 1;
  }

  // ---------------------------------------------------------------------------
  // Metrics

  /** `size / 1024`: whole kilobytes, rounded down. */
  function SizeKB(size: nat): (r: nat)
    ensures r * 1024 <= size < (r + 1) * 1024
  {
    Div(size, 1024)
  }

  /** `x.coerceIn(lo, hi)`. */
  function Clamp(x: int, lo: int, hi: int): (r: int)
    requires lo <= hi
    ensures lo <= r <= hi
    ensures lo <= x <= hi ==> r == x
    ensures x < lo ==> r == lo
    ensures x > hi ==> r == hi
  {
    if x < lo then lo else if x > hi then hi else x
  }

  /** The reported reduction: `(original - compressed) * 100 / original` with Kotlin's
      truncating division, clamped to [0, 100], and 0 when the original size is not
      positive. */
  function ReductionPercentage(originalSizeKB: int, compressedSizeKB: int): (r: int)
    ensures 0 <= r <= 100
    ensures originalSizeKB <= 0 ==> r == 0
    ensures 0 < originalSizeKB <= compressedSizeKB ==> r == 0
    ensures 0 < originalSizeKB && compressedSizeKB <= 0 ==> r == 100
    ensures 0 < originalSizeKB && 0 <= compressedSizeKB <= originalSizeKB ==>
      r * originalSizeKB <= (originalSizeKB - compressedSizeKB) * 100 < (r + 1) * originalSizeKB
  {
    if originalSizeKB > 0 then
      var q := Div((originalSizeKB - compressedSizeKB) * 100, originalSizeKB);
      QuotientBounds(originalSizeKB, compressedSizeKB, q);
      Clamp(q, 0, 100)
    else 0
  }

  /** `a * o < b * o` with `o` positive gives `a < b`. */
  lemma CancelFactor(a: int, b: int, o: int)
    requires o > 0 && a * o < b * o
    ensures a < b
  {
    assert (b - a) * o == b * o - a * o;
  }

  /** Where the unclamped quotient lies, by how the compressed size compares with the
      original. */
  lemma QuotientBounds(o: int, c: int, q: int)
    requires o > 0 && q == Div((o - c) * 100, o)
    ensures c >= o ==> q <= 0
    ensures c <= 0 ==> q >= 100
    ensures 0 <= c <= o ==> 0 <= q <= 100
  {
    var x := (o - c) * 100;
    if c >= o {
      assert x <= 0;
      if x < 0 {
        CancelFactor(q - 1, 0, o);
      } else {
        CancelFactor(q, 1, o);
      }
    }
    if c <= 0 {
      assert x >= 100 * o;
      CancelFactor(99, q + 1, o);
    }
    if 0 <= c <= o {
      CancelFactor(q, 101, o);
    }
  }

  /** Within the sizes the compressor sees, the percentage's product stays in `Int`. */
  lemma PercentageNoOverflow(originalSizeKB: int, compressedSizeKB: int)
    requires 0 <= originalSizeKB <= MAX_KB && 0 <= compressedSizeKB <= MAX_KB
    ensures IsInt((originalSizeKB - compressedSizeKB) * 100)
  {
  }

  // ---------------------------------------------------------------------------
  // The whole operation

  datatype CompressionResult = CompressionResult(
    compressedData: seq<byte>,
    originalSizeKB: int,
    compressedSizeKB: int,
    compressionPercentage: int,
    finalWidth: int,
    finalHeight: int)

  datatype Error = DecodeFailed | TargetTooLarge

  datatype Result<T> = Success(value: T) | Failure(error: Error)

  /** What `compressToTargetSize` returns for a decoded bitmap of the given dimensions
      (`None` when decoding failed), the original size and the target: the result of the
      last pass, on the bitmap of that pass. */
  function Expected(encode: Encoder, decoded: Option<Dimensions>, originalSizeKB: int, targetSizeKB: int): Result<CompressionResult>
    requires 0 < targetSizeKB
  {
    if decoded.None? then Failure(DecodeFailed)
    else match TargetSizeBytes(targetSizeKB)
      case None => Failure(TargetTooLarge)
      case Some(target) =>
        var original := Bitmap(0, decoded.value.width, decoded.value.height);
        var search := QualitySearchFor(encode, target);
        var n := PassCount(search, original, target, 0);
        var data := PassResult(search, original, n);
        var b := Generation(original, n);
        var kb := SizeKB(|data|);
        Success(CompressionResult(data, originalSizeKB, kb, ReductionPercentage(originalSizeKB, kb), b.width, b.height))
  }

  /** The generations `lo`, ..., `hi - 1`, in order. */
  function Range(lo: int, hi: int): seq<int> {
    seq(if lo <= hi then hi - lo else 0, i => lo + i)
  }

  /** Releasing generation `hi` after `lo`, ..., `hi - 1`. */
  lemma RangeSnoc(lo: int, hi: int)
    requires lo <= hi
    ensures Range(lo, hi) + [hi] == Range(lo, hi + 1)
  {
    assert forall i :: 0 <= i < hi - lo ==> (Range(lo, hi) + [hi])[i] == Range(lo, hi + 1)[i];
  }

  /** The bitmaps released by a run that made `n` downscales: each of the `n + 1`
      bitmaps once, the original last. */
  lemma RecycledOnce(n: nat)
    ensures var r := Range(1, n + 1) + [0];
      && |r| == n + 1
      && r[n] == 0
      && (forall g :: 0 <= g <= n ==> g in r)
      && (forall i, j :: 0 <= i < j < |r| ==> r[i] != r[j])
  {
    var r := Range(1, n + 1) + [0];
    forall g | 0 <= g <= n
      ensures g in r
    {
      if g == 0 {
        assert r[n] == 0;
      } else {
        assert r[g - 1] == g;
      }
    }
  }

  /** Lines 53-93 of `compressToTargetSize`: the first search on `original`, then the
      downscale loop. Returns the last bitmap and its search result; `attempts` counts the
      downscales and `recycled` lists the generations released inside the loop. */
  method DownscaleLoop(encode: Encoder, original: Bitmap, targetSizeBytes: int)
    returns (currentBitmap: Bitmap, compressedData: seq<byte>, attempts: nat, ghost recycled: seq<int>)
    requires ValidEncoder(encode)
    requires 0 < targetSizeBytes < INT_MAX
    requires original.generation == 0
    ensures attempts == PassCount(QualitySearchFor(encode, targetSizeBytes), original, targetSizeBytes, 0)
    ensures currentBitmap == Generation(original, attempts)
    ensures compressedData == PassResult(QualitySearchFor(encode, targetSizeBytes), original, attempts)
    ensures recycled == Range(1, attempts)
  {
    ghost var search := QualitySearchFor(encode, targetSizeBytes);
    ghost var n := PassCount(search, original, targetSizeBytes, 0);
    currentBitmap := original;
    attempts := 0;
    recycled := [];
    ghost var probed;
    compressedData, probed := BinarySearchQuality(encode, currentBitmap, targetSizeBytes, MIN_QUALITY, MAX_QUALITY);
    while |compressedData| > targetSizeBytes && attempts < MAX_ATTEMPTS
      invariant attempts <= MAX_ATTEMPTS
      invariant PassCount(search, original, targetSizeBytes, attempts) == n
      invariant currentBitmap == Generation(original, attempts)
      invariant compressedData == PassResult(search, original, attempts)
      invariant recycled == Range(1, attempts)
      decreases MAX_ATTEMPTS - attempts
    {
      var newWidth := ScaledDimension(currentBitmap.width);
      var newHeight := ScaledDimension(currentBitmap.height);
      if newWidth < MIN_DIMENSION || newHeight < MIN_DIMENSION {
        break;
      }
      assert !TooSmall(currentBitmap) && |compressedData| > targetSizeBytes;
      var scaledBitmap := Bitmap(currentBitmap.generation + 1, newWidth, newHeight);
      assert scaledBitmap == Downscaled(currentBitmap);
      GenerationStep(original, attempts);
      if currentBitmap != original {
        RangeSnoc(1, attempts);
        recycled := recycled + [currentBitmap.generation];
      }
      currentBitmap := scaledBitmap;
      compressedData, probed := BinarySearchQuality(encode, currentBitmap, targetSizeBytes, MIN_QUALITY, MAX_QUALITY);
      attempts := attempts + 1;
    }
  }

  /** `compressToTargetSize` after decoding: `decoded` holds the decoded bitmap's
      dimensions (`None` when decoding failed) and `originalSizeKB` what
      `calculateOriginalSize` returned. `passes` counts the downscales and `recycled`
      lists the generations of the bitmaps released, in order. */
  method CompressToTargetSize(encode: Encoder, decoded: Option<Dimensions>, originalSizeKB: int, targetSizeKB: int)
    returns (res: Result<CompressionResult>, ghost passes: nat, ghost recycled: seq<int>)
    requires ValidEncoder(encode)
    requires 0 <= originalSizeKB <= MAX_KB
    requires 0 < targetSizeKB <= INT_MAX
    ensures res == Expected(encode, decoded, originalSizeKB, targetSizeKB)
    ensures res.Success? ==>
      && passes == PassCount(QualitySearchFor(encode, targetSizeKB * 1024),
                             Bitmap(0, decoded.value.width, decoded.value.height), targetSizeKB * 1024, 0)
      && recycled == Range(1, passes + 1) + [0]
    ensures res == Failure(DecodeFailed) ==> recycled == []
    ensures res == Failure(TargetTooLarge) ==> recycled == [0]
  {
    passes, recycled := 0, [];
    if decoded.None? {
      return Failure(DecodeFailed), passes, recycled;
    }
    var original := Bitmap(0, decoded.value.width, decoded.value.height);
    var targetSizeBytes: int;
    match TargetSizeBytes(targetSizeKB) {
      case None =>
        recycled := recycled + [original.generation];
        return Failure(TargetTooLarge), passes, recycled;
      case Some(t) =>
        targetSizeBytes := t;
    }
    var currentBitmap, compressedData, attempts;
    currentBitmap, compressedData, attempts, recycled := DownscaleLoop(encode, original, targetSizeBytes);
    passes := attempts;
    var compressedSizeKB := SizeKB(|compressedData|);
    var compressionPercentage := ReductionPercentage(originalSizeKB, compressedSizeKB);
    if currentBitmap != original {
      RangeSnoc(1, passes);
      recycled := recycled + [currentBitmap.generation];
    }
    recycled := recycled + [original.generation];
    res := Success(CompressionResult(compressedData, originalSizeKB, compressedSizeKB, compressionPercentage,
                                     currentBitmap.width, currentBitmap.height));
  }
}
