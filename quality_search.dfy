/** `binarySearchQuality`: a binary search over the JPEG quality that keeps the
    encoding whose size is closest to the target. */
module QualitySearch {
  import opened KotlinInt
  import opened Images

  /** Distance between an encoded size and the target, `abs(size - target)`. */
  function Dist(size: int, target: int): nat {
    if size >= target then size - target else target - size
  }

  /** The window after one pass over `[low, high]`: below the midpoint when its encoding
      is too large, above it when too small, and empty after an exact match. */
  function Narrow(encode: Encoder, bitmap: Bitmap, target: int, low: int, high: int): (w: (int, int))
    requires low <= high
    ensures low <= w.0 && w.1 <= high
    ensures w.1 - w.0 + 1 <= (high - low + 1) / 2
  {
    var mid := Div(low + high, 2);
    var size := |encode(bitmap, mid)|;
    if size > target then (low, mid - 1)
    else if size < target then (mid + 1, high)
    else (mid + 1, mid)
  }

  /** The qualities the search encodes, in order, when its window is `[low, high]`. */
  function Probes(encode: Encoder, bitmap: Bitmap, target: int, low: int, high: int): (ps: seq<int>)
    ensures low > high <==> ps == []
    decreases high - low
  {
    if low > high then []
    else
      var w := Narrow(encode, bitmap, target, low, high);
      [Div(low + high, 2)] + Probes(encode, bitmap, target, w.0, w.1)
  }

  /** The distance to the target of each encoding at the qualities `qs`. */
  function Dists(encode: Encoder, bitmap: Bitmap, target: int, qs: seq<int>): (ds: seq<nat>)
    ensures |ds| == |qs|
    ensures forall i :: 0 <= i < |qs| ==> ds[i] == Dist(|encode(bitmap, qs[i])|, target)
  {
    if qs == [] then []
    else Dists(encode, bitmap, target, qs[..|qs| - 1]) + [Dist(|encode(bitmap, qs[|qs| - 1])|, target)]
  }

  /** The position a left-to-right scan keeps when it replaces its candidate only on a
      strictly smaller value: the first position of the minimum. */
  function FirstMinIndex(ds: seq<nat>): (k: nat)
    requires ds != []
    ensures k < |ds|
    ensures forall j :: 0 <= j < |ds| ==> ds[k] <= ds[j]
    ensures forall j :: 0 <= j < k ==> ds[k] < ds[j]
  {
    if |ds| == 1 then 0
    else
      var k := FirstMinIndex(ds[..|ds| - 1]);
      if ds[|ds| - 1] < ds[k] then |ds| - 1 else k
  }

  /** What `binarySearchQuality(bitmap, target, minQuality, maxQuality)` returns: the
      probed encoding closest to the target (the first one on ties), or one encoding at
      `minQuality` when nothing was probed. */
  function SearchResult(encode: Encoder, bitmap: Bitmap, target: int, minQuality: int, maxQuality: int): seq<byte> {
    BestOf(encode, bitmap, target, minQuality, Probes(encode, bitmap, target, minQuality, maxQuality))
  }

  lemma AppendAssoc<T>(a: seq<T>, b: seq<T>, c: seq<T>)
    ensures (a + b) + c == a + (b + c)
  {
  }

  lemma Regroup<T>(a: seq<T>, b: seq<T>)
    requires b != []
    ensures (a + [b[0]]) + b[1..] == a + b
  {
    assert [b[0]] + b[1..] == b;
    AppendAssoc(a, [b[0]], b[1..]);
  }

  lemma Uncons<T>(x: T, b: seq<T>)
    ensures ([x] + b)[0] == x && ([x] + b)[1..] == b
  {
  }

  lemma AppendEmpty<T>(a: seq<T>)
    ensures a + [] == a && [] + a == a
  {
  }

  /** The search's running state: `bestData`/`bestDiff` hold the first closest of the
      encodings probed so far, and are `null`/`Int.MAX_VALUE` before the first probe. */
  ghost predicate TracksBest(encode: Encoder, bitmap: Bitmap, target: int, probed: seq<int>,
                             bestData: Option<seq<byte>>, bestDiff: int)
  {
    if probed == [] then bestData == None && bestDiff == INT_MAX
    else
      var ds := Dists(encode, bitmap, target, probed);
      var k := FirstMinIndex(ds);
      bestData == Some(encode(bitmap, probed[k])) && bestDiff == ds[k]
  }

  /** The running state after the encoding at quality `q` is compared with it. */
  function Update(encode: Encoder, bitmap: Bitmap, target: int, q: int,
                  bestData: Option<seq<byte>>, bestDiff: int): (Option<seq<byte>>, int)
  {
    var d := Dist(|encode(bitmap, q)|, target);
    if d < bestDiff then (Some(encode(bitmap, q)), d) else (bestData, bestDiff)
  }

  /** One update `if (absDiff < bestDiff) { bestDiff = absDiff; bestData = data }` keeps
      the running state. */
  lemma TracksBestStep(encode: Encoder, bitmap: Bitmap, target: int, probed: seq<int>,
                       bestData: Option<seq<byte>>, bestDiff: int, mid: int)
    requires TracksBest(encode, bitmap, target, probed, bestData, bestDiff)
    requires Dist(|encode(bitmap, mid)|, target) < INT_MAX
    ensures var st := Update(encode, bitmap, target, mid, bestData, bestDiff);
      TracksBest(encode, bitmap, target, probed + [mid], st.0, st.1)
  {
    var ds := Dists(encode, bitmap, target, probed);
    var d := Dist(|encode(bitmap, mid)|, target);
    assert (probed + [mid])[..|probed|] == probed;
    assert (ds + [d])[..|ds|] == ds;
  }

  /** The running state is the best of the probes so far, or the fallback before any. */
  lemma TracksBestIsBestOf(encode: Encoder, bitmap: Bitmap, target: int, minQuality: int, probed: seq<int>,
                           bestData: Option<seq<byte>>, bestDiff: int)
    requires TracksBest(encode, bitmap, target, probed, bestData, bestDiff)
    ensures (if bestData.Some? then bestData.value else encode(bitmap, minQuality))
         == BestOf(encode, bitmap, target, minQuality, probed)
  {
  }

  /** What the search returns once the state is final: the kept encoding, or the
      fallback encoding at `minQuality`. */
  function Settle(encode: Encoder, bitmap: Bitmap, minQuality: int, bestData: Option<seq<byte>>): seq<byte> {
    if bestData.Some? then bestData.value else encode(bitmap, minQuality)
  }

  /** The loop of `binarySearchQuality` run from the state `low`, `high`, `bestData`,
      `bestDiff` after the qualities `probed`: the bytes it returns and every quality it
      encodes. A proof device that follows the method below statement by statement. */
  function RunSearch(encode: Encoder, bitmap: Bitmap, target: int, minQuality: int,
                     low: int, high: int, probed: seq<int>, bestData: Option<seq<byte>>, bestDiff: int): (seq<byte>, seq<int>)
    decreases high - low
  {
    if low > high then (Settle(encode, bitmap, minQuality, bestData), probed)
    else
      var mid := Div(low + high, 2);
      var candidate := encode(bitmap, mid);
      var st := Update(encode, bitmap, target, mid, bestData, bestDiff);
      if |candidate| == target then (candidate, probed + [mid])
      else
        var w := Narrow(encode, bitmap, target, low, high);
        RunSearch(encode, bitmap, target, minQuality, w.0, w.1, probed + [mid], st.0, st.1)
  }

  /** The closest of the encodings at the qualities `ps` (the first one on ties), or the
      encoding at `minQuality` when there is none. */
  function BestOf(encode: Encoder, bitmap: Bitmap, target: int, minQuality: int, ps: seq<int>): seq<byte> {
    if ps == [] then encode(bitmap, minQuality)
    else encode(bitmap, ps[FirstMinIndex(Dists(encode, bitmap, target, ps))])
  }

  /** The loop encodes the qualities of the search's window, after those already probed. */
  lemma {:induction false} RunSearchProbes(encode: Encoder, bitmap: Bitmap, target: int, minQuality: int,
                                           low: int, high: int, probed: seq<int>, bestData: Option<seq<byte>>, bestDiff: int)
    ensures RunSearch(encode, bitmap, target, minQuality, low, high, probed, bestData, bestDiff).1
         == probed + Probes(encode, bitmap, target, low, high)
    decreases high - low
  {
    if low <= high {
      var mid := Div(low + high, 2);
      var candidate := encode(bitmap, mid);
      var st := Update(encode, bitmap, target, mid, bestData, bestDiff);
      var w := Narrow(encode, bitmap, target, low, high);
      var rest := Probes(encode, bitmap, target, w.0, w.1);
      if |candidate| == target {
        AppendEmpty([mid]);
      } else {
        RunSearchProbes(encode, bitmap, target, minQuality, w.0, w.1, probed + [mid], st.0, st.1);
        AppendAssoc(probed, [mid], rest);
      }
    } else {
      AppendEmpty(probed);
    }
  }

  /** The running state after the updates for the qualities `ps`, in order, starting
      from `bestData`/`bestDiff`. */
  function Scan(encode: Encoder, bitmap: Bitmap, target: int, ps: seq<int>,
                bestData: Option<seq<byte>>, bestDiff: int): (Option<seq<byte>>, int)
    decreases |ps|
  {
    if ps == [] then (bestData, bestDiff)
    else
      var st := Update(encode, bitmap, target, ps[0], bestData, bestDiff);
      Scan(encode, bitmap, target, ps[1..], st.0, st.1)
  }

  /** Scanning further qualities keeps the running state the first closest of all. */
  lemma {:induction false} ScanTracksBest(encode: Encoder, bitmap: Bitmap, target: int, probed: seq<int>, ps: seq<int>,
                                          bestData: Option<seq<byte>>, bestDiff: int)
    requires forall q :: Dist(|encode(bitmap, q)|, target) < INT_MAX
    requires TracksBest(encode, bitmap, target, probed, bestData, bestDiff)
    ensures var st := Scan(encode, bitmap, target, ps, bestData, bestDiff);
      TracksBest(encode, bitmap, target, probed + ps, st.0, st.1)
    decreases |ps|
  {
    if ps == [] {
      AppendEmpty(probed);
    } else {
      var mid := ps[0];
      var st := Update(encode, bitmap, target, mid, bestData, bestDiff);
      TracksBestStep(encode, bitmap, target, probed, bestData, bestDiff, mid);
      ScanTracksBest(encode, bitmap, target, probed + [mid], ps[1..], st.0, st.1);
      Regroup(probed, ps);
    }
  }

  /** The loop's result is the scan of the qualities it probes, settled; an exact match
      returns at once, which the scan matches because the kept difference is positive. */
  lemma {:induction false} RunSearchScan(encode: Encoder, bitmap: Bitmap, target: int, minQuality: int,
                                         low: int, high: int, probed: seq<int>, bestData: Option<seq<byte>>, bestDiff: int)
    requires bestDiff > 0
    ensures RunSearch(encode, bitmap, target, minQuality, low, high, probed, bestData, bestDiff).0
         == Settle(encode, bitmap, minQuality, Scan(encode, bitmap, target, Probes(encode, bitmap, target, low, high), bestData, bestDiff).0)
    decreases high - low
  {
    if low <= high {
      var mid := Div(low + high, 2);
      var candidate := encode(bitmap, mid);
      var st := Update(encode, bitmap, target, mid, bestData, bestDiff);
      var w := Narrow(encode, bitmap, target, low, high);
      var rest := Probes(encode, bitmap, target, w.0, w.1);
      Uncons(mid, rest);
      if |candidate| != target {
        RunSearchScan(encode, bitmap, target, minQuality, w.0, w.1, probed + [mid], st.0, st.1);
      }
    }
  }

  /** The loop of `binarySearchQuality`, with the qualities it encodes as a ghost result. */
  method BinarySearchQuality(encode: Encoder, bitmap: Bitmap, targetSizeBytes: int, minQuality: int, maxQuality: int)
    returns (data: seq<byte>, ghost probed: seq<int>)
    requires ValidEncoder(encode)
    requires 0 < targetSizeBytes < INT_MAX
    ensures probed == Probes(encode, bitmap, targetSizeBytes, minQuality, maxQuality)
    ensures data == SearchResult(encode, bitmap, targetSizeBytes, minQuality, maxQuality)
  {
    var low, high := minQuality, maxQuality;
    var bestData: Option<seq<byte>> := None;
    var bestDiff := INT_MAX;
    probed := [];
    ghost var outcome := RunSearch(encode, bitmap, targetSizeBytes, minQuality, low, high, probed, bestData, bestDiff);
    while low <= high
      invariant RunSearch(encode, bitmap, targetSizeBytes, minQuality, low, high, probed, bestData, bestDiff) == outcome
      decreases high - low
    {
      var mid := Div(low + high, 2);
      var candidate := encode(bitmap, mid);
      var diff := |candidate| - targetSizeBytes;
      var absDiff := if diff < 0 then -diff else diff;
      // Neither the difference nor its absolute value leaves the range of `Int`.
      assert IsInt(diff) && absDiff == Dist(|candidate|, targetSizeBytes);
      if absDiff < bestDiff {
        bestDiff := absDiff;
        bestData := Some(candidate);
      }
      probed := probed + [mid];
      if |candidate| > targetSizeBytes {
        high := mid - 1;
      } else if |candidate| < targetSizeBytes {
        low := mid + 1;
      } else {
        data := candidate;
        SearchOutcome(encode, bitmap, targetSizeBytes, minQuality, maxQuality);
        return;
      }
    }
    data := if bestData.Some? then bestData.value else encode(bitmap, minQuality);
    SearchOutcome(encode, bitmap, targetSizeBytes, minQuality, maxQuality);
  }

  /** The loop started as `binarySearchQuality` starts it returns the search's result. */
  lemma SearchOutcome(encode: Encoder, bitmap: Bitmap, target: int, minQuality: int, maxQuality: int)
    requires ValidEncoder(encode)
    requires 0 < target < INT_MAX
    ensures RunSearch(encode, bitmap, target, minQuality, minQuality, maxQuality, [], None, INT_MAX)
         == (SearchResult(encode, bitmap, target, minQuality, maxQuality), Probes(encode, bitmap, target, minQuality, maxQuality))
  {
    var ps := Probes(encode, bitmap, target, minQuality, maxQuality);
    forall q ensures Dist(|encode(bitmap, q)|, target) < INT_MAX {
      assert |encode(bitmap, q)| <= INT_MAX;
    }
    RunSearchProbes(encode, bitmap, target, minQuality, minQuality, maxQuality, [], None, INT_MAX);
    RunSearchScan(encode, bitmap, target, minQuality, minQuality, maxQuality, [], None, INT_MAX);
    ScanTracksBest(encode, bitmap, target, [], ps, None, INT_MAX);
    var st := Scan(encode, bitmap, target, ps, None, INT_MAX);
    AppendEmpty(ps);
    TracksBestIsBestOf(encode, bitmap, target, minQuality, ps, st.0, st.1);
  }

  /** How many times a window of `n` qualities can be halved before it is empty. */
  function Halvings(n: int): nat
    decreases n
  {
    if n <= 0 then 0 else 1 + Halvings(n / 2)
  }

  lemma {:induction false} HalvingsMonotone(a: int, b: int)
    requires a <= b
    ensures Halvings(a) <= Halvings(b)
    decreases b
  {
    if a > 0 {
      HalvingsMonotone(a / 2, b / 2);
    }
  }

  /** The midpoint lies in the window and leaves at most half of it on either side. */
  lemma MidSplits(low: int, high: int)
    requires low <= high
    ensures var mid := Div(low + high, 2);
      && low <= mid <= high
      && mid - low <= (high - low + 1) / 2
      && high - mid <= (high - low + 1) / 2
  {
  }

  /** Every probed quality lies in the window the search starts with. */
  lemma {:induction false} ProbesInWindow(encode: Encoder, bitmap: Bitmap, target: int, low: int, high: int)
    ensures forall i :: 0 <= i < |Probes(encode, bitmap, target, low, high)| ==>
      low <= Probes(encode, bitmap, target, low, high)[i] <= high
    decreases high - low
  {
    if low <= high {
      var ps := Probes(encode, bitmap, target, low, high);
      var w := Narrow(encode, bitmap, target, low, high);
      var rest := Probes(encode, bitmap, target, w.0, w.1);
      ProbesInWindow(encode, bitmap, target, w.0, w.1);
      MidSplits(low, high);
      assert ps == [Div(low + high, 2)] + rest;
      forall i | 0 <= i < |ps|
        ensures low <= ps[i] <= high
      {
        if i > 0 {
          assert ps[i] == rest[i - 1];
        }
      }
    }
  }


  /** Each pass at least halves the window, so a window of `n` qualities is probed at
      most `Halvings(n)` times (about log2 n). */
  lemma {:induction false} ProbesBound(encode: Encoder, bitmap: Bitmap, target: int, low: int, high: int)
    ensures |Probes(encode, bitmap, target, low, high)| <= Halvings(high - low + 1)
    decreases high - low
  {
    if low <= high {
      var n := high - low + 1;
      var w := Narrow(encode, bitmap, target, low, high);
      ProbesBound(encode, bitmap, target, w.0, w.1);
      HalvingsMonotone(w.1 - w.0 + 1, n / 2);
      assert Halvings(n) == 1 + Halvings(n / 2);
    }
  }


  /** The search stops at the first exact match: only the last probe can hit the target. */
  lemma {:induction false} ProbesExactIsLast(encode: Encoder, bitmap: Bitmap, target: int, low: int, high: int)
    ensures forall i :: 0 <= i < |Probes(encode, bitmap, target, low, high)| - 1 ==>
      |encode(bitmap, Probes(encode, bitmap, target, low, high)[i])| != target
    decreases high - low
  {
    if low <= high {
      var mid := Div(low + high, 2);
      var w := Narrow(encode, bitmap, target, low, high);
      var rest := Probes(encode, bitmap, target, w.0, w.1);
      ProbesExactIsLast(encode, bitmap, target, w.0, w.1);
      if |encode(bitmap, mid)| != target {
        AfterMiss(encode, bitmap, target, mid, rest);
      }
    }
  }


  /** A missed probe in front of probes whose only possible hit is the last one. */
  lemma AfterMiss(encode: Encoder, bitmap: Bitmap, target: int, mid: int, rest: seq<int>)
    requires |encode(bitmap, mid)| != target
    requires forall i :: 0 <= i < |rest| - 1 ==> |encode(bitmap, rest[i])| != target
    ensures var ps := [mid] + rest;
      forall i :: 0 <= i < |ps| - 1 ==> |encode(bitmap, ps[i])| != target
  {
    var ps := [mid] + rest;
    forall i | 0 <= i < |ps| - 1
      ensures |encode(bitmap, ps[i])| != target
    {
      if i > 0 {
        assert ps[i] == rest[i - 1];
      }
    }
  }

  /** When a probed quality hits the target exactly, the search returns an encoding of
      exactly the target size, the one of its last probe. */
  lemma SearchExactMatch(encode: Encoder, bitmap: Bitmap, target: int, minQuality: int, maxQuality: int, q: int)
    requires q in Probes(encode, bitmap, target, minQuality, maxQuality)
    requires |encode(bitmap, q)| == target
    ensures var ps := Probes(encode, bitmap, target, minQuality, maxQuality);
      SearchResult(encode, bitmap, target, minQuality, maxQuality) == encode(bitmap, ps[|ps| - 1])
    ensures |SearchResult(encode, bitmap, target, minQuality, maxQuality)| == target
  {
    var ps := Probes(encode, bitmap, target, minQuality, maxQuality);
    var ds := Dists(encode, bitmap, target, ps);
    var i :| 0 <= i < |ps| && ps[i] == q;
    var k := FirstMinIndex(ds);
    assert ds[k] <= ds[i] == 0;
    ProbesExactIsLast(encode, bitmap, target, minQuality, maxQuality);
    assert k == |ps| - 1;
  }

  /** The search's result: with an empty window, the encoding at `minQuality`; otherwise
      the encoding of one probed quality `ps[i]` whose size is as close to the target as
      any probe's and strictly closer than every earlier probe's. */
  lemma SearchResultClosest(encode: Encoder, bitmap: Bitmap, target: int, minQuality: int, maxQuality: int)
    returns (i: nat)
    ensures var ps := Probes(encode, bitmap, target, minQuality, maxQuality);
      var r := SearchResult(encode, bitmap, target, minQuality, maxQuality);
      if minQuality > maxQuality then ps == [] && r == encode(bitmap, minQuality)
      else
        && i < |ps|
        && r == encode(bitmap, ps[i])
        && (forall j :: 0 <= j < |ps| ==> Dist(|r|, target) <= Dist(|encode(bitmap, ps[j])|, target))
        && (forall j :: 0 <= j < i ==> Dist(|r|, target) < Dist(|encode(bitmap, ps[j])|, target))
  {
    i := 0;
    var ps := Probes(encode, bitmap, target, minQuality, maxQuality);
    if minQuality <= maxQuality {
      var ds := Dists(encode, bitmap, target, ps);
      i := FirstMinIndex(ds);
    }
  }

  /** An encoder that gives the same bytes at every quality makes the search return
      those bytes. */
  lemma ConstantEncoderResult(encode: Encoder, bitmap: Bitmap, target: int, minQuality: int, maxQuality: int,
                              c: seq<byte>)
    requires forall q :: encode(bitmap, q) == c
    ensures SearchResult(encode, bitmap, target, minQuality, maxQuality) == c
  {
    var ps := Probes(encode, bitmap, target, minQuality, maxQuality);
    if ps != [] {
      var k := FirstMinIndex(Dists(encode, bitmap, target, ps));
      var q := ps[k];
      assert encode(bitmap, q) == c;
    } else {
      assert encode(bitmap, minQuality) == c;
    }
  }

  /** Encoded sizes do not decrease as the quality rises within `[low, high]`. */
  ghost predicate SizesMonotone(encode: Encoder, bitmap: Bitmap, low: int, high: int) {
    forall a, b :: low <= a <= b <= high ==> |encode(bitmap, a)| <= |encode(bitmap, b)|
  }

  lemma LastOfCons<T>(x: T, b: seq<T>)
    requires b != []
    ensures ([x] + b)[|[x] + b| - 1] == b[|b| - 1]
  {
  }

  /** Every quality of `[low, high]` whose encoding is too large lies above `q`, and every
      one whose encoding is too small lies below it. */
  ghost predicate Brackets(encode: Encoder, bitmap: Bitmap, target: int, low: int, high: int, q: int) {
    forall x :: low <= x <= high ==>
      (|encode(bitmap, x)| > target ==> q < x) && (|encode(bitmap, x)| < target ==> x < q)
  }

  /** Monotone sizes bracket any quality of exactly the target size. */
  lemma MonotoneBrackets(encode: Encoder, bitmap: Bitmap, target: int, low: int, high: int, q: int)
    requires SizesMonotone(encode, bitmap, low, high)
    requires low <= q <= high && |encode(bitmap, q)| == target
    ensures Brackets(encode, bitmap, target, low, high, q)
  {
    forall x | low <= x <= high
      ensures (|encode(bitmap, x)| > target ==> q < x) && (|encode(bitmap, x)| < target ==> x < q)
    {
      if x <= q {
        assert |encode(bitmap, x)| <= |encode(bitmap, q)|;
      }
      if q <= x {
        assert |encode(bitmap, q)| <= |encode(bitmap, x)|;
      }
    }
  }

  /** A search whose window brackets a quality of exactly the target size keeps it in
      the window and ends on a probe that hits the target. */
  lemma {:induction false} BracketedProbesHit(encode: Encoder, bitmap: Bitmap, target: int, low: int, high: int, q: int)
    requires Brackets(encode, bitmap, target, low, high, q)
    requires low <= q <= high && |encode(bitmap, q)| == target
    ensures var ps := Probes(encode, bitmap, target, low, high);
      ps != [] && |encode(bitmap, ps[|ps| - 1])| == target
    decreases high - low
  {
    var mid := Div(low + high, 2);
    var w := Narrow(encode, bitmap, target, low, high);
    var rest := Probes(encode, bitmap, target, w.0, w.1);
    MidSplits(low, high);
    if |encode(bitmap, mid)| != target {
      assert w.0 <= q <= w.1;
      BracketedProbesHit(encode, bitmap, target, w.0, w.1, q);
      LastOfCons(mid, rest);
    }
  }


  /** Under the monotone hypothesis, a window that holds a quality of exactly the target
      size yields a result of exactly the target size. The encoder is not assumed
      monotone anywhere else. */
  lemma MonotoneSearchHitsTarget(encode: Encoder, bitmap: Bitmap, target: int, minQuality: int, maxQuality: int, q: int)
    requires SizesMonotone(encode, bitmap, minQuality, maxQuality)
    requires minQuality <= q <= maxQuality && |encode(bitmap, q)| == target
    ensures |SearchResult(encode, bitmap, target, minQuality, maxQuality)| == target
  {
    var ps := Probes(encode, bitmap, target, minQuality, maxQuality);
    MonotoneBrackets(encode, bitmap, target, minQuality, maxQuality, q);
    BracketedProbesHit(encode, bitmap, target, minQuality, maxQuality, q);
    SearchExactMatch(encode, bitmap, target, minQuality, maxQuality, ps[|ps| - 1]);
  }

  /** The search keeps the closest encoding, not one that fits: with sizes 0 below
      quality 60 and 2 from quality 60 on, and a target of 1 byte, every probe is 1 byte
      away, the first probe (quality 60) is kept, and its encoding exceeds the target
      although the encoding at quality 20 fits. */
  lemma ClosestMayExceedTarget()
    ensures var encode: Encoder := (b: Bitmap, q: int) => if q >= 60 then [0, 0] else [];
      var bitmap := Bitmap(0, 100, 100);
      && |encode(bitmap, 20)| <= 1
      && |SearchResult(encode, bitmap, 1, 20, 100)| > 1
  {
    var encode: Encoder := (b: Bitmap, q: int) => if q >= 60 then [0, 0] else [];
    var bitmap := Bitmap(0, 100, 100);
    assert Div(20 + 100, 2) == 60;
    assert Narrow(encode, bitmap, 1, 20, 100) == (20, 59);
    assert Div(20 + 59, 2) == 39;
    assert Narrow(encode, bitmap, 1, 20, 59) == (40, 59);
    assert Div(40 + 59, 2) == 49;
    assert Narrow(encode, bitmap, 1, 40, 59) == (50, 59);
    assert Div(50 + 59, 2) == 54;
    assert Narrow(encode, bitmap, 1, 50, 59) == (55, 59);
    assert Div(55 + 59, 2) == 57;
    assert Narrow(encode, bitmap, 1, 55, 59) == (58, 59);
    assert Div(58 + 59, 2) == 58;
    assert Narrow(encode, bitmap, 1, 58, 59) == (59, 59);
    assert Div(59 + 59, 2) == 59;
    assert Narrow(encode, bitmap, 1, 59, 59) == (60, 59);
    var ps := Probes(encode, bitmap, 1, 20, 100);
    assert ps == [60] + ([39] + ([49] + ([54] + ([57] + ([58] + ([59] + Probes(encode, bitmap, 1, 60, 59)))))));
    assert ps == [60, 39, 49, 54, 57, 58, 59];
    var ds := Dists(encode, bitmap, 1, ps);
    assert forall i :: 0 <= i < |ds| ==> ds[i] == 1;
    var k := FirstMinIndex(ds);
    assert ds[k] == 1 && ds[0] == 1;
    assert k == 0;
  }
}
