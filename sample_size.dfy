/** `calculateInSampleSize`: the power-of-two subsampling factor the decoder is given
    so that a large photo is decoded at a reduced size. */
module SampleSize {
  import opened KotlinInt

  function Pow2(e: nat): (p: nat)
    ensures p >= 1
  {
    if e == 0 then 1 else 2 * Pow2(e - 1)
  }

  /** The loop's condition at factor `s`: both halved dimensions, divided by `s`, still
      reach the requested size. */
  predicate Fits(halfWidth: int, halfHeight: int, reqWidth: int, reqHeight: int, s: int)
    requires s > 0
  {
    Div(halfHeight, s) >= reqHeight && Div(halfWidth, s) >= reqWidth
  }

  /** A positive truncated quotient needs a divisor no larger than the dividend. */
  lemma DivisorAtMost(a: int, b: int)
    requires b > 0 && Div(a, b) >= 1
    ensures b <= a
  {
    var q := Div(a, b);
    if a >= 0 {
      assert q * b >= b by {
        assert (q - 1) * b >= 0;
      }
    }
  }

  /** Dividing twice, with truncation, is dividing once by the product. */
  lemma DivDiv(a: int, b: int, c: int)
    requires b > 0 && c > 0
    ensures Div(Div(a, b), c) == Div(a, b * c)
  {
    if a >= 0 {
      NatDivDiv(a, b, c);
    } else {
      NatDivDiv(-a, b, c);
      assert Div(a, b) == -((-a) / b);
      if (-a) / b == 0 {
        assert Div(Div(a, b), c) == 0;
      }
    }
  }

  /** The quotient is the only `t` that leaves a remainder in `[0, d)`. */
  lemma DivUnique(a: int, d: int, t: int, m: int)
    requires d > 0 && a == d * t + m && 0 <= m < d
    ensures a / d == t
  {
    var q := a / d;
    var r := a % d;
    assert d * q + r == d * t + m;
    if q > t {
      assert d * (q - t) == d * q - d * t;
      MulAtLeast(d, q - t);
    } else if q < t {
      assert d * (t - q) == d * t - d * q;
      MulAtLeast(d, t - q);
    }
  }

  lemma MulAtLeast(d: int, k: int)
    requires d > 0 && k >= 1
    ensures d * k >= d
  {
    assert d * k == d * (k - 1) + d;
  }

  lemma NatDivDiv(a: int, b: int, c: int)
    requires a >= 0 && b > 0 && c > 0
    ensures a / b / c == a / (b * c)
  {
    var q := a / b;
    var t := q / c;
    var u := q % c;
    var m := b * u + a % b;
    assert a == (b * c) * t + m by {
      assert q == c * t + u;
      assert b * q == b * (c * t) + b * u;
      assert b * (c * t) == (b * c) * t;
    }
    assert m < b * c by {
      MulAtLeast(b, c - u);
      assert b * (c - u) == b * c - b * u;
    }
    DivUnique(a, b * c, t, m);
  }

  /** The number of doublings the loop makes from factor `Pow2(e)` on: the first
      exponent at or after `e` where the condition fails. */
  function Doublings(halfWidth: int, halfHeight: int, reqWidth: int, reqHeight: int, e: nat): (n: nat)
    requires reqWidth > 0
    ensures e <= n
    ensures !Fits(halfWidth, halfHeight, reqWidth, reqHeight, Pow2(n))
    ensures n > e ==> Fits(halfWidth, halfHeight, reqWidth, reqHeight, Pow2(n - 1))
    ensures forall j :: e <= j < n ==> Fits(halfWidth, halfHeight, reqWidth, reqHeight, Pow2(j))
    decreases if halfWidth >= Pow2(e) then halfWidth - Pow2(e) + 1 else 0
  {
    if Fits(halfWidth, halfHeight, reqWidth, reqHeight, Pow2(e)) then
      DivisorAtMost(halfWidth, Pow2(e));
      Doublings(halfWidth, halfHeight, reqWidth, reqHeight, e + 1)
    else e
  }

  /** The exponent of the factor: no doubling unless a dimension exceeds the request. */
  function SampleExponent(outWidth: int, outHeight: int, reqWidth: int, reqHeight: int): nat
    requires reqWidth > 0
  {
    if outHeight > reqHeight || outWidth > reqWidth then
      Doublings(Div(outWidth, 2), Div(outHeight, 2), reqWidth, reqHeight, 0)
    else 0
  }

  /** The factor `calculateInSampleSize` returns. */
  function InSampleSize(outWidth: int, outHeight: int, reqWidth: int, reqHeight: int): int
    requires reqWidth > 0
  {
    Pow2(SampleExponent(outWidth, outHeight, reqWidth, reqHeight))
  }

  /** The loop, doubling with `Int` arithmetic. `outWidth` and `outHeight` are the bounds
      the first decode reported (-1 when it could not read them). */
  method CalculateInSampleSize(outWidth: int, outHeight: int, reqWidth: int, reqHeight: int)
    returns (inSampleSize: int)
    requires IsInt(outWidth) && IsInt(outHeight)
    requires 0 < reqWidth <= INT_MAX && 0 < reqHeight <= INT_MAX
    ensures inSampleSize == InSampleSize(outWidth, outHeight, reqWidth, reqHeight)
    ensures 1 <= inSampleSize <= INT_MAX
  {
    var height := outHeight;
    var width := outWidth;
    inSampleSize := 1;
    if height > reqHeight || width > reqWidth {
      var halfHeight := Div(height, 2);
      var halfWidth := Div(width, 2);
      ghost var n := Doublings(halfWidth, halfHeight, reqWidth, reqHeight, 0);
      ghost var e: nat := 0;
      while Div(halfHeight, inSampleSize) >= reqHeight && Div(halfWidth, inSampleSize) >= reqWidth
        invariant inSampleSize == Pow2(e)
        invariant Doublings(halfWidth, halfHeight, reqWidth, reqHeight, e) == n
        invariant inSampleSize <= INT_MAX
        decreases halfWidth - inSampleSize
      {
        DivisorAtMost(halfHeight, inSampleSize);
        DivisorAtMost(halfWidth, inSampleSize);
        inSampleSize := Wrap(inSampleSize * 2);
        e := e + 1;
      }
    }
  }

  /** The factor is 1 unless a dimension exceeds the request;
      when it is above 1 both subsampled dimensions still reach the request; and when a
      dimension exceeds the request, doubling it once more would take one of them
      below. */
  lemma SampleSizeIsLargest(outWidth: int, outHeight: int, reqWidth: int, reqHeight: int)
    requires reqWidth > 0 && reqHeight > 0
    ensures !(outHeight > reqHeight || outWidth > reqWidth) ==> InSampleSize(outWidth, outHeight, reqWidth, reqHeight) == 1
    ensures InSampleSize(outWidth, outHeight, reqWidth, reqHeight) > 1 ==>
      && Div(outWidth, InSampleSize(outWidth, outHeight, reqWidth, reqHeight)) >= reqWidth
      && Div(outHeight, InSampleSize(outWidth, outHeight, reqWidth, reqHeight)) >= reqHeight
    ensures outHeight > reqHeight || outWidth > reqWidth ==>
      || Div(outWidth, 2 * InSampleSize(outWidth, outHeight, reqWidth, reqHeight)) < reqWidth
      || Div(outHeight, 2 * InSampleSize(outWidth, outHeight, reqWidth, reqHeight)) < reqHeight
  {
    var s := InSampleSize(outWidth, outHeight, reqWidth, reqHeight);
    if outHeight > reqHeight || outWidth > reqWidth {
      var n := SampleExponent(outWidth, outHeight, reqWidth, reqHeight);
      DivDiv(outWidth, 2, s);
      DivDiv(outHeight, 2, s);
      if n > 0 {
        var p := Pow2(n - 1);
        assert s == 2 * p;
        DivDiv(outWidth, 2, p);
        DivDiv(outHeight, 2, p);
      }
    }
  }

  /** The decoder asks for 2048 by 2048: a 4000 by 3000 photo is decoded whole, an
      8192 by 8192 one at a quarter of each side, and an 8192 by 1000 panorama whole,
      because both halved sides must reach 2048 before the factor grows. */
  lemma DecodeRequestExamples()
    ensures InSampleSize(4000, 3000, 2048, 2048) == 1
    ensures InSampleSize(8192, 8192, 2048, 2048) == 4
    ensures InSampleSize(8192, 1000, 2048, 2048) == 1
  {
    assert Div(3000, 2) == 1500 && Div(1000, 2) == 500 && Div(8192, 2) == 4096;
    assert Pow2(0) == 1 && Pow2(1) == 2 && Pow2(2) == 4;
    assert Fits(4096, 4096, 2048, 2048, 1);
    assert Fits(4096, 4096, 2048, 2048, 2);
    assert !Fits(4096, 4096, 2048, 2048, 4);
    assert Doublings(4096, 4096, 2048, 2048, 2) == 2;
    assert Doublings(4096, 4096, 2048, 2048, 0) == 2;
  }
}
