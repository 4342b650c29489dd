/** The downsampling policy of BitmapSizeReduce.getResizedBitmap: choose the
    smallest power-of-two sample size that makes the image fit a
    `maxWidth × maxHeight` box, then fix the options of the real decode.
    Both decodeResource calls are external: the bounds probe's result is an
    input and the final options record is the output. */
module SizeReduce {
  import opened Bitmaps

  /** 1, 2, 4, 8, ... */
  predicate IsPow2(x: int)
    decreases if x > 0 then x else 0
  {
    x == 1 || (x > 1 && x % 2 == 0 && IsPow2(x / 2))
  }

  /** Sampling by `s` makes the image fit the box, with Java's division. */
  predicate Fits(imageWidth: int, imageHeight: int, maxWidth: int, maxHeight: int, s: int)
    requires s >= 1
  {
    JDiv(imageWidth, s) <= maxWidth && JDiv(imageHeight, s) <= maxHeight
  }

  /** The subset of BitmapFactory.Options the method writes. */
  datatype DecodeOptions = DecodeOptions(
    inSampleSize: int,
    inPreferredConfig: Config,
    inJustDecodeBounds: bool,
    inMutable: bool,
    inBitmap: Option<Bitmap>)

  /** The doubling search for the sample size. When the image already fits
      (a failed bounds probe reports -1 × -1, for instance) the loop is
      skipped whatever the bounds. Otherwise the bounds must be
      non-negative: for a non-negative image size a negative bound is never
      met, so with unbounded integers the loop would never end, and in Java
      the doubling overflows to 0 and the division throws. */
  method SampleSize(imageWidth: int, imageHeight: int, maxWidth: int, maxHeight: int)
    returns (s: int)
    requires (maxWidth >= 0 && maxHeight >= 0) || (imageWidth <= maxWidth && imageHeight <= maxHeight)
    ensures s >= 1 && IsPow2(s)
    ensures Fits(imageWidth, imageHeight, maxWidth, maxHeight, s)
    ensures s > 1 ==> !Fits(imageWidth, imageHeight, maxWidth, maxHeight, s / 2)
    ensures forall p :: 1 <= p < s && IsPow2(p) ==> !Fits(imageWidth, imageHeight, maxWidth, maxHeight, p)
    ensures imageWidth <= maxWidth && imageHeight <= maxHeight ==> s == 1
  {
    s := 1;
    if imageWidth > maxWidth || imageHeight > maxHeight {
      while JDiv(imageWidth, s) > maxWidth || JDiv(imageHeight, s) > maxHeight
        invariant s >= 1 && IsPow2(s)
        invariant s > 1 ==> !Fits(imageWidth, imageHeight, maxWidth, maxHeight, s / 2)
        invariant forall p :: 1 <= p < s && IsPow2(p) ==> !Fits(imageWidth, imageHeight, maxWidth, maxHeight, p)
        decreases Max(imageWidth, imageHeight) - s
      {
        DoublingStep(imageWidth, imageHeight, maxWidth, maxHeight, s);
        s := s * 2;
      }
    }
  }

  /** getResizedBitmap with the bounds probe's outWidth/outHeight as inputs
      and `initial` the options object as the probe left it. */
  method GetResizedBitmap(imageWidth: int, imageHeight: int, maxBitmapWidth: int,
                          maxBitmapHeight: int, hasAlphaChannel: bool,
                          inBitmap: Option<Bitmap>, initial: DecodeOptions)
    returns (options: DecodeOptions)
    requires (maxBitmapWidth >= 0 && maxBitmapHeight >= 0)
             || (imageWidth <= maxBitmapWidth && imageHeight <= maxBitmapHeight)
    ensures options.inSampleSize >= 1 && IsPow2(options.inSampleSize)
    ensures Fits(imageWidth, imageHeight, maxBitmapWidth, maxBitmapHeight, options.inSampleSize)
    ensures options.inSampleSize > 1 ==>
              !Fits(imageWidth, imageHeight, maxBitmapWidth, maxBitmapHeight, options.inSampleSize / 2)
    ensures !hasAlphaChannel ==> options.inPreferredConfig == Rgb565
    ensures hasAlphaChannel ==> options.inPreferredConfig == initial.inPreferredConfig
    ensures !options.inJustDecodeBounds && options.inMutable
    ensures options.inBitmap == inBitmap
  {
    var s := SampleSize(imageWidth, imageHeight, maxBitmapWidth, maxBitmapHeight);
    options := initial.(inSampleSize := s);
    if !hasAlphaChannel {
      options := options.(inPreferredConfig := Rgb565);
    }
    options := options.(inJustDecodeBounds := false, inMutable := true, inBitmap := inBitmap);
  }

  /** One round of the doubling loop: while the image does not fit at `s`,
      no power of two below `2 * s` fits either, and `2 * s` does not
      overshoot the larger image side. */
  lemma DoublingStep(imageWidth: int, imageHeight: int, maxWidth: int, maxHeight: int, s: int)
    requires maxWidth >= 0 && maxHeight >= 0 && s >= 1 && IsPow2(s)
    requires forall p :: 1 <= p < s && IsPow2(p) ==> !Fits(imageWidth, imageHeight, maxWidth, maxHeight, p)
    requires !Fits(imageWidth, imageHeight, maxWidth, maxHeight, s)
    ensures IsPow2(2 * s) && s <= Max(imageWidth, imageHeight)
    ensures forall p :: 1 <= p < 2 * s && IsPow2(p) ==> !Fits(imageWidth, imageHeight, maxWidth, maxHeight, p)
  {
    QuotientBelowDivisor(imageWidth, s);
    QuotientBelowDivisor(imageHeight, s);
    forall p | 1 <= p < 2 * s && IsPow2(p)
      ensures !Fits(imageWidth, imageHeight, maxWidth, maxHeight, p)
    {
      if p > s {
        Pow2Gap(p, s);
      }
    }
  }

  function Max(a: int, b: int): int
  {
    if a >= b then a else b
  }

  /** A positive quotient means the divisor is at most the dividend. */
  lemma QuotientBelowDivisor(n: int, s: int)
    requires s >= 1
    ensures JDiv(n, s) >= 1 ==> s <= n
  {
    if JDiv(n, s) >= 1 {
      MulMonotone(s, JDiv(n, s));
    }
  }

  /** Two powers of two differ by at least a factor of two. */
  lemma {:induction false} Pow2Gap(p: int, s: int)
    requires IsPow2(p) && IsPow2(s) && p > s
    ensures p >= 2 * s
    decreases s
  {
    if s > 1 {
      Pow2Gap(p / 2, s / 2);
    }
  }

  /** Java's quotient never grows with the divisor. */
  lemma QuotientAntitone(n: int, p: int, q: int)
    requires 1 <= p <= q
    ensures JDiv(n, q) <= JDiv(n, p) || n < 0
  {
    if n >= 0 {
      var a, b := JDiv(n, p), JDiv(n, q);
      if b > a {
        assert b * p >= (a + 1) * p by { MulMonotone2(a + 1, b, p); }
        assert b * q >= b * p by { MulMonotone2(p, q, b); }
      }
    }
  }

  /** Once the image fits at a sample size, it fits at every larger one. */
  lemma FitsMonotone(imageWidth: int, imageHeight: int, maxWidth: int, maxHeight: int, p: int, q: int)
    requires maxWidth >= 0 && maxHeight >= 0 && 1 <= p <= q
    requires Fits(imageWidth, imageHeight, maxWidth, maxHeight, p)
    ensures Fits(imageWidth, imageHeight, maxWidth, maxHeight, q)
  {
    QuotientAntitone(imageWidth, p, q);
    QuotientAntitone(imageHeight, p, q);
  }

  /** The answer is unique: a power of two that fits while its half does
      not is THE sample size, so any two such values agree. */
  lemma SampleSizeUnique(imageWidth: int, imageHeight: int, maxWidth: int, maxHeight: int, s: int, t: int)
    requires maxWidth >= 0 && maxHeight >= 0
    requires IsPow2(s) && IsPow2(t)
    requires Fits(imageWidth, imageHeight, maxWidth, maxHeight, s)
    requires Fits(imageWidth, imageHeight, maxWidth, maxHeight, t)
    requires s > 1 ==> !Fits(imageWidth, imageHeight, maxWidth, maxHeight, s / 2)
    requires t > 1 ==> !Fits(imageWidth, imageHeight, maxWidth, maxHeight, t / 2)
    ensures s == t
  {
    if s < t {
      HalfFits(imageWidth, imageHeight, maxWidth, maxHeight, s, t);
    } else if t < s {
      HalfFits(imageWidth, imageHeight, maxWidth, maxHeight, t, s);
    }
  }

  /** If a smaller power of two fits, so does half of a larger one. */
  lemma HalfFits(imageWidth: int, imageHeight: int, maxWidth: int, maxHeight: int, small: int, large: int)
    requires maxWidth >= 0 && maxHeight >= 0
    requires IsPow2(small) && IsPow2(large) && small < large
    requires Fits(imageWidth, imageHeight, maxWidth, maxHeight, small)
    ensures large > 1 && Fits(imageWidth, imageHeight, maxWidth, maxHeight, large / 2)
  {
    Pow2Gap(large, small);
    FitsMonotone(imageWidth, imageHeight, maxWidth, maxHeight, small, large / 2);
  }

  /** A 1000 × 500 image in a 200 × 200 box samples by 8: 1000 / 4 = 250 is
      still too wide, 1000 / 8 = 125 fits. */
  lemma SampleSizeExample(s: int)
    requires IsPow2(s) && Fits(1000, 500, 200, 200, s)
    requires s > 1 ==> !Fits(1000, 500, 200, 200, s / 2)
    ensures s == 8
  {
    assert IsPow2(8) by { assert IsPow2(4) by { assert IsPow2(2); } }
    SampleSizeUnique(1000, 500, 200, 200, s, 8);
  }
}
