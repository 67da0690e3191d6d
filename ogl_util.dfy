/**
 * gov.nasa.worldwind.util.OGLUtil.estimateMemorySize: the number of bytes a
 * texture of a given internal format, pixel type and size occupies, with or
 * without its mip-map chain, computed in Java int arithmetic.
 */
module OglUtil {
  import opened JavaLang
  import opened JavaInt

  /** Texture internal formats and pixel types, with their OpenGL ES 2.0 values. */
  const GlAlpha: int := 0x1906
  const GlRgb: int := 0x1907
  const GlRgba: int := 0x1908
  const GlLuminance: int := 0x1909
  const GlLuminanceAlpha: int := 0x190A
  const GlUnsignedShort4444: int := 0x8033
  const GlUnsignedShort5551: int := 0x8034
  const GlUnsignedShort565: int := 0x8363

  function Pow2(n: nat): (r: nat)
    ensures r >= 1
  {
    if n == 0 then 1 else 2 * Pow2(n - 1)
  }

  /** x >> n for a non-negative int x and a shift below 32: n halvings, each rounding down. */
  function Shr(x: nat, n: nat): nat {
    if n == 0 then x else Shr(x / 2, n - 1)
  }

  /**
   * (int) WWMath.logBase2(n): the floor of the base-2 logarithm for n >= 1;
   * for 0 the logarithm is negative infinity, which the cast turns into the
   * least int.
   */
  function Log2(n: nat): (r: int)
    ensures n == 0 ==> r == IntMin
    ensures n >= 1 ==> 0 <= r && Pow2(r) <= n < 2 * Pow2(r)
  {
    if n == 0 then IntMin else if n == 1 then 0 else 1 + Log2(n / 2)
  }

  /** The number of mip levels after the first: the larger of the two logarithms. */
  function MaxLevel(width: nat, height: nat): (r: int)
    requires IsInt(width) && IsInt(height)
    ensures r <= 30
  {
    var lw, lh := Log2(width), Log2(height);
    Pow2Bound(lw);
    Pow2Bound(lh);
    if lw >= lh then lw else lh
  }

  /** A power of two no larger than an int has an exponent of at most 30. */
  lemma Pow2Bound(k: int)
    ensures k >= 31 ==> Pow2(k) > IntMax
  {
    if k >= 31 {
      Pow2Grows(31, k);
      Pow2Of31();
    }
  }

  lemma Pow2Of31()
    ensures Pow2(31) == 0x8000_0000
  {
    assert Pow2(8) == 0x100;
    assert Pow2(16) == 0x1_0000;
    assert Pow2(24) == 0x100_0000;
  }

  lemma {:induction false} Pow2Grows(a: nat, b: nat)
    requires a <= b
    ensures Pow2(a) <= Pow2(b)
    decreases b - a
  {
    if a < b {
      Pow2Grows(a, b - 1);
    }
  }

  /** The pixels of mip level l: the level's width times its height, each at least 1. */
  function LevelPixels(width: nat, height: nat, level: nat): nat {
    AtLeastOne(Shr(width, level)) * AtLeastOne(Shr(height, level))
  }

  /** Math.max(x, 1). */
  function AtLeastOne(x: nat): (r: nat)
    ensures r >= 1 && (x >= 1 ==> r == x)
  {
    if x >= 1 then x else 1
  }

  /** numPixels after the levels 1 to n have been added, each product and sum wrapping as int arithmetic does. */
  function WrappedPixels(width: nat, height: nat, n: nat): (r: int)
    ensures IsInt(r)
  {
    if n == 0 then Wrap(width * height)
    else Wrap(WrappedPixels(width, height, n - 1) + Wrap(LevelPixels(width, height, n)))
  }

  /** The exact number of pixels of the texture and its levels 1 to n. */
  function ExactPixels(width: nat, height: nat, n: nat): nat {
    if n == 0 then width * height else ExactPixels(width, height, n - 1) + LevelPixels(width, height, n)
  }

  /** The bytes one pixel takes: 1 for alpha and luminance, 2 for luminance-alpha, 2 or 3 for RGB, 2 or 4 otherwise. */
  function BytesPerPixel(internalFormat: int, pixelType: int): (r: nat)
    ensures 1 <= r <= 4
    ensures internalFormat == GlAlpha || internalFormat == GlLuminance ==> r == 1
    ensures internalFormat == GlLuminanceAlpha ==> r == 2
    ensures internalFormat == GlRgb ==> r == (if pixelType == GlUnsignedShort565 then 2 else 3)
    ensures internalFormat !in {GlAlpha, GlLuminance, GlLuminanceAlpha, GlRgb} ==>
              r == (if pixelType == GlUnsignedShort4444 || pixelType == GlUnsignedShort5551 then 2 else 4)
  {
    if internalFormat == GlAlpha || internalFormat == GlLuminance then 1
    else if internalFormat == GlLuminanceAlpha then 2
    else if internalFormat == GlRgb then (if pixelType == GlUnsignedShort565 then 2 else 3)
    else if pixelType == GlUnsignedShort4444 || pixelType == GlUnsignedShort5551 then 2
    else 4
  }

  /** The mip levels estimateMemorySize adds: none without mip-maps, else 1 to MaxLevel. */
  function Levels(width: nat, height: nat, includeMipmaps: bool): nat
    requires IsInt(width) && IsInt(height)
  {
    if includeMipmaps && MaxLevel(width, height) >= 1 then MaxLevel(width, height) else 0
  }

  /**
   * estimateMemorySize as written: the byte count in int arithmetic, widened
   * to a long only at the end. A negative width or height is rejected.
   */
  method EstimateMemorySize(internalFormat: int, pixelType: int, width: int, height: int, includeMipmaps: bool)
    returns (r: Outcome<int>)
    requires IsInt(width) && IsInt(height)
    ensures width < 0 || height < 0 <==> r.Throw?
    ensures r.Throw? ==> r.exception == IllegalArgument
    ensures r.Return? ==>
              r.value == Wrap(BytesPerPixel(internalFormat, pixelType) * WrappedPixels(width, height, Levels(width, height, includeMipmaps)))
  {
    if width < 0 {
      return Throw(IllegalArgument);
    }
    if height < 0 {
      return Throw(IllegalArgument);
    }
    var numPixels := Wrap(width * height);
    if includeMipmaps {
      var maxLevel := MaxLevel(width, height);
      var level := 1;
      while level <= maxLevel
        invariant 1 <= level <= (if maxLevel >= 1 then maxLevel + 1 else 1)
        invariant numPixels == WrappedPixels(width, height, level - 1)
      {
        numPixels := Wrap(numPixels + Wrap(LevelPixels(width, height, level)));
        level := level + 1;
      }
      assert level - 1 == Levels(width, height, includeMipmaps);
    }
    assert numPixels == WrappedPixels(width, height, Levels(width, height, includeMipmaps));
    return Return(Wrap(BytesPerPixel(internalFormat, pixelType) * numPixels));
  }

  /** The size estimateMemorySize evidently means: the exact byte count, which no int bounds. */
  function ExactMemorySize(internalFormat: int, pixelType: int, width: nat, height: nat, includeMipmaps: bool): nat
    requires IsInt(width) && IsInt(height)
  {
    BytesPerPixel(internalFormat, pixelType) * ExactPixels(width, height, Levels(width, height, includeMipmaps))
  }

  /** Including the mip-map chain never makes the exact estimate smaller. */
  lemma {:induction false} ExactPixelsGrow(width: nat, height: nat, n: nat)
    ensures ExactPixels(width, height, n) >= width * height
    decreases n
  {
    if n > 0 {
      ExactPixelsGrow(width, height, n - 1);
    }
  }

  /** With mip-maps the exact size is at least the size without them. */
  lemma MipmapsNotSmaller(internalFormat: int, pixelType: int, width: nat, height: nat)
    requires IsInt(width) && IsInt(height)
    ensures ExactMemorySize(internalFormat, pixelType, width, height, true)
            >= ExactMemorySize(internalFormat, pixelType, width, height, false)
  {
    var n := Levels(width, height, true);
    ExactPixelsGrow(width, height, n);
    MulMonotone(BytesPerPixel(internalFormat, pixelType), ExactPixels(width, height, n), ExactPixels(width, height, 0));
  }

  lemma MulMonotone(b: nat, x: int, y: int)
    requires x >= y
    ensures b * x >= b * y
  {
  }

  /** The int pixel count differs from the exact count by a multiple of 2^32. */
  lemma {:induction false} WrappedPixelsCongruent(width: nat, height: nat, n: nat)
    ensures Congruent(WrappedPixels(width, height, n), ExactPixels(width, height, n))
    decreases n
  {
    if n == 0 {
      WrapIsCongruent(width * height);
    } else {
      WrappedPixelsCongruent(width, height, n - 1);
      var a, e := WrappedPixels(width, height, n - 1), ExactPixels(width, height, n - 1);
      var l := LevelPixels(width, height, n);
      WrapIsCongruent(l);
      AddCongruent(a, e, Wrap(l), l);
      WrapIsCongruent(a + Wrap(l));
      CongruentTrans(Wrap(a + Wrap(l)), a + Wrap(l), e + l);
    }
  }

  /** What estimateMemorySize returns is the exact size wrapped to an int: the two agree exactly when the size fits. */
  lemma AsWrittenIsWrappedExact(internalFormat: int, pixelType: int, width: nat, height: nat, includeMipmaps: bool)
    requires IsInt(width) && IsInt(height)
    ensures var n := Levels(width, height, includeMipmaps);
            Wrap(BytesPerPixel(internalFormat, pixelType) * WrappedPixels(width, height, n))
            == Wrap(ExactMemorySize(internalFormat, pixelType, width, height, includeMipmaps))
  {
    var n := Levels(width, height, includeMipmaps);
    var b := BytesPerPixel(internalFormat, pixelType);
    WrappedPixelsCongruent(width, height, n);
    MulCongruent(b, WrappedPixels(width, height, n), ExactPixels(width, height, n));
    WrapCongruent(b * WrappedPixels(width, height, n), b * ExactPixels(width, height, n));
  }

  /** A 23171 by 23171 RGBA texture, without mip-maps, gets a negative estimate: 4 * numPixels overflows the int. */
  lemma AsWrittenOverflows()
    ensures Wrap(BytesPerPixel(GlRgba, 0) * WrappedPixels(23171, 23171, 0)) < 0
    ensures ExactMemorySize(GlRgba, 0, 23171, 23171, false) == 2147580964
  {
    assert Wrap(23171 * 23171) == 536895241;
  }
}
