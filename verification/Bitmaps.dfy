/** Platform vocabulary shared by the sizing policy, the reuse pool and the
    memory cache: decoded bitmaps as their getters report them, pixel
    formats, and Java's integer division. */
module Bitmaps {

  datatype Option<T> = None | Some(value: T)

  /** Pixel formats. The code only tells ARGB_8888 and RGB_565 apart; every
      other format (and a missing one) is `OtherConfig`. */
  datatype Config = Argb8888 | Rgb565 | OtherConfig(name: string)

  /** A decoded image buffer. `id` stands for object identity, the other
      fields for getWidth, getHeight, getConfig, getByteCount,
      getAllocationByteCount, isMutable and isRecycled. */
  datatype Bitmap = Bitmap(
    id: nat,
    width: int,
    height: int,
    config: Config,
    byteCount: nat,
    allocationByteCount: nat,
    mutable: bool,
    recycled: bool)

  /** Android API levels the code branches on. */
  const GINGERBREAD_MR1: int := 10
  const JELLY_BEAN_MR2: int := 18
  const KITKAT: int := 19

  /** Java's `a / b` for a positive divisor: rounds toward zero, whereas
      Dafny's `/` is Euclidean. */
  function JDiv(a: int, b: int): (q: int)
    requires b > 0
    ensures 0 <= a ==> 0 <= q <= a && q * b <= a < q * b + b
    ensures a < 0 ==> a <= q <= 0 && q * b - b < a <= q * b
  {
    if a >= 0 then
      EuclideanDivision(a, b);
      a / b
    else
      EuclideanDivision(-a, b);
      -((-a) / b)
  }

  /** For n >= 0, `n / b` is the largest q with q * b <= n. */
  lemma EuclideanDivision(n: int, b: int)
    requires n >= 0 && b > 0
    ensures 0 <= n / b <= n
    ensures (n / b) * b <= n < (n / b) * b + b
  {
    var q, r := n / b, n % b;
    assert n == q * b + r && 0 <= r < b;
    if q < 0 {
      MulMonotone(-q, b);
      assert false;
    }
    MulMonotone(q, b);
  }

  lemma MulMonotone(x: int, b: int)
    requires x >= 0 && b >= 1
    ensures x * b >= x
  {
    assert x * b - x == x * (b - 1);
  }

  lemma MulMonotone2(x: int, y: int, c: int)
    requires 0 <= x <= y && c >= 0
    ensures x * c <= y * c
  {
    assert y * c - x * c == (y - x) * c;
  }

  /** Bytes per pixel the reuse scan assumes for a stored format: 2 for
      RGB_565, 4 for ARGB_8888 and for anything else. */
  function BytesPerPixel(config: Config): nat
  {
    if config == Rgb565 then 2 else 4
  }
}
