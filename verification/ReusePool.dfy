/** The bitmap reuse pool of BitmapLruCacheMemoryReuse: the scan of
    getReuseBitmap, which prunes cleared weak handles and claims reusable
    bitmaps, and the per-notification step of the reference-queue monitor.

    The pool is a sequence in the iteration order of the underlying HashSet;
    since that order is hash-dependent, every property below holds for any
    order. A handle is either `Cleared` (its referent was collected) or
    `Live`. */
module ReusePool {
  import opened Bitmaps

  datatype PoolEntry = Cleared | Live(bitmap: Bitmap)

  /** The scan's mutable locals: `width` and `height` are reassigned inside
      the loop, and `inBitmap` holds the latest match. */
  datatype Cursor = Cursor(width: int, height: int, inBitmap: Option<Bitmap>)

  /** The pool after a scan, and the bitmap the scan hands back (None = null). */
  datatype Scanned = Scanned(pool: seq<PoolEntry>, reused: Option<Bitmap>)

  /** Bytes a `width × height` decode needs in `config`, as the scan computes it. */
  function RequiredBytes(width: int, height: int, config: Config): int
  {
    width * height * BytesPerPixel(config)
  }

  /** The rule before KitKat: same size, no downsampling. */
  predicate StrictMatch(b: Bitmap, width: int, height: int, inSampleSize: int)
  {
    b.width == width && b.height == height && inSampleSize == 1
  }

  /** The rule from KitKat on: the decode fits the existing allocation. */
  predicate CapacityMatch(b: Bitmap, width: int, height: int)
  {
    RequiredBytes(width, height, b.config) <= b.allocationByteCount
  }

  /** `x` after `if (inSampleSize > 1) x = x / inSampleSize` has run n times. */
  function Shrink(x: int, inSampleSize: int, n: nat): int
    decreases n
  {
    if n == 0 || inSampleSize <= 1 then x else Shrink(JDiv(x, inSampleSize), inSampleSize, n - 1)
  }

  /** One pass of the loop body over entry `e`: the updated locals, and
      whether `e` stays in the pool. */
  function Visit(sdk: int, inSampleSize: int, c: Cursor, e: PoolEntry): (Cursor, bool)
  {
    match e
    case Cleared => (c, false)
    case Live(b) =>
      if sdk <= JELLY_BEAN_MR2 then
        if StrictMatch(b, c.width, c.height, inSampleSize) then (c.(inBitmap := Some(b)), false)
        else (c, true)
      else
        var width := if inSampleSize > 1 then JDiv(c.width, inSampleSize) else c.width;
        var height := if inSampleSize > 1 then JDiv(c.height, inSampleSize) else c.height;
        if CapacityMatch(b, width, height) then (Cursor(width, height, Some(b)), false)
        else (Cursor(width, height, c.inBitmap), true)
  }

  /** The iterator loop: no early exit, every visited entry either stays or
      is removed. */
  function Scan(sdk: int, inSampleSize: int, c: Cursor, pool: seq<PoolEntry>): Scanned
    decreases |pool|
  {
    if pool == [] then Scanned([], c.inBitmap)
    else
      var (next, keep) := Visit(sdk, inSampleSize, c, pool[0]);
      var rest := Scan(sdk, inSampleSize, next, pool[1..]);
      Scanned(if keep then [pool[0]] + rest.pool else rest.pool, rest.reused)
  }

  // ---------------------------------------------------------------------
  // A reference description of the scan, by position.
  // ---------------------------------------------------------------------

  function LiveCount(pool: seq<PoolEntry>): nat
  {
    if pool == [] then 0 else (if pool[0].Live? then 1 else 0) + LiveCount(pool[1..])
  }

  /** Whether the scan claims entry i. In capacity mode the k-th live entry
      (counting from 1) is compared with the request divided k times. */
  predicate MatchesAt(sdk: int, width: int, height: int, inSampleSize: int, pool: seq<PoolEntry>, i: int)
    requires 0 <= i < |pool|
  {
    && pool[i].Live?
    && if sdk <= JELLY_BEAN_MR2 then StrictMatch(pool[i].bitmap, width, height, inSampleSize)
       else
         var k := LiveCount(pool[..i]) + 1;
         CapacityMatch(pool[i].bitmap, Shrink(width, inSampleSize, k), Shrink(height, inSampleSize, k))
  }

  /** Whether entry i survives the scan: live and not claimed. */
  predicate KeptAt(sdk: int, width: int, height: int, inSampleSize: int, pool: seq<PoolEntry>, i: int)
    requires 0 <= i < |pool|
  {
    pool[i].Live? && !MatchesAt(sdk, width, height, inSampleSize, pool, i)
  }

  function Verdicts(sdk: int, width: int, height: int, inSampleSize: int, pool: seq<PoolEntry>): seq<bool>
  {
    seq(|pool|, i requires 0 <= i < |pool| => KeptAt(sdk, width, height, inSampleSize, pool, i))
  }

  /** The subsequence of `xs` at the positions `keep` marks, in order. */
  function Select<T>(xs: seq<T>, keep: seq<bool>): seq<T>
    requires |xs| == |keep|
  {
    if xs == [] then [] else (if keep[0] then [xs[0]] else []) + Select(xs[1..], keep[1..])
  }

  /** No bitmap is held by two live handles. */
  predicate DistinctLive(pool: seq<PoolEntry>)
  {
    forall i, j :: 0 <= i < j < |pool| && pool[i].Live? && pool[j].Live? ==> pool[i].bitmap.id != pool[j].bitmap.id
  }

  /** getReuseBitmap. Below API 11 reuse is disabled; otherwise the pool
      keeps exactly its live, unclaimed entries in their old order, and the
      result is the LAST claimed entry (every match is removed). */
  function GetReuseBitmap(sdk: int, width: int, height: int, inSampleSize: int, pool: seq<PoolEntry>): (r: Scanned)
    ensures sdk <= GINGERBREAD_MR1 ==> r == Scanned(pool, None)
    ensures sdk > GINGERBREAD_MR1 ==> r.pool == Select(pool, Verdicts(sdk, width, height, inSampleSize, pool))
    ensures sdk > GINGERBREAD_MR1 ==> forall e :: e in r.pool ==> e.Live? && e in pool
    ensures (sdk > GINGERBREAD_MR1 && forall i :: 0 <= i < |pool| ==> !MatchesAt(sdk, width, height, inSampleSize, pool, i))
              ==> r.reused == None
    ensures sdk > GINGERBREAD_MR1 ==>
              forall i :: 0 <= i < |pool| && MatchesAt(sdk, width, height, inSampleSize, pool, i)
                && (forall j :: i < j < |pool| ==> !MatchesAt(sdk, width, height, inSampleSize, pool, j))
                ==> r.reused == Some(pool[i].bitmap)
    ensures r.reused.Some? ==>
              exists i :: 0 <= i < |pool| && MatchesAt(sdk, width, height, inSampleSize, pool, i)
                && pool[i] == Live(r.reused.value)
    ensures r.reused.Some? && DistinctLive(pool) ==> Live(r.reused.value) !in r.pool
  {
    if sdk <= GINGERBREAD_MR1 then Scanned(pool, None)
    else
      var r := Scan(sdk, inSampleSize, Cursor(width, height, None), pool);
      ScanKeeps(sdk, inSampleSize, width, height, None, pool);
      ScanReturnsLast(sdk, inSampleSize, width, height, None, pool);
      ScanReturnsClaimed(sdk, inSampleSize, width, height, None, pool);
      SelectMembers(pool, Verdicts(sdk, width, height, inSampleSize, pool));
      r
  }

  lemma {:induction false} SelectMembers<T>(xs: seq<T>, keep: seq<bool>)
    requires |xs| == |keep|
    ensures forall x :: x in Select(xs, keep) ==> exists k :: 0 <= k < |xs| && keep[k] && xs[k] == x
  {
    if xs != [] {
      SelectMembers(xs[1..], keep[1..]);
      forall x | x in Select(xs, keep)
        ensures exists k :: 0 <= k < |xs| && keep[k] && xs[k] == x
      {
        if !(keep[0] && x == xs[0]) {
          assert x in Select(xs[1..], keep[1..]);
          var k :| 0 <= k < |xs| - 1 && keep[1..][k] && xs[1..][k] == x;
          assert keep[k + 1] && xs[k + 1] == x;
        }
      }
    }
  }

  /** Positions after the first judge the same in the tail, once the locals
      have been updated by the first visit. */
  lemma ShiftMatch(sdk: int, inSampleSize: int, width: int, height: int, acc: Option<Bitmap>,
                   pool: seq<PoolEntry>, i: int)
    requires sdk > GINGERBREAD_MR1 && 1 <= i < |pool|
    ensures var next := Visit(sdk, inSampleSize, Cursor(width, height, acc), pool[0]).0;
            MatchesAt(sdk, width, height, inSampleSize, pool, i)
              == MatchesAt(sdk, next.width, next.height, inSampleSize, pool[1..], i - 1)
  {
    assert pool[..i][1..] == pool[1..][..i - 1];
    assert pool[..i][0] == pool[0];
  }

  /** The first visit judges position 0 as the positional description does,
      and records it in `inBitmap` exactly when it is claimed; later
      positions are judged in the tail with the updated locals. */
  lemma VisitFirst(sdk: int, inSampleSize: int, width: int, height: int,
                   acc: Option<Bitmap>, pool: seq<PoolEntry>)
    requires sdk > GINGERBREAD_MR1 && pool != []
    ensures var (next, keep) := Visit(sdk, inSampleSize, Cursor(width, height, acc), pool[0]);
            && keep == KeptAt(sdk, width, height, inSampleSize, pool, 0)
            && next.inBitmap == (if MatchesAt(sdk, width, height, inSampleSize, pool, 0)
                                 then Some(pool[0].bitmap) else acc)
            && forall i :: 1 <= i < |pool| ==>
                 MatchesAt(sdk, width, height, inSampleSize, pool, i)
                   == MatchesAt(sdk, next.width, next.height, inSampleSize, pool[1..], i - 1)
  {
    assert pool[..0] == [];
    assert LiveCount(pool[..0]) == 0;
    forall i | 1 <= i < |pool|
      ensures var next := Visit(sdk, inSampleSize, Cursor(width, height, acc), pool[0]).0;
              MatchesAt(sdk, width, height, inSampleSize, pool, i)
                == MatchesAt(sdk, next.width, next.height, inSampleSize, pool[1..], i - 1)
    {
      ShiftMatch(sdk, inSampleSize, width, height, acc, pool, i);
    }
  }

  /** The loop keeps exactly the positions the description keeps. */
  lemma {:induction false} ScanKeeps(sdk: int, inSampleSize: int, width: int, height: int,
                                     acc: Option<Bitmap>, pool: seq<PoolEntry>)
    requires sdk > GINGERBREAD_MR1
    ensures Scan(sdk, inSampleSize, Cursor(width, height, acc), pool).pool
              == Select(pool, Verdicts(sdk, width, height, inSampleSize, pool))
    decreases |pool|
  {
    if pool != [] {
      var (next, keep) := Visit(sdk, inSampleSize, Cursor(width, height, acc), pool[0]);
      VisitFirst(sdk, inSampleSize, width, height, acc, pool);
      ScanKeeps(sdk, inSampleSize, next.width, next.height, next.inBitmap, pool[1..]);
      var v := Verdicts(sdk, width, height, inSampleSize, pool);
      assert v[1..] == Verdicts(sdk, next.width, next.height, inSampleSize, pool[1..]);
    }
  }

  /** The loop hands back the last claimed entry, or its starting value
      when nothing is claimed. */
  lemma {:induction false} ScanReturnsLast(sdk: int, inSampleSize: int, width: int, height: int,
                                           acc: Option<Bitmap>, pool: seq<PoolEntry>)
    requires sdk > GINGERBREAD_MR1
    ensures (forall i :: 0 <= i < |pool| ==> !MatchesAt(sdk, width, height, inSampleSize, pool, i))
              ==> Scan(sdk, inSampleSize, Cursor(width, height, acc), pool).reused == acc
    ensures forall i :: 0 <= i < |pool| && MatchesAt(sdk, width, height, inSampleSize, pool, i)
              && (forall j :: i < j < |pool| ==> !MatchesAt(sdk, width, height, inSampleSize, pool, j))
              ==> Scan(sdk, inSampleSize, Cursor(width, height, acc), pool).reused == Some(pool[i].bitmap)
    decreases |pool|
  {
    if pool != [] {
      var (next, keep) := Visit(sdk, inSampleSize, Cursor(width, height, acc), pool[0]);
      var tail := pool[1..];
      VisitFirst(sdk, inSampleSize, width, height, acc, pool);
      ScanReturnsLast(sdk, inSampleSize, next.width, next.height, next.inBitmap, tail);
      var r := Scan(sdk, inSampleSize, Cursor(width, height, acc), pool).reused;
      assert r == Scan(sdk, inSampleSize, next, tail).reused;
      forall i | 0 <= i < |pool| && MatchesAt(sdk, width, height, inSampleSize, pool, i)
                 && (forall j :: i < j < |pool| ==> !MatchesAt(sdk, width, height, inSampleSize, pool, j))
        ensures r == Some(pool[i].bitmap)
      {
        forall j | i <= j < |tail|
          ensures !MatchesAt(sdk, next.width, next.height, inSampleSize, tail, j)
        {
          assert !MatchesAt(sdk, width, height, inSampleSize, pool, j + 1);
        }
        if i > 0 {
          assert MatchesAt(sdk, next.width, next.height, inSampleSize, tail, i - 1);
        }
      }
      if forall i :: 0 <= i < |pool| ==> !MatchesAt(sdk, width, height, inSampleSize, pool, i) {
        forall j | 0 <= j < |tail|
          ensures !MatchesAt(sdk, next.width, next.height, inSampleSize, tail, j)
        {
          assert !MatchesAt(sdk, width, height, inSampleSize, pool, j + 1);
        }
      }
    }
  }

  /** Whatever the loop hands back is its starting value or a claimed entry. */
  lemma {:induction false} ScanReturnsClaimed(sdk: int, inSampleSize: int, width: int, height: int,
                                              acc: Option<Bitmap>, pool: seq<PoolEntry>)
    requires sdk > GINGERBREAD_MR1
    ensures var r := Scan(sdk, inSampleSize, Cursor(width, height, acc), pool).reused;
            r == acc || (r.Some? && exists i :: 0 <= i < |pool| && MatchesAt(sdk, width, height, inSampleSize, pool, i)
                                                 && pool[i] == Live(r.value))
    decreases |pool|
  {
    if pool != [] {
      var (next, keep) := Visit(sdk, inSampleSize, Cursor(width, height, acc), pool[0]);
      var tail := pool[1..];
      VisitFirst(sdk, inSampleSize, width, height, acc, pool);
      ScanReturnsClaimed(sdk, inSampleSize, next.width, next.height, next.inBitmap, tail);
      var r := Scan(sdk, inSampleSize, Cursor(width, height, acc), pool).reused;
      assert r == Scan(sdk, inSampleSize, next, tail).reused;
      if r != acc && r != next.inBitmap && r.Some? {
        var i :| 0 <= i < |tail| && MatchesAt(sdk, next.width, next.height, inSampleSize, tail, i)
                 && tail[i] == Live(r.value);
        assert MatchesAt(sdk, width, height, inSampleSize, pool, i + 1);
      }
    }
  }

  // ---------------------------------------------------------------------
  // The k-fold division, in closed form.
  // ---------------------------------------------------------------------

  function Pow(b: int, k: nat): int
  {
    if k == 0 then 1 else b * Pow(b, k - 1)
  }

  lemma {:induction false} PowPositive(b: int, k: nat)
    requires b >= 1
    ensures Pow(b, k) >= 1
  {
    if k > 0 {
      PowPositive(b, k - 1);
      MulMonotone(Pow(b, k - 1), b);
    }
  }

  /** Dividing by a and then by b is dividing by a * b. */
  lemma DivDiv(x: int, a: int, b: int)
    requires x >= 0 && a >= 1 && b >= 1
    ensures (x / a) / b == x / (a * b)
  {
    var q1, r1 := x / a, x % a;
    var q2, r2 := q1 / b, q1 % b;
    assert x == q2 * (a * b) + (r2 * a + r1) by {
      assert x == q1 * a + r1;
      assert q1 == q2 * b + r2;
      assert q1 * a == q2 * (a * b) + r2 * a;
    }
    assert 0 <= r2 * a + r1 < a * b by {
      MulMonotone2(r2, b - 1, a);
      assert (b - 1) * a == a * b - a;
    }
    DivUnique(x, a * b, q2, r2 * a + r1);
  }

  lemma DivUnique(x: int, d: int, q: int, r: int)
    requires d >= 1 && x == q * d + r && 0 <= r < d
    ensures x / d == q
  {
    var q', r' := x / d, x % d;
    assert x == q' * d + r' && 0 <= r' < d;
    assert q * d - q' * d == (q - q') * d;
    if q > q' {
      MulMonotone(d, q - q');
      assert false;
    } else if q < q' {
      MulMonotone(d, q' - q);
      assert false;
    }
  }

  /** With scaling, the k-th live entry of a capacity-mode scan is compared
      with the request divided by inSampleSize to the k-th power (Java
      division), not by inSampleSize itself. */
  lemma {:induction false} ShrinkIsPowerDivision(x: int, inSampleSize: int, k: nat)
    requires inSampleSize > 1
    ensures Pow(inSampleSize, k) >= 1
    ensures Shrink(x, inSampleSize, k) == JDiv(x, Pow(inSampleSize, k))
    decreases k
  {
    PowPositive(inSampleSize, k);
    if k > 0 {
      ShrinkIsPowerDivision(JDiv(x, inSampleSize), inSampleSize, k - 1);
      var p := Pow(inSampleSize, k - 1);
      assert Pow(inSampleSize, k) == inSampleSize * p;
      if x >= 0 {
        DivDiv(x, inSampleSize, p);
      } else {
        DivDiv(-x, inSampleSize, p);
      }
    }
  }

  /** For a non-negative size, every further division only shrinks it:
      after k >= 1 divisions the size is at most the once-divided one. */
  lemma {:induction false} ShrinkBelowOnce(x: int, inSampleSize: int, k: nat)
    requires x >= 0 && inSampleSize >= 1 && k >= 1
    ensures 0 <= Shrink(x, inSampleSize, k) <= Shrink(x, inSampleSize, 1)
  {
    if inSampleSize > 1 {
      ShrinkBelowSize(JDiv(x, inSampleSize), inSampleSize, k - 1);
    }
  }

  lemma {:induction false} ShrinkBelowSize(x: int, inSampleSize: int, k: nat)
    requires x >= 0 && inSampleSize >= 1
    ensures 0 <= Shrink(x, inSampleSize, k) <= x
    decreases k
  {
    if k > 0 && inSampleSize > 1 {
      ShrinkBelowSize(JDiv(x, inSampleSize), inSampleSize, k - 1);
    }
  }

  /** A bitmap that can host a decode can host any smaller one. */
  lemma CapacityMatchSmaller(b: Bitmap, width: int, height: int, width': int, height': int)
    requires 0 <= width' <= width && 0 <= height' <= height
    requires CapacityMatch(b, width, height)
    ensures CapacityMatch(b, width', height')
  {
    var bpp := BytesPerPixel(b.config);
    MulMonotone2(width', width, height');
    MulMonotone2(height', height, width);
    assert width' * height' <= width * height;
    MulMonotone2(width' * height', width * height, bpp);
  }

  // ---------------------------------------------------------------------
  // The scan as evidently intended: every live entry is compared with the
  // request divided once.
  // ---------------------------------------------------------------------

  predicate IntendedMatch(sdk: int, width: int, height: int, inSampleSize: int, b: Bitmap)
  {
    if sdk <= JELLY_BEAN_MR2 then StrictMatch(b, width, height, inSampleSize)
    else CapacityMatch(b, Shrink(width, inSampleSize, 1), Shrink(height, inSampleSize, 1))
  }

  function ScanFixed(sdk: int, width: int, height: int, inSampleSize: int,
                     acc: Option<Bitmap>, pool: seq<PoolEntry>): (r: Scanned)
    ensures forall e :: e in r.pool ==> e in pool && e.Live? && !IntendedMatch(sdk, width, height, inSampleSize, e.bitmap)
    ensures forall e :: e in pool && e.Live? && !IntendedMatch(sdk, width, height, inSampleSize, e.bitmap) ==> e in r.pool
    ensures r.reused == acc
            || (r.reused.Some? && Live(r.reused.value) in pool
                && IntendedMatch(sdk, width, height, inSampleSize, r.reused.value))
    ensures (exists e :: e in pool && e.Live? && IntendedMatch(sdk, width, height, inSampleSize, e.bitmap))
              ==> r.reused.Some? && Live(r.reused.value) in pool
                  && IntendedMatch(sdk, width, height, inSampleSize, r.reused.value)
    decreases |pool|
  {
    if pool == [] then Scanned([], acc)
    else
      var rest := ScanFixed(sdk, width, height, inSampleSize,
                            if pool[0].Live? && IntendedMatch(sdk, width, height, inSampleSize, pool[0].bitmap)
                            then Some(pool[0].bitmap) else acc,
                            pool[1..]);
      assert forall e :: e in pool ==> e == pool[0] || e in pool[1..];
      if pool[0].Live? && !IntendedMatch(sdk, width, height, inSampleSize, pool[0].bitmap)
      then Scanned([pool[0]] + rest.pool, rest.reused)
      else rest
  }

  /** getReuseBitmap with the divisor applied once per request: a returned
      bitmap can always host the requested (downsampled) image, and one is
      returned whenever any live entry can. */
  function GetReuseBitmapFixed(sdk: int, width: int, height: int, inSampleSize: int,
                               pool: seq<PoolEntry>): (r: Scanned)
    ensures sdk <= GINGERBREAD_MR1 ==> r == Scanned(pool, None)
    ensures r.reused.Some? ==>
              Live(r.reused.value) in pool && IntendedMatch(sdk, width, height, inSampleSize, r.reused.value)
    ensures sdk > GINGERBREAD_MR1 ==>
              (r.reused.Some? <==> exists e :: e in pool && e.Live? && IntendedMatch(sdk, width, height, inSampleSize, e.bitmap))
    ensures sdk > GINGERBREAD_MR1 ==>
              forall e :: e in pool ==> (e in r.pool <==> e.Live? && !IntendedMatch(sdk, width, height, inSampleSize, e.bitmap))
  {
    if sdk <= GINGERBREAD_MR1 then Scanned(pool, None)
    else ScanFixed(sdk, width, height, inSampleSize, None, pool)
  }

  /** The compounding only matters in capacity mode with real scaling:
      otherwise the scan as written and as intended coincide. */
  lemma {:induction false} ScanAgreesWithoutScaling(sdk: int, width: int, height: int, inSampleSize: int,
                                                    acc: Option<Bitmap>, pool: seq<PoolEntry>)
    requires sdk > GINGERBREAD_MR1 && (sdk <= JELLY_BEAN_MR2 || inSampleSize <= 1)
    ensures Scan(sdk, inSampleSize, Cursor(width, height, acc), pool)
              == ScanFixed(sdk, width, height, inSampleSize, acc, pool)
    decreases |pool|
  {
    if pool != [] {
      var next := Visit(sdk, inSampleSize, Cursor(width, height, acc), pool[0]).0;
      ScanAgreesWithoutScaling(sdk, width, height, inSampleSize, next.inBitmap, pool[1..]);
    }
  }

  lemma GetReuseBitmapAgreesWithoutScaling(sdk: int, width: int, height: int, inSampleSize: int,
                                           pool: seq<PoolEntry>)
    requires sdk <= JELLY_BEAN_MR2 || inSampleSize <= 1
    ensures GetReuseBitmap(sdk, width, height, inSampleSize, pool)
              == GetReuseBitmapFixed(sdk, width, height, inSampleSize, pool)
  {
    if sdk > GINGERBREAD_MR1 {
      ScanAgreesWithoutScaling(sdk, width, height, inSampleSize, None, pool);
    }
  }

  /** A 400 × 400 request sampled by 2 needs a 200 × 200 ARGB_8888 buffer
      (160000 bytes). As written, the second live entry is compared with
      100 × 100 and a 40000-byte bitmap is handed back; the intended scan
      hands back nothing. */
  lemma CompoundingDivisionCounterexample()
    ensures var small := Bitmap(1, 10, 10, Argb8888, 400, 400, true, false);
            var b := Bitmap(2, 100, 100, Argb8888, 40000, 40000, true, false);
            var pool := [Live(small), Live(b)];
            && GetReuseBitmap(KITKAT, 400, 400, 2, pool).reused == Some(b)
            && !CapacityMatch(b, JDiv(400, 2), JDiv(400, 2))
            && GetReuseBitmapFixed(KITKAT, 400, 400, 2, pool).reused == None
  {
    var small := Bitmap(1, 10, 10, Argb8888, 400, 400, true, false);
    var b := Bitmap(2, 100, 100, Argb8888, 40000, 40000, true, false);
    var pool := [Live(small), Live(b)];
    assert JDiv(400, 2) == 200 && JDiv(200, 2) == 100;
    var first := Visit(KITKAT, 2, Cursor(400, 400, None), pool[0]);
    assert first == (Cursor(200, 200, None), true);
    var second := Visit(KITKAT, 2, first.0, pool[1]);
    assert second == (Cursor(100, 100, Some(b)), false);
    assert pool[1..][1..] == [];
    assert Shrink(400, 2, 1) == 200;
    assert !IntendedMatch(KITKAT, 400, 400, 2, small) && !IntendedMatch(KITKAT, 400, 400, 2, b);
  }

  /** A 200 × 200 ARGB_8888 bitmap of 160000 bytes, alone in the pool,
      hosts a 200 × 200 request and a 400 × 400 request sampled by 2. */
  lemma CapacityModeExample()
    ensures var b := Bitmap(7, 200, 200, Argb8888, 160000, 160000, true, false);
            && GetReuseBitmap(KITKAT, 200, 200, 1, [Live(b)]) == Scanned([], Some(b))
            && GetReuseBitmap(KITKAT, 400, 400, 2, [Live(b)]) == Scanned([], Some(b))
  {
    assert JDiv(400, 2) == 200;
  }

  // ---------------------------------------------------------------------
  // The reference-queue monitor, one notification at a time.
  // ---------------------------------------------------------------------

  /** The referent after the step, and whether recycle() was called. */
  datatype MonitorOutcome = MonitorOutcome(referent: Option<Bitmap>, recycleCalled: bool)

  /** Recycle the dequeued reference's referent unless it is gone or
      already recycled. */
  function MonitorStep(referent: Option<Bitmap>): (r: MonitorOutcome)
    ensures r.recycleCalled <==> referent.Some? && !referent.value.recycled
    ensures r.referent.Some? <==> referent.Some?
    ensures referent.Some? ==> r.referent == Some(referent.value.(recycled := true))
  {
    match referent
    case None => MonitorOutcome(None, false)
    case Some(b) =>
      if !b.recycled then MonitorOutcome(Some(b.(recycled := true)), true)
      else MonitorOutcome(referent, false)
  }

  /** A second notification for the same bitmap changes nothing and never
      recycles twice. */
  lemma MonitorStepIdempotent(referent: Option<Bitmap>)
    ensures var once := MonitorStep(referent);
            MonitorStep(once.referent) == MonitorOutcome(once.referent, false)
  {
  }
}
