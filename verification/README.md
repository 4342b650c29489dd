# BitmapMemory: downsampling, the reuse pool and the LRU memory cache in Dafny

This project models the sequential logic of the BitmapMemory Android sample:

- **`BitmapSizeReduce.getResizedBitmap`** (module `SizeReduce`). The method
  searches for the smallest power-of-two `inSampleSize` whose Java-truncated
  quotients fit a `maxWidth × maxHeight` box. It then sets the options for
  the real decode: sample size, RGB_565 when the image has no alpha,
  `inJustDecodeBounds = false`, `inMutable = true` and the caller's
  `inBitmap`.
- **`BitmapLruCacheMemoryReuse.getReuseBitmap`** (module `ReusePool`). The
  scan over the weak-reference reuse pool drops cleared handles and claims
  reusable bitmaps. It uses the strict rule on API 11–18 and the byte-capacity
  rule from API 19. Two quirks of the code are kept as written:
  - the loop has no early exit, so every match is removed and the last one
    is returned;
  - `width` and `height` are reassigned inside the loop, so the division by
    `inSampleSize` compounds with every live entry visited.

  The module also models the reference-queue monitor's action for one
  notification.
- **The memory cache** (module `MemoryCache`). It covers:
  - the byte budget, `memoryClass / 8 * 1024 * 1024` with the division first;
  - the `sizeOf` override;
  - the `entryRemoved` override: a mutable bitmap goes to the reuse pool, an
    immutable one is recycled;
  - put, get and clear over an LRU map.

  The map is an ordered list of entries, eldest first. Every removal goes
  through the hook: a replacement on put, an eviction while over budget, and
  every entry on evictAll.

Module `Bitmaps` holds the shared vocabulary:
- bitmaps as their getters report them;
- pixel formats;
- the API levels the code tests;
- `JDiv`, Java's integer division, which rounds toward zero. Dafny's `/` is
  Euclidean.

Integers are unbounded. The pool's iteration order is a parameter: the real
container is a `HashSet`, so every property holds for any order. Liveness of
a weak reference is an input: a pool entry is `Cleared` or `Live(bitmap)`.

## Model

| member | source | states |
|---|---|---|
| SizeReduce.SampleSize | app/src/main/java/kim/hsl/bm/utils/BitmapSizeReduce.java:45-89 | The doubling loop returns a power of two `s ≥ 1` at which both truncated quotients fit the box. Half of `s` does not fit, and no smaller power of two fits. `s == 1` when the image already fits, whatever the bounds, as for the -1 × -1 size of a failed bounds probe. Otherwise non-negative bounds are required: for a non-negative image size a negative bound is never met, so the loop cannot end normally. |
| SizeReduce.GetResizedBitmap | app/src/main/java/kim/hsl/bm/utils/BitmapSizeReduce.java:26-116 | The final options carry that fitting, minimal power-of-two sample size. The config is RGB_565 exactly when there is no alpha channel; otherwise the incoming config is untouched. `inJustDecodeBounds` is false, `inMutable` is true, and `inBitmap` is the caller's argument. |
| SizeReduce.DoublingStep | app/src/main/java/kim/hsl/bm/utils/BitmapSizeReduce.java:81-84 | One loop round keeps the invariant: if nothing below `s` fits and `s` does not fit, nothing below `2s` fits. `s` stays at most the larger image side, which is the termination measure. |
| SizeReduce.FitsMonotone | app/src/main/java/kim/hsl/bm/utils/BitmapSizeReduce.java:81-82 | For non-negative bounds, once the image fits at a sample size, it fits at every larger one (Java's truncating division). With a negative bound this can fail: a -1 × -1 image in a -1 × -1 box fits at 1 and not at 2. |
| SizeReduce.SampleSizeUnique | app/src/main/java/kim/hsl/bm/utils/BitmapSizeReduce.java:79-85 | At most one power of two fits while its half does not. The loop's answer is therefore determined by the image and the box alone. |
| SizeReduce.SampleSizeExample | app/src/main/java/kim/hsl/bm/utils/BitmapSizeReduce.java:79-85 | A 1000 × 500 image in a 200 × 200 box samples by exactly 8. |
| ReusePool.GetReuseBitmap | app/src/main/java/kim/hsl/bm/utils/BitmapLruCacheMemoryReuse.java:229-305 | Up to API 10 the result is null and the pool is unchanged. Otherwise the pool keeps exactly its live, unclaimed entries in their old order. The result is the last claimed entry, or null when nothing matched. A returned bitmap was claimed from the pool and, when no bitmap is held twice, is no longer in it. |
| ReusePool.ScanKeeps | app/src/main/java/kim/hsl/bm/utils/BitmapLruCacheMemoryReuse.java:238-302 | The iterator loop removes cleared and claimed entries and keeps the rest in order. It equals the positional description, in which the k-th live entry is judged against the request divided k times. |
| ReusePool.ScanReturnsLast | app/src/main/java/kim/hsl/bm/utils/BitmapLruCacheMemoryReuse.java:236-304 | With no early exit, the loop hands back the last claimed entry, or the initial null when nothing is claimed. |
| ReusePool.ScanReturnsClaimed | app/src/main/java/kim/hsl/bm/utils/BitmapLruCacheMemoryReuse.java:263-294 | Whatever the loop hands back is either its starting value or an entry it claimed. |
| ReusePool.ShrinkIsPowerDivision | app/src/main/java/kim/hsl/bm/utils/BitmapLruCacheMemoryReuse.java:274-277 | Dividing k times by `inSampleSize` with Java's division equals one division by `inSampleSize^k`. In capacity mode, the k-th live entry is compared with the request divided by the k-th power. |
| ReusePool.GetReuseBitmapFixed | app/src/main/java/kim/hsl/bm/utils/BitmapLruCacheMemoryReuse.java:273-295 | In the corrected scan, every live entry is compared with the request divided once. A returned bitmap can host the requested decode. One is returned exactly when some live entry can. An entry stays exactly when it is live and cannot host the decode. |
| ReusePool.GetReuseBitmapAgreesWithoutScaling | app/src/main/java/kim/hsl/bm/utils/BitmapLruCacheMemoryReuse.java:249-295 | In strict mode, or with `inSampleSize ≤ 1`, the scan as written and the corrected scan give the same pool and the same result. |
| ReusePool.CompoundingDivisionCounterexample | app/src/main/java/kim/hsl/bm/utils/BitmapLruCacheMemoryReuse.java:274-294 | A concrete input on which the scan as written hands back a bitmap that is too small for the requested decode, while the corrected scan hands back nothing. |
| ReusePool.CapacityModeExample | app/src/main/java/kim/hsl/bm/utils/BitmapLruCacheMemoryReuse.java:279-295 | On API 19, a 160000-byte ARGB_8888 bitmap hosts a 200 × 200 request, and a 400 × 400 request sampled by 2. In both cases it leaves the pool. |
| ReusePool.MonitorStep | app/src/main/java/kim/hsl/bm/utils/BitmapLruCacheMemoryReuse.java:190-195 | `recycle()` is called exactly when the referent is present and not yet recycled. Afterwards a present referent is recycled. |
| ReusePool.MonitorStepIdempotent | app/src/main/java/kim/hsl/bm/utils/BitmapLruCacheMemoryReuse.java:191-195 | A second notification for the same referent changes nothing and never recycles twice. |
| MemoryCache.CacheBudget | app/src/main/java/kim/hsl/bm/utils/BitmapLruCacheMemoryReuse.java:116-118 | The budget is a whole number of megabytes, at most one eighth of the memory class. It is less than one megabyte short of that eighth, and it is 0 for memory classes 0–7, because the division truncates before scaling. |
| MemoryCache.Init | app/src/main/java/kim/hsl/bm/utils/BitmapLruCacheMemoryReuse.java:94-121 | The cache starts empty, with an empty pool and nothing recycled. It keeps the given API level, and its budget is exactly the computed one, which is at most one eighth of the memory class. |
| MemoryCache.SizeOf | app/src/main/java/kim/hsl/bm/utils/BitmapLruCacheMemoryReuse.java:131-138 | A bitmap is charged its allocation size from KitKat on and its pixel bytes before. When the allocation covers the pixels, the charge lies between the two. |
| MemoryCache.EntryRemoved | app/src/main/java/kim/hsl/bm/utils/BitmapLruCacheMemoryReuse.java:148-169 | A removed mutable bitmap is appended to the pool and not recycled. A removed immutable one is recycled and not pooled. Exactly one branch runs, and the entries are untouched. |
| MemoryCache.EntryRemovedDelta | app/src/main/java/kim/hsl/bm/utils/BitmapLruCacheMemoryReuse.java:164-169 | One hook call hands on exactly the removed bitmap: to the pool if mutable, to the recycled list if not. |
| MemoryCache.ImmutableNeverReused | app/src/main/java/kim/hsl/bm/utils/BitmapLruCacheMemoryReuse.java:164-169 | Eviction hand-off, immutable side: a removed immutable bitmap is recycled and not pooled, so the next reuse scan cannot return it unless the pool already held it. |
| MemoryCache.MutableReusedByNextScan | app/src/main/java/kim/hsl/bm/utils/BitmapLruCacheMemoryReuse.java:164-166 | Eviction hand-off, mutable side: from API 11 on, a removed mutable bitmap that can host a request is what the next reuse scan for that request returns. Its handle is the newest in the pool, so no later match overrides it, and the compounding division only makes its test easier. |
| MemoryCache.HandOff | app/src/main/java/kim/hsl/bm/utils/BitmapLruCacheMemoryReuse.java:148-169 | A run of removals, each through the hook, appends one live handle per mutable bitmap in order, and recycles the immutable ones in order. |
| MemoryCache.HandOffConserves | app/src/main/java/kim/hsl/bm/utils/BitmapLruCacheMemoryReuse.java:164-169 | The bitmaps a run adds to the pool and to the recycled list are together exactly the removed ones, as a multiset. The pooled ones are all mutable and the recycled ones all immutable. |
| MemoryCache.TrimEvictsOnlyWhileOver | app/src/main/java/kim/hsl/bm/utils/BitmapLruCacheMemoryReuse.java:118-121 | Eviction stops as soon as the total fits the budget: putting the last evicted entry back would exceed it. |
| MemoryCache.TrimKeepsFittingSuffix | app/src/main/java/kim/hsl/bm/utils/BitmapLruCacheMemoryReuse.java:118-121 | Any run of most recent entries whose sizes fit the budget survives the trim. |
| MemoryCache.Put | app/src/main/java/kim/hsl/bm/utils/BitmapLruCacheMemoryReuse.java:317-319 | After put, the resident entries fit the budget, or none is left. The pool and the recycled list only grow. |
| MemoryCache.PutConserves | app/src/main/java/kim/hsl/bm/utils/BitmapLruCacheMemoryReuse.java:317-319 | Put loses nothing. The resident bitmaps after the call, plus those the hook pooled (all mutable) or recycled (all immutable), equal the resident bitmaps before plus the new one. |
| MemoryCache.PutKeysUnique | app/src/main/java/kim/hsl/bm/utils/BitmapLruCacheMemoryReuse.java:317-319 | Put keeps the map invariant: no key is resident twice. |
| MemoryCache.PutAddsOnlyNew | app/src/main/java/kim/hsl/bm/utils/BitmapLruCacheMemoryReuse.java:317-319 | After put, every resident entry is the new one or was resident before. |
| MemoryCache.PutThenGet | app/src/main/java/kim/hsl/bm/utils/BitmapLruCacheMemoryReuse.java:317-328 | Round trip: when the value alone fits the budget, a get right after put finds it, as the most recent entry. |
| MemoryCache.PutOversizedEvictsAtOnce | app/src/main/java/kim/hsl/bm/utils/BitmapLruCacheMemoryReuse.java:317-319 | A value whose charge exceeds the whole budget does not stay resident. Put leaves the cache empty, and the value itself has gone through the hook. |
| MemoryCache.PutOversizedEmpties | app/src/main/java/kim/hsl/bm/utils/BitmapLruCacheMemoryReuse.java:317-319 | The trim half of the above: after putting an over-budget value, nothing is resident. |
| MemoryCache.Get | app/src/main/java/kim/hsl/bm/utils/BitmapLruCacheMemoryReuse.java:326-328 | Get hits exactly when the key is resident, and returns that entry's value. A hit moves the entry to the most recent end, and the other entries keep their relative order. A miss leaves the cache unchanged. The entries stay a permutation of the old ones, and the pool, the recycled list, the budget and the API level are unchanged. |
| MemoryCache.GetKeysUnique | app/src/main/java/kim/hsl/bm/utils/BitmapLruCacheMemoryReuse.java:326-328 | Get keeps the map invariant. |
| MemoryCache.GetProtectsFromNextPut | app/src/main/java/kim/hsl/bm/utils/BitmapLruCacheMemoryReuse.java:317-328 | LRU order: an entry just read survives the next put of another key when the two fit the budget together, and get still finds it. |
| MemoryCache.UnlinkConserves | app/src/main/java/kim/hsl/bm/utils/BitmapLruCacheMemoryReuse.java:148-169 | Replacing a key on put hands its old value to the hook and loses nothing else. |
| MemoryCache.EvictAll | app/src/main/java/kim/hsl/bm/utils/BitmapLruCacheMemoryReuse.java:333-335 | After clear, the cache is empty, and its budget and API level are unchanged. Each former entry, eldest first, was pooled if mutable and recycled if not. |
| MemoryCache.EvictAllConserves | app/src/main/java/kim/hsl/bm/utils/BitmapLruCacheMemoryReuse.java:333-335 | Clear hands every resident bitmap to the hook exactly once: the pooled and recycled bitmaps together are the former contents, as a multiset. |

## Left out

- ReusePool.GetReuseBitmap: "the returned bitmap is no longer in the pool" is proved only when no bitmap is held by two live handles. The pool is a set of weak references, not of bitmaps, so the same bitmap removed twice from the cache can sit in it twice.
- SizeReduce.SampleSize: requires non-negative bounds unless the image already fits, in which case the loop is skipped. For a non-negative image size a negative bound is never met, so with unbounded integers the loop would never end. In Java the doubling overflows to 0 and the division throws `ArithmeticException`, which is not modelled because overflow is not.
- The reference-queue monitor thread, `ReferenceQueue` and `WeakReference` collection, and the synchronized set are concurrency and garbage-collector behaviour. Liveness is an input (`Cleared` or `Live`). Only the action for one dequeued reference is modelled. `release()` only clears the loop flag; it does not interrupt a blocked `remove()`.
- `android.util.LruCache` is library code. The map here evicts the eldest entries while the total exceeds the budget, and nothing more is claimed about the library. An entry larger than the whole budget is evicted at once, through the hook, together with every other entry. What the library does with a zero budget from memory classes below 8 is not modelled.
- Where a new pool handle lands in the `HashSet`'s iteration order is hash-dependent. The hook appends it, and every scan property holds for any order.
- MemoryCache.MutableReusedByNextScan: relies on that append. In a real `HashSet` the new handle may be visited before another match, and the scan then returns the later match instead. The bitmap is still claimed and removed from the pool.
- `recycle()` is recorded by adding the bitmap to the cache's recycled list. Other handles to that bitmap are not marked.
- Java's 32-bit overflow is not modelled:
  - in `width * height * 4`;
  - in the doubling `inSampleSize * 2`;
  - in the budget's `* 1024 * 1024`.
- Both `BitmapFactory.decodeResource` calls are external. The bounds probe's output width and height are inputs. The options object as the probe left it is an input too, because its default config is library-defined. The decoded bitmap is not modelled.
- The singleton accessor, `MainActivity` (UI and JNI glue), the `BitmapResize` stub, `BitmapMemoryCache` and the disk-cache variant are outside this model, and so is the unreachable `return null` in `getResizedBitmap`. The cache model does not call `getReuseBitmap`, because the sample's caller discards its result.
- Logging and error output have no effect on the modelled state and are dropped: the `Log.w` of the sample size in `getResizedBitmap`, and the `printStackTrace` when the monitor's blocking `remove()` is interrupted.
- ReusePool.MonitorStep: models the monitor's branch as written. The collector clears a weak reference before enqueueing it, so in Java `reference.get()` on a dequeued handle always returns null and the recycle branch never runs. The step is kept because it is what the code states.

## Findings

| source | as written | input that shows it | evidently intended | confidence | as-written member | corrected member |
|---|---|---|---|---|---|---|
| app/src/main/java/kim/hsl/bm/utils/BitmapLruCacheMemoryReuse.java:274-277 | In capacity mode `width` and `height` are overwritten with `width / inSampleSize` inside the loop, so the k-th live entry is compared with the request divided by `inSampleSize^k`. | API 19, request 400 × 400, `inSampleSize` 2, pool [10 × 10 ARGB_8888 bitmap of 400 bytes, 100 × 100 ARGB_8888 bitmap of 40000 bytes]. The second entry is tested against 100 × 100 × 4 = 40000 bytes and returned, although the decode needs 200 × 200 × 4 = 160000 bytes. | Every live entry is compared with the request divided once (`w / s × h / s`). A returned bitmap can then always host the decode. | not executed | ReusePool.CompoundingDivisionCounterexample | ReusePool.GetReuseBitmapFixed |
