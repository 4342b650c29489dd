/** The memory-cache half of BitmapLruCacheMemoryReuse: the byte budget, the
    sizeOf and entryRemoved overrides, and the put/get/clear wrappers over
    an LRU map.

    The LRU container itself is library code; here it is an ordered list of
    entries, eldest first, whose every removal (replacement on put, eviction
    while over budget, evictAll) goes through the removal hook. The cache
    value also carries what the hook feeds: the reuse pool and the bitmaps
    it recycled. */
module MemoryCache {
  import opened Bitmaps
  import opened ReusePool

  const MB: int := 1024 * 1024

  /** The cache budget in bytes: one eighth of the memory class (given in
      megabytes), with the division done on whole megabytes before scaling
      to bytes. */
  function CacheBudget(memoryClass: int): (bytes: int)
    ensures 0 <= memoryClass < 8 ==> bytes == 0
    ensures bytes % MB == 0
    ensures memoryClass >= 0 ==> 0 <= 8 * bytes <= memoryClass * MB
    ensures memoryClass >= 0 ==> memoryClass * MB < 8 * bytes + 8 * MB
  {
    var eighth := JDiv(memoryClass, 8);
    assert eighth * 1024 * 1024 == eighth * MB;
    eighth * 1024 * 1024
  }

  /** What one cached bitmap is charged: its allocation from KitKat on
      (a reused bitmap may own more than its pixels), its pixel bytes before. */
  function SizeOf(sdk: int, b: Bitmap): (size: nat)
    ensures sdk >= KITKAT ==> size == b.allocationByteCount
    ensures sdk < KITKAT ==> size == b.byteCount
    ensures b.byteCount <= b.allocationByteCount ==> b.byteCount <= size <= b.allocationByteCount
  {
    if sdk >= KITKAT then b.allocationByteCount else b.byteCount
  }

  datatype Entry = Entry(key: string, value: Bitmap)

  /** The cache state: the platform level, the budget, the entries in access
      order (eldest first), the reuse pool, and every bitmap the hook
      recycled, in call order. */
  datatype Cache = Cache(sdk: int, maxSize: int, entries: seq<Entry>,
                         pool: seq<PoolEntry>, recycled: seq<Bitmap>)

  function TotalSize(sdk: int, entries: seq<Entry>): nat
  {
    if entries == [] then 0 else SizeOf(sdk, entries[0].value) + TotalSize(sdk, entries[1..])
  }

  function Values(entries: seq<Entry>): seq<Bitmap>
  {
    seq(|entries|, i requires 0 <= i < |entries| => entries[i].value)
  }

  /** The map invariant: no key is resident twice. */
  predicate KeysUnique(entries: seq<Entry>)
  {
    forall i, j :: 0 <= i < j < |entries| ==> DistinctKeys(entries, i, j)
  }

  predicate DistinctKeys(entries: seq<Entry>, i: int, j: int)
    requires 0 <= i < |entries| && 0 <= j < |entries|
  {
    entries[i].key != entries[j].key
  }

  /** Position of `key`, or -1. */
  function Find(entries: seq<Entry>, key: string): (i: int)
    ensures -1 <= i < |entries|
    ensures i == -1 <==> forall k :: 0 <= k < |entries| ==> entries[k].key != key
    ensures i >= 0 ==> entries[i].key == key && forall k :: 0 <= k < i ==> entries[k].key != key
  {
    if entries == [] then -1
    else if entries[0].key == key then 0
    else
      var j := Find(entries[1..], key);
      if j < 0 then -1 else j + 1
  }

  /** The entries without the one for `key`, if any. */
  function RemoveKey(entries: seq<Entry>, key: string): seq<Entry>
  {
    var i := Find(entries, key);
    if i < 0 then entries else entries[..i] + entries[i + 1..]
  }

  function Lookup(entries: seq<Entry>, key: string): Option<Bitmap>
  {
    var i := Find(entries, key);
    if i < 0 then None else Some(entries[i].value)
  }

  /** init: an empty cache with the computed budget and an empty pool. */
  function Init(sdk: int, memoryClass: int): (c: Cache)
    ensures c.sdk == sdk && c.maxSize == CacheBudget(memoryClass)
    ensures c.entries == [] && c.pool == [] && c.recycled == []
    ensures memoryClass >= 0 ==> 0 <= 8 * c.maxSize <= memoryClass * MB
  {
    Cache(sdk, CacheBudget(memoryClass), [], [], [])
  }

  // ---------------------------------------------------------------------
  // The removal hook.
  // ---------------------------------------------------------------------

  /** entryRemoved: a mutable bitmap joins the reuse pool, an immutable one
      is recycled; each removal takes exactly one of the two branches. */
  function EntryRemoved(c: Cache, oldValue: Bitmap): (r: Cache)
    ensures r.sdk == c.sdk && r.maxSize == c.maxSize && r.entries == c.entries
    ensures oldValue.mutable ==> r.pool == c.pool + [Live(oldValue)] && r.recycled == c.recycled
    ensures !oldValue.mutable ==> r.recycled == c.recycled + [oldValue] && r.pool == c.pool
  {
    if oldValue.mutable then c.(pool := c.pool + [Live(oldValue)]) else c.(recycled := c.recycled + [oldValue])
  }

  function Mutables(bs: seq<Bitmap>): seq<Bitmap>
  {
    if bs == [] then [] else (if bs[0].mutable then [bs[0]] else []) + Mutables(bs[1..])
  }

  function Immutables(bs: seq<Bitmap>): seq<Bitmap>
  {
    if bs == [] then [] else (if bs[0].mutable then [] else [bs[0]]) + Immutables(bs[1..])
  }

  /** The pool handles a run of removals adds: one per mutable bitmap. */
  function PoolAdds(bs: seq<Bitmap>): seq<PoolEntry>
  {
    if bs == [] then [] else (if bs[0].mutable then [Live(bs[0])] else []) + PoolAdds(bs[1..])
  }

  /** The bitmaps the live handles of a pool segment refer to. */
  function PoolBitmaps(pool: seq<PoolEntry>): seq<Bitmap>
  {
    if pool == [] then []
    else (if pool[0].Live? then [pool[0].bitmap] else []) + PoolBitmaps(pool[1..])
  }

  /** A run of removals, in order, each through the hook. */
  function HandOff(c: Cache, olds: seq<Bitmap>): (r: Cache)
    ensures r.sdk == c.sdk && r.maxSize == c.maxSize && r.entries == c.entries
    ensures r.pool == c.pool + PoolAdds(olds)
    ensures r.recycled == c.recycled + Immutables(olds)
    decreases |olds|
  {
    if olds == [] then c
    else
      var c1 := EntryRemoved(c, olds[0]);
      var r := HandOff(c1, olds[1..]);
      HandOffStep(c, c1, r, olds);
      r
  }

  /** One hook call followed by the rest of the run. */
  lemma HandOffStep(c: Cache, c1: Cache, r: Cache, olds: seq<Bitmap>)
    requires olds != [] && c1 == EntryRemoved(c, olds[0])
    requires r.pool == c1.pool + PoolAdds(olds[1..])
    requires r.recycled == c1.recycled + Immutables(olds[1..])
    ensures r.pool == c.pool + PoolAdds(olds)
    ensures r.recycled == c.recycled + Immutables(olds)
  {
    var x := olds[0];
    var poolHead := if x.mutable then [Live(x)] else [];
    var recycledHead := if x.mutable then [] else [x];
    assert c1.pool == c.pool + poolHead;
    assert c1.recycled == c.recycled + recycledHead;
    ImmutablesStep(olds);
    Associate(c.pool, poolHead, PoolAdds(olds[1..]));
    Associate(c.recycled, recycledHead, Immutables(olds[1..]));
  }

  /** Associativity of concatenation and one unfolding of Immutables, stated
      as separate steps: a call adds just the one equation, whereas proving
      it inline inside HandOffStep's context exhausts the solver. */
  lemma Associate<T>(a: seq<T>, b: seq<T>, c: seq<T>)
    ensures (a + b) + c == a + (b + c)
  {
  }

  lemma ImmutablesStep(olds: seq<Bitmap>)
    requires olds != []
    ensures Immutables(olds) == (if olds[0].mutable then [] else [olds[0]]) + Immutables(olds[1..])
  {
  }

  // ---------------------------------------------------------------------
  // The LRU map.
  // ---------------------------------------------------------------------

  /** Evict eldest entries while the total is over budget; the result is
      (evicted, kept). */
  function Trim(sdk: int, maxSize: int, entries: seq<Entry>): (r: (seq<Entry>, seq<Entry>))
    ensures r.0 + r.1 == entries
    ensures TotalSize(sdk, r.1) <= maxSize || r.1 == []
    decreases |entries|
  {
    if entries == [] || TotalSize(sdk, entries) <= maxSize then ([], entries)
    else
      var t := Trim(sdk, maxSize, entries[1..]);
      Associate([entries[0]], t.0, t.1);
      assert entries == [entries[0]] + entries[1..];
      ([entries[0]] + t.0, t.1)
  }

  /** Trim stops as soon as the total fits: putting back the last evicted
      entry would exceed the budget again. */
  lemma {:induction false} TrimEvictsOnlyWhileOver(sdk: int, maxSize: int, entries: seq<Entry>)
    ensures var r := Trim(sdk, maxSize, entries);
            r.0 != [] ==> TotalSize(sdk, [r.0[|r.0| - 1]] + r.1) > maxSize
    decreases |entries|
  {
    if entries != [] && TotalSize(sdk, entries) > maxSize {
      var t := Trim(sdk, maxSize, entries[1..]);
      TrimEvictsOnlyWhileOver(sdk, maxSize, entries[1..]);
      var evicted := [entries[0]] + t.0;
      if t.0 == [] {
        assert [evicted[|evicted| - 1]] + t.1 == entries;
      } else {
        assert evicted[|evicted| - 1] == t.0[|t.0| - 1];
      }
    }
  }

  /** putBitmapToLruCache: replace any entry for `key` (the old value goes
      through the hook), append the new entry as most recent, then trim. */
  function Put(c: Cache, key: string, value: Bitmap): (r: Cache)
    ensures r.sdk == c.sdk && r.maxSize == c.maxSize
    ensures TotalSize(r.sdk, r.entries) <= r.maxSize || r.entries == []
    ensures c.pool <= r.pool && c.recycled <= r.recycled
  {
    var c1 := Unlink(c, key);
    var t := Trim(c.sdk, c.maxSize, Candidates(c, key, value));
    HandOff(c1.(entries := t.1), Values(t.0))
  }

  /** What put trims: the entries left after the replacement step, then
      the new entry as most recent. */
  function Candidates(c: Cache, key: string, value: Bitmap): seq<Entry>
  {
    Unlink(c, key).entries + [Entry(key, value)]
  }

  /** The replacement step of put: drop the entry for `key`, if any, and
      pass its value through the hook. */
  function Unlink(c: Cache, key: string): (r: Cache)
    ensures r.sdk == c.sdk && r.maxSize == c.maxSize
    ensures c.pool <= r.pool && c.recycled <= r.recycled
  {
    var i := Find(c.entries, key);
    if i < 0 then c
    else EntryRemoved(c.(entries := RemoveKey(c.entries, key)), c.entries[i].value)
  }

  /** getBitmapFromLruCache: a hit moves the entry to the most-recent end. */
  function Get(c: Cache, key: string): (r: (Option<Bitmap>, Cache))
    ensures r.0.Some? <==> exists k :: 0 <= k < |c.entries| && c.entries[k].key == key
    ensures r.0.Some? ==> Entry(key, r.0.value) in c.entries
                          && |r.1.entries| > 0 && r.1.entries[|r.1.entries| - 1] == Entry(key, r.0.value)
    ensures r.0.None? ==> r.1 == c
    ensures r.0.Some? ==> r.1.entries[..|r.1.entries| - 1] == RemoveKey(c.entries, key)
    ensures multiset(r.1.entries) == multiset(c.entries)
    ensures r.1.sdk == c.sdk && r.1.maxSize == c.maxSize && r.1.pool == c.pool && r.1.recycled == c.recycled
  {
    var i := Find(c.entries, key);
    if i < 0 then (None, c)
    else
      MoveToEnd(c.entries, key);
      (Some(c.entries[i].value), c.(entries := RemoveKey(c.entries, key) + [c.entries[i]]))
  }

  /** Moving the entry for `key` to the most recent end permutes the list. */
  lemma MoveToEnd(es: seq<Entry>, key: string)
    requires Find(es, key) >= 0
    ensures var i := Find(es, key);
            var moved := RemoveKey(es, key) + [es[i]];
            && multiset(moved) == multiset(es)
            && |moved| > 0 && moved[|moved| - 1] == Entry(key, es[i].value)
            && Entry(key, es[i].value) in es
  {
    var i := Find(es, key);
    MoveToEndPermutes(es, i);
    assert es[i] in es;
  }

  lemma MoveToEndPermutes(es: seq<Entry>, i: int)
    requires 0 <= i < |es|
    ensures multiset(es[..i] + es[i + 1..] + [es[i]]) == multiset(es)
  {
    var a, x, b := es[..i], es[i], es[i + 1..];
    assert es == a + [x] + b;
    assert multiset(a + b + [x]) == multiset(a) + multiset(b) + multiset{x};
    assert multiset(a + [x] + b) == multiset(a) + multiset{x} + multiset(b);
  }

  /** clearLruCache: every entry leaves through the hook, eldest first. */
  function EvictAll(c: Cache): (r: Cache)
    ensures r.sdk == c.sdk && r.maxSize == c.maxSize
    ensures r.entries == []
    ensures r.pool == c.pool + PoolAdds(Values(c.entries))
    ensures r.recycled == c.recycled + Immutables(Values(c.entries))
  {
    HandOff(c.(entries := []), Values(c.entries))
  }

  // ---------------------------------------------------------------------
  // Properties.
  // ---------------------------------------------------------------------

  /** Every bitmap handed to the hook ends up in exactly one of the pool
      and the recycled list. */
  lemma {:induction false} SplitByMutability(bs: seq<Bitmap>)
    ensures multiset(Mutables(bs)) + multiset(Immutables(bs)) == multiset(bs)
  {
    if bs != [] {
      SplitByMutability(bs[1..]);
      assert bs == [bs[0]] + bs[1..];
    }
  }

  /** The hook's split by mutability is a partition of the removed bitmaps. */
  lemma {:induction false} SplitMembers(bs: seq<Bitmap>)
    ensures forall b :: b in Mutables(bs) ==> b in bs && b.mutable
    ensures forall b :: b in Immutables(bs) ==> b in bs && !b.mutable
  {
    if bs != [] {
      SplitMembers(bs[1..]);
    }
  }

  lemma {:induction false} PoolAddsMembers(bs: seq<Bitmap>)
    ensures forall e :: e in PoolAdds(bs) ==> e.Live? && e.bitmap in bs && e.bitmap.mutable
  {
    if bs != [] {
      PoolAddsMembers(bs[1..]);
    }
  }

  /** The handles a run adds refer to exactly its mutable bitmaps. */
  lemma {:induction false} PoolBitmapsPoolAdds(bs: seq<Bitmap>)
    ensures PoolBitmaps(PoolAdds(bs)) == Mutables(bs)
  {
    if bs != [] {
      var head := if bs[0].mutable then [Live(bs[0])] else [];
      PoolBitmapsConcat(head, PoolAdds(bs[1..]));
      PoolBitmapsPoolAdds(bs[1..]);
      assert PoolBitmaps(head) == (if bs[0].mutable then [bs[0]] else []);
    }
  }

  lemma {:induction false} PoolBitmapsConcat(a: seq<PoolEntry>, b: seq<PoolEntry>)
    ensures PoolBitmaps(a + b) == PoolBitmaps(a) + PoolBitmaps(b)
  {
    if a != [] {
      PoolBitmapsConcat(a[1..], b);
      assert (a + b)[1..] == a[1..] + b;
    } else {
      assert a + b == b;
    }
  }

  /** What a run of hand-offs adds to the pool and the recycled list is a
      split of the removed bitmaps by mutability. */
  lemma HandOffConserves(c: Cache, olds: seq<Bitmap>)
    ensures var r := HandOff(c, olds);
            && c.pool <= r.pool && c.recycled <= r.recycled
            && HookShaped(c, r)
            && Delta(c, r) == multiset(olds)
  {
    var r := HandOff(c, olds);
    assert r.pool[|c.pool|..] == PoolAdds(olds);
    assert r.recycled[|c.recycled|..] == Immutables(olds);
    PoolBitmapsPoolAdds(olds);
    SplitByMutability(olds);
    SplitMembers(olds);
    PoolAddsMembers(olds);
  }

  /** clearLruCache loses nothing: every resident bitmap is handed to the
      hook exactly once. */
  lemma EvictAllConserves(c: Cache)
    ensures var r := EvictAll(c);
            && r.entries == []
            && c.pool <= r.pool && c.recycled <= r.recycled
            && HookShaped(c, r)
            && Delta(c, r) == multiset(Values(c.entries))
  {
    HandOffConserves(c.(entries := []), Values(c.entries));
  }

  /** Trimming never evicts into a suffix that already fits: it keeps the
      longest fitting run of most recent entries. */
  lemma {:induction false} TrimKeepsFittingSuffix(sdk: int, maxSize: int, entries: seq<Entry>, n: nat)
    requires n <= |entries| && TotalSize(sdk, entries[|entries| - n..]) <= maxSize
    ensures |Trim(sdk, maxSize, entries).1| >= n
    decreases |entries|
  {
    if n == |entries| {
      assert entries[|entries| - n..] == entries;
    } else if entries != [] && TotalSize(sdk, entries) > maxSize {
      assert entries[1..][|entries[1..]| - n..] == entries[|entries| - n..];
      TrimKeepsFittingSuffix(sdk, maxSize, entries[1..], n);
    }
  }

  lemma RemoveAtKeepsKeysUnique(es: seq<Entry>, i: int)
    requires KeysUnique(es) && 0 <= i < |es|
    ensures KeysUnique(es[..i] + es[i + 1..])
    ensures forall e :: e in es[..i] + es[i + 1..] ==> e in es && e.key != es[i].key
  {
    var rest := es[..i] + es[i + 1..];
    assert forall k :: 0 <= k < |rest| ==> rest[k] == es[if k < i then k else k + 1];
    forall a, b | 0 <= a < b < |rest|
      ensures DistinctKeys(rest, a, b)
    {
      assert DistinctKeys(es, if a < i then a else a + 1, if b < i then b else b + 1);
    }
    forall e | e in rest
      ensures e in es && e.key != es[i].key
    {
      var k :| 0 <= k < |rest| && rest[k] == e;
      if k < i {
        assert DistinctKeys(es, k, i);
      } else {
        assert DistinctKeys(es, i, k + 1);
      }
    }
  }

  /** Unlinking `key` keeps keys unique and leaves no entry for `key`. */
  lemma UnlinkKeysUnique(c: Cache, key: string)
    requires KeysUnique(c.entries)
    ensures KeysUnique(Unlink(c, key).entries)
    ensures forall e :: e in Unlink(c, key).entries ==> e in c.entries && e.key != key
  {
    var i := Find(c.entries, key);
    if i >= 0 {
      RemoveAtKeepsKeysUnique(c.entries, i);
    }
  }

  /** put keeps keys unique. */
  lemma PutKeysUnique(c: Cache, key: string, value: Bitmap)
    requires KeysUnique(c.entries)
    ensures KeysUnique(Put(c, key, value).entries)
  {
    var all := Candidates(c, key, value);
    assert KeysUnique(all) by {
      UnlinkKeysUnique(c, key);
      AppendKeysUnique(Unlink(c, key).entries, Entry(key, value));
    }
    var kept := Trim(c.sdk, c.maxSize, all).1;
    PutIsTrim(c, key, value);
    TrimIsSuffix(c.sdk, c.maxSize, all);
    SuffixKeysUnique(all, |all| - |kept|);
  }

  /** put adds no entry but the new one. */
  lemma PutAddsOnlyNew(c: Cache, key: string, value: Bitmap)
    ensures forall e :: e in Put(c, key, value).entries ==> e == Entry(key, value) || e in c.entries
  {
    var all := Candidates(c, key, value);
    var kept := Trim(c.sdk, c.maxSize, all).1;
    PutIsTrim(c, key, value);
    TrimIsSuffix(c.sdk, c.maxSize, all);
    forall e | e in kept
      ensures e == Entry(key, value) || e in c.entries
    {
      assert e in all;
      if e != Entry(key, value) {
        assert e in Unlink(c, key).entries;
        UnlinkSubset(c, key, e);
      }
    }
  }

  lemma UnlinkSubset(c: Cache, key: string, e: Entry)
    requires e in Unlink(c, key).entries
    ensures e in c.entries
  {
    var i := Find(c.entries, key);
    if i >= 0 {
      assert c.entries == c.entries[..i] + [c.entries[i]] + c.entries[i + 1..];
    }
  }

  /** The entries put keeps are those the trim of the candidates keeps. */
  lemma PutIsTrim(c: Cache, key: string, value: Bitmap)
    ensures Put(c, key, value).entries == Trim(c.sdk, c.maxSize, Candidates(c, key, value)).1
  {
  }

  /** Trim keeps a suffix. */
  lemma TrimIsSuffix(sdk: int, maxSize: int, entries: seq<Entry>)
    ensures var kept := Trim(sdk, maxSize, entries).1;
            |kept| <= |entries| && kept == entries[|entries| - |kept|..]
  {
    var t := Trim(sdk, maxSize, entries);
    assert entries[|t.0|..] == t.1;
  }

  /** A tail that fits the budget is kept, unchanged, at the end. */
  lemma TrimKeepsTail(sdk: int, maxSize: int, entries: seq<Entry>, n: nat)
    requires n <= |entries| && TotalSize(sdk, entries[|entries| - n..]) <= maxSize
    ensures var kept := Trim(sdk, maxSize, entries).1;
            |kept| >= n && kept[|kept| - n..] == entries[|entries| - n..]
  {
    TrimKeepsFittingSuffix(sdk, maxSize, entries, n);
    TrimIsSuffix(sdk, maxSize, entries);
  }

  lemma AppendKeysUnique(es: seq<Entry>, e: Entry)
    requires KeysUnique(es) && forall x :: x in es ==> x.key != e.key
    ensures KeysUnique(es + [e])
  {
    var all := es + [e];
    forall i, j | 0 <= i < j < |all|
      ensures DistinctKeys(all, i, j)
    {
      if j == |es| {
        assert all[i] in es;
      } else {
        assert DistinctKeys(es, i, j);
      }
    }
  }

  lemma SuffixKeysUnique(es: seq<Entry>, k: nat)
    requires KeysUnique(es) && k <= |es|
    ensures KeysUnique(es[k..])
    ensures forall e :: e in es[k..] ==> e in es
  {
    var tail := es[k..];
    forall i, j | 0 <= i < j < |tail|
      ensures DistinctKeys(tail, i, j)
    {
      assert DistinctKeys(es, i + k, j + k);
    }
  }

  /** Round trip: right after put, get finds the value, as the most recent
      entry, whenever the value alone fits the budget. */
  lemma PutThenGet(c: Cache, key: string, value: Bitmap)
    requires KeysUnique(c.entries)
    requires SizeOf(c.sdk, value) <= c.maxSize
    ensures var r := Put(c, key, value);
            && |r.entries| > 0 && r.entries[|r.entries| - 1] == Entry(key, value)
            && Get(r, key).0 == Some(value)
  {
    var all := Candidates(c, key, value);
    assert all[|all| - 1..] == [Entry(key, value)];
    assert TotalSize(c.sdk, [Entry(key, value)]) == SizeOf(c.sdk, value) by {
      assert [Entry(key, value)][1..] == [];
    }
    var kept := Trim(c.sdk, c.maxSize, all).1;
    TrimKeepsTail(c.sdk, c.maxSize, all, 1);
    assert kept[|kept| - 1] == kept[|kept| - 1..][0];
    PutIsTrim(c, key, value);
    PutKeysUnique(c, key, value);
    LookupFinds(kept, |kept| - 1);
  }

  /** A value larger than the whole budget does not stay: put evicts it at
      once, through the hook, and with it every other entry. */
  lemma PutOversizedEvictsAtOnce(c: Cache, key: string, value: Bitmap)
    requires SizeOf(c.sdk, value) > c.maxSize
    ensures var r := Put(c, key, value);
            r.entries == [] && value in Delta(c, r)
  {
    PutOversizedEmpties(c, key, value);
    PutConserves(c, key, value);
    var r := Put(c, key, value);
    var d := Delta(c, r);
    assert Values(r.entries) == [];
    assert d == multiset(Values(c.entries)) + multiset{value};
  }

  /** The trim half of the above: nothing stays resident. */
  lemma PutOversizedEmpties(c: Cache, key: string, value: Bitmap)
    requires SizeOf(c.sdk, value) > c.maxSize
    ensures Put(c, key, value).entries == []
  {
    var all := Candidates(c, key, value);
    assert all[|all| - 1] == Entry(key, value);
    TrimDropsOversizedLast(c.sdk, c.maxSize, all);
    PutIsTrim(c, key, value);
  }

  /** When the most recent entry alone exceeds the budget, trim keeps nothing. */
  lemma TrimDropsOversizedLast(sdk: int, maxSize: int, entries: seq<Entry>)
    requires entries != [] && SizeOf(sdk, entries[|entries| - 1].value) > maxSize
    ensures Trim(sdk, maxSize, entries).1 == []
  {
    var kept := Trim(sdk, maxSize, entries).1;
    TrimIsSuffix(sdk, maxSize, entries);
    if kept != [] {
      assert kept[|kept| - 1] == entries[|entries| - 1];
      TotalSizeCoversLast(sdk, kept);
      assert false;
    }
  }

  /** The total charge is at least the charge of the most recent entry. */
  lemma {:induction false} TotalSizeCoversLast(sdk: int, entries: seq<Entry>)
    requires entries != []
    ensures TotalSize(sdk, entries) >= SizeOf(sdk, entries[|entries| - 1].value)
    decreases |entries|
  {
    if |entries| > 1 {
      TotalSizeCoversLast(sdk, entries[1..]);
    }
  }

  /** What the replacement step hands to the hook: the old value, if any. */
  lemma UnlinkConserves(c: Cache, key: string)
    ensures var r := Unlink(c, key);
            && HookShaped(c, r)
            && multiset(Values(r.entries)) + Delta(c, r) == multiset(Values(c.entries))
  {
    var i := Find(c.entries, key);
    var r := Unlink(c, key);
    if i < 0 {
      assert r.pool[|c.pool|..] == [] && r.recycled[|c.recycled|..] == [];
    } else {
      var c1 := c.(entries := RemoveKey(c.entries, key));
      assert multiset(Values(c.entries)) == multiset(Values(c1.entries)) + multiset{c.entries[i].value} by {
        RemoveAtValues(c.entries, i);
      }
      EntryRemovedDelta(c1, c.entries[i].value);
    }
  }

  lemma RemoveAtValues(es: seq<Entry>, i: int)
    requires 0 <= i < |es|
    ensures multiset(Values(es)) == multiset(Values(es[..i] + es[i + 1..])) + multiset{es[i].value}
  {
    assert es == es[..i] + [es[i]] + es[i + 1..];
    assert Values(es[..i] + [es[i]]) == Values(es[..i]) + Values([es[i]]);
    assert Values(es[..i] + [es[i]] + es[i + 1..]) == Values(es[..i] + [es[i]]) + Values(es[i + 1..]);
    assert Values(es[..i] + es[i + 1..]) == Values(es[..i]) + Values(es[i + 1..]);
  }

  /** One hook call hands exactly the removed bitmap on. */
  lemma EntryRemovedDelta(c: Cache, oldValue: Bitmap)
    ensures var r := EntryRemoved(c, oldValue);
            && HookShaped(c, r)
            && Delta(c, r) == multiset{oldValue}
  {
    var r := EntryRemoved(c, oldValue);
    if oldValue.mutable {
      assert r.pool[|c.pool|..] == [Live(oldValue)];
      assert PoolBitmaps([Live(oldValue)]) == [oldValue];
      assert r.recycled[|c.recycled|..] == [];
    } else {
      assert r.pool[|c.pool|..] == [];
      assert r.recycled[|c.recycled|..] == [oldValue];
    }
  }

  /** What the hook added between two states of the cache. */
  function Delta(before: Cache, after: Cache): multiset<Bitmap>
    requires before.pool <= after.pool && before.recycled <= after.recycled
  {
    multiset(PoolBitmaps(after.pool[|before.pool|..])) + multiset(after.recycled[|before.recycled|..])
  }

  /** Every handle the hook added is live and mutable; every bitmap it
      recycled is immutable. */
  predicate HookShaped(before: Cache, after: Cache)
    requires before.pool <= after.pool && before.recycled <= after.recycled
  {
    && (forall e :: e in after.pool[|before.pool|..] ==> e.Live? && e.bitmap.mutable)
    && (forall b :: b in after.recycled[|before.recycled|..] ==> !b.mutable)
  }

  lemma ComposeDeltas(a: Cache, b: Cache, z: Cache)
    requires a.pool <= b.pool <= z.pool && a.recycled <= b.recycled <= z.recycled
    ensures a.pool <= z.pool && a.recycled <= z.recycled
    ensures Delta(a, z) == Delta(a, b) + Delta(b, z)
    ensures HookShaped(a, b) && HookShaped(b, z) ==> HookShaped(a, z)
  {
    assert z.pool[|a.pool|..] == b.pool[|a.pool|..] + z.pool[|b.pool|..];
    assert z.recycled[|a.recycled|..] == b.recycled[|a.recycled|..] + z.recycled[|b.recycled|..];
    PoolBitmapsConcat(b.pool[|a.pool|..], z.pool[|b.pool|..]);
  }

  /** put loses nothing: the resident bitmaps after the call, plus those the
      hook handed to the pool (all mutable) or recycled (all immutable),
      are exactly the resident bitmaps before plus the new one. */
  lemma PutConserves(c: Cache, key: string, value: Bitmap)
    ensures var r := Put(c, key, value);
            && HookShaped(c, r)
            && multiset(Values(r.entries)) + Delta(c, r) == multiset(Values(c.entries)) + multiset{value}
  {
    var c1 := Unlink(c, key);
    UnlinkConserves(c, key);
    var all := Candidates(c, key, value);
    var t := Trim(c.sdk, c.maxSize, all);
    var c2 := c1.(entries := t.1);
    var r := Put(c, key, value);
    assert r == HandOff(c2, Values(t.0));
    HandOffConserves(c2, Values(t.0));
    assert Delta(c1, r) == multiset(Values(t.0));
    ComposeDeltas(c, c1, r);
    SplitValues(t.0, t.1, c1.entries, Entry(key, value));
    assert r.entries == t.1;
    MultisetShuffle(multiset(Values(t.1)), multiset(Values(t.0)), Delta(c, c1),
                    multiset(Values(c1.entries)), multiset(Values(c.entries)), multiset{value});
  }

  /** The bookkeeping step of PutConserves, on opaque multisets. */
  lemma MultisetShuffle<T>(kept: multiset<T>, evicted: multiset<T>, unlinked: multiset<T>,
                           mid: multiset<T>, before: multiset<T>, added: multiset<T>)
    requires evicted + kept == mid + added
    requires mid + unlinked == before
    ensures kept + (unlinked + evicted) == before + added
  {
    forall x
      ensures (kept + (unlinked + evicted))[x] == (before + added)[x]
    {
      assert (evicted + kept)[x] == (mid + added)[x];
      assert (mid + unlinked)[x] == before[x];
    }
  }

  /** Cutting `es + [e]` anywhere splits its values without loss. */
  lemma SplitValues(front: seq<Entry>, back: seq<Entry>, es: seq<Entry>, e: Entry)
    requires front + back == es + [e]
    ensures multiset(Values(front)) + multiset(Values(back)) == multiset(Values(es)) + multiset{e.value}
  {
    assert Values(front + back) == Values(front) + Values(back);
    assert Values(es + [e]) == Values(es) + Values([e]);
    assert Values([e]) == [e.value];
    assert multiset(Values(front) + Values(back)) == multiset(Values(front)) + multiset(Values(back));
    assert multiset(Values(es) + [e.value]) == multiset(Values(es)) + multiset{e.value};
  }

  lemma GetKeysUnique(c: Cache, key: string)
    requires KeysUnique(c.entries)
    ensures KeysUnique(Get(c, key).1.entries)
  {
    var i := Find(c.entries, key);
    if i >= 0 {
      RemoveAtKeepsKeysUnique(c.entries, i);
      AppendKeysUnique(RemoveKey(c.entries, key), c.entries[i]);
    }
  }

  /** With unique keys, a resident entry is what lookup finds. */
  lemma LookupFinds(es: seq<Entry>, k: int)
    requires KeysUnique(es) && 0 <= k < |es|
    ensures Lookup(es, es[k].key) == Some(es[k].value)
  {
    var i := Find(es, es[k].key);
    assert i < k ==> DistinctKeys(es, i, k);
  }

  /** LRU order: an entry just read is not evicted by the next put of
      another key, as long as the two together fit the budget. */
  lemma GetProtectsFromNextPut(c: Cache, key: string, key2: string, value: Bitmap)
    requires KeysUnique(c.entries) && key != key2
    requires Get(c, key).0.Some?
    requires SizeOf(c.sdk, Get(c, key).0.value) + SizeOf(c.sdk, value) <= c.maxSize
    ensures Lookup(Put(Get(c, key).1, key2, value).entries, key) == Get(c, key).0
  {
    var g := Get(c, key);
    assert KeysUnique(g.1.entries) by { GetKeysUnique(c, key); }
    LastSurvivesPut(g.1, Entry(key, g.0.value), key2, value);
  }

  /** Lookup still finds the most recent entry after a put of another key
      that fits the budget together with it. */
  lemma LastSurvivesPut(c: Cache, e: Entry, key: string, value: Bitmap)
    requires KeysUnique(c.entries) && e.key != key
    requires c.entries != [] && c.entries[|c.entries| - 1] == e
    requires SizeOf(c.sdk, e.value) + SizeOf(c.sdk, value) <= c.maxSize
    ensures Lookup(Put(c, key, value).entries, e.key) == Some(e.value)
  {
    PutKeepsLast(c, key, value, e);
    PutKeysUnique(c, key, value);
    LookupSecondLast(Put(c, key, value).entries, e);
  }

  lemma LookupSecondLast(kept: seq<Entry>, e: Entry)
    requires KeysUnique(kept) && |kept| >= 2 && kept[|kept| - 2] == e
    ensures Lookup(kept, e.key) == Some(e.value)
  {
    LookupFinds(kept, |kept| - 2);
  }

  /** The most recent entry survives a put of another key when the two
      together fit the budget, and ends up second most recent. */
  lemma PutKeepsLast(c: Cache, key: string, value: Bitmap, e: Entry)
    requires c.entries != [] && c.entries[|c.entries| - 1] == e && e.key != key
    requires SizeOf(c.sdk, e.value) + SizeOf(c.sdk, value) <= c.maxSize
    ensures var kept := Put(c, key, value).entries;
            |kept| >= 2 && kept[|kept| - 2] == e
  {
    var rest := Unlink(c, key).entries;
    assert |rest| > 0 && rest[|rest| - 1] == e by { UnlinkKeepsLast(c.entries, key); }
    var all := Candidates(c, key, value);
    assert TotalSize(c.sdk, all[|all| - 2..]) <= c.maxSize && all[|all| - 2] == e by {
      PairTail(c.sdk, c.maxSize, rest, Entry(key, value));
    }
    var kept := Trim(c.sdk, c.maxSize, all).1;
    TrimKeepsTail(c.sdk, c.maxSize, all, 2);
    assert kept[|kept| - 2] == kept[|kept| - 2..][0];
    assert all[|all| - 2] == all[|all| - 2..][0];
    PutIsTrim(c, key, value);
  }

  /** Appending to a list whose last entry fits together with the new one
      gives a fitting tail of two. */
  lemma PairTail(sdk: int, maxSize: int, rest: seq<Entry>, x: Entry)
    requires |rest| > 0 && SizeOf(sdk, rest[|rest| - 1].value) + SizeOf(sdk, x.value) <= maxSize
    ensures var all := rest + [x];
            TotalSize(sdk, all[|all| - 2..]) <= maxSize && all[|all| - 2] == rest[|rest| - 1]
  {
    var all := rest + [x];
    assert all[|all| - 2..] == [rest[|rest| - 1], x];
    TotalSizePair(sdk, rest[|rest| - 1], x);
  }

  /** Unlinking a key other than the last entry's keeps that entry last. */
  lemma UnlinkKeepsLast(es: seq<Entry>, key: string)
    requires es != [] && es[|es| - 1].key != key
    ensures var rest := RemoveKey(es, key);
            |rest| > 0 && rest[|rest| - 1] == es[|es| - 1]
  {
    var i := Find(es, key);
    if i >= 0 {
      var rest := es[..i] + es[i + 1..];
      assert rest[|rest| - 1] == es[|es| - 1];
    }
  }

  lemma TotalSizePair(sdk: int, x: Entry, y: Entry)
    ensures TotalSize(sdk, [x, y]) == SizeOf(sdk, x.value) + SizeOf(sdk, y.value)
  {
    assert [y][1..] == [];
    assert TotalSize(sdk, [y]) == SizeOf(sdk, y.value);
    assert [x, y][1..] == [y];
  }


  // ---------------------------------------------------------------------
  // The eviction hand-off: what the hook puts in the pool is what the next
  // reuse scan sees.
  // ---------------------------------------------------------------------

  /** An immutable bitmap handed to the hook is recycled, never offered: the
      next scan cannot return it unless the pool already held it. */
  lemma ImmutableNeverReused(c: Cache, b: Bitmap, sdk: int, width: int, height: int, inSampleSize: int)
    requires !b.mutable && Live(b) !in c.pool
    ensures GetReuseBitmap(sdk, width, height, inSampleSize, EntryRemoved(c, b).pool).reused != Some(b)
  {
  }

  /** A mutable bitmap handed to the hook is offered to the very next scan:
      when it can host the request, that scan returns it (it is the most
      recently added handle, so no later match overrides it). */
  lemma MutableReusedByNextScan(c: Cache, b: Bitmap, sdk: int, width: int, height: int, inSampleSize: int)
    requires b.mutable && sdk > GINGERBREAD_MR1
    requires width >= 0 && height >= 0 && inSampleSize >= 1
    requires IntendedMatch(sdk, width, height, inSampleSize, b)
    ensures GetReuseBitmap(sdk, width, height, inSampleSize, EntryRemoved(c, b).pool).reused == Some(b)
  {
    var pool := EntryRemoved(c, b).pool;
    var n := |pool| - 1;
    assert pool[n] == Live(b);
    if sdk > JELLY_BEAN_MR2 {
      var k := LiveCount(pool[..n]) + 1;
      ShrinkBelowOnce(width, inSampleSize, k);
      ShrinkBelowOnce(height, inSampleSize, k);
      CapacityMatchSmaller(b, Shrink(width, inSampleSize, 1), Shrink(height, inSampleSize, 1),
                           Shrink(width, inSampleSize, k), Shrink(height, inSampleSize, k));
    }
    assert MatchesAt(sdk, width, height, inSampleSize, pool, n);
  }
}
