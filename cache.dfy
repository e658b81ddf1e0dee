/** vs_cache (lsd/chord.h): a bounded key/value cache with strict
    least-recently-used eviction and an optional flush callback that sees
    every evicted entry.  The intrusive hash index becomes a map, the LRU
    tail-queue a sequence of keys (head = least recent), and the counter a
    field kept beside them. */
module LruCache {
  import opened Wrappers

  /** Identity of a flush callback installed with set_flushcb; what the
      callback does is outside the model, its invocations are returned. */
  type CallbackId = nat

  /** One invocation of the flush callback, `(c->fcb)(k, v)`. */
  datatype FlushCall<K, V> = FlushCall(cb: CallbackId, key: K, value: V)

  /** The default capacity of a new cache. */
  const DefaultMaxEntries: nat := 250

  // ---------------------------------------------------------------------
  // The cache as a value: the hash index and the LRU order.

  datatype View<K, V> = View(entries: map<K, V>, lru: seq<K>)

  predicate NoDup<K(==)>(s: seq<K>)
  {
    forall i, j :: 0 <= i < j < |s| ==> s[i] != s[j]
  }

  /** Each key has one entry, and the index and the LRU list hold the same keys. */
  predicate Consistent<K(==), V>(v: View<K, V>)
  {
    NoDup(v.lru) &&
    (forall k :: k in v.entries ==> k in v.lru) &&
    (forall k :: k in v.lru ==> k in v.entries)
  }

  /** The cache invariant: consistent and within capacity. */
  predicate Inv<K(==), V>(v: View<K, V>, max: nat)
  {
    Consistent(v) && |v.lru| <= max
  }

  /** The LRU list with k unlinked (`lrulist.remove`). */
  function Without<K(==)>(s: seq<K>, k: K): (r: seq<K>)
    ensures k !in r
    ensures forall x :: x in r ==> x in s
    ensures forall x :: x in s && x != k ==> x in r
    ensures |r| <= |s|
    ensures k !in s ==> r == s
  {
    if s == [] then []
    else if s[0] == k then Without(s[1..], k)
    else [s[0]] + Without(s[1..], k)
  }

  /** touch: unlink k and reinsert it at the tail (most recent). */
  function Touched<K(==)>(s: seq<K>, k: K): seq<K>
  {
    Without(s, k) + [k]
  }

  /** The index after the entries for `keys` are removed one after another
      (`entries.remove` in the destructor). */
  function Unindex<K(==), V>(m: map<K, V>, keys: seq<K>): (r: map<K, V>)
    ensures forall x :: x in r ==> x in m && x !in keys
    ensures forall x :: x in m && x !in keys ==> x in r
    ensures forall x :: x in r ==> r[x] == m[x]
  {
    if keys == [] then m else Unindex(m, keys[..|keys| - 1]) - {keys[|keys| - 1]}
  }

  /** How many entries the eviction loop removes from the head. */
  function Evictions(n: nat, max: nat): nat
  {
    if n > max then n - max else 0
  }

  /** enter: touch a present key; otherwise append a new entry and evict from
      the head until the capacity holds.  Returns the new view and the
      evicted entries, oldest first. */
  function EnterView<K(==), V>(v: View<K, V>, k: K, val: V, max: nat): (r: (View<K, V>, seq<(K, V)>))
    requires Consistent(v)
  {
    if k in v.entries then (View(v.entries, Touched(v.lru, k)), [])
    else
      var full := v.lru + [k];
      var all := v.entries[k := val];
      var d := Evictions(|full|, max);
      (View(Unindex(all, full[..d]), full[d..]), EvictedPairs(all, full, d))
  }

  /** The first d keys of the list with their values: what the eviction loop
      hands to the flush callback, oldest first. */
  function EvictedPairs<K, V>(all: map<K, V>, full: seq<K>, d: nat): (r: seq<(K, V)>)
    requires d <= |full| && forall x :: x in full ==> x in all
  {
    seq(d, i requires 0 <= i < d => (full[i], all[full[i]]))
  }

  /** lookup: a present key is touched and its value returned; an absent key
      changes nothing. */
  function LookupView<K(==), V>(v: View<K, V>, k: K): (r: (View<K, V>, Option<V>))
  {
    if k in v.entries then (View(v.entries, Touched(v.lru, k)), Some(v.entries[k]))
    else (v, None)
  }

  /** The callback invocations for a list of evicted entries. */
  function Calls<K, V>(fcb: Option<CallbackId>, evicted: seq<(K, V)>): seq<FlushCall<K, V>>
  {
    if fcb.None? then []
    else seq(|evicted|, i requires 0 <= i < |evicted| => FlushCall(fcb.value, evicted[i].0, evicted[i].1))
  }

  // ---------------------------------------------------------------------
  // Properties of the view operations.

  /** The index and the list have the same number of keys, so the counter
      kept equal to the list length is also the number of indexed entries. */
  lemma {:induction false} ConsistentSize<K, V>(v: View<K, V>)
    requires Consistent(v)
    ensures |v.entries| == |v.lru|
    decreases |v.lru|
  {
    if v.lru == [] {
      assert v.entries.Keys == {};
    } else {
      var rest := View(v.entries - {v.lru[0]}, v.lru[1..]);
      ConsistentDropFirst(v);
      ConsistentSize(rest);
    }
  }

  /** Dropping the least recently used key and its entry keeps a view
      consistent and removes exactly one entry. */
  lemma ConsistentDropFirst<K, V>(v: View<K, V>)
    requires Consistent(v) && v.lru != []
    ensures Consistent(View(v.entries - {v.lru[0]}, v.lru[1..]))
    ensures |v.entries - {v.lru[0]}| + 1 == |v.entries|
  {
    var k := v.lru[0];
    assert k !in v.lru[1..] by {
      forall j | 1 <= j < |v.lru| ensures v.lru[j] != k {
        assert v.lru[0] != v.lru[j];
      }
    }
    assert (v.entries - {k}).Keys == v.entries.Keys - {k};
  }


  /** Unlinking keeps the keys distinct and removes exactly one element when k
      is on the list. */
  lemma {:induction false} WithoutNoDup<K>(s: seq<K>, k: K)
    requires NoDup(s)
    ensures NoDup(Without(s, k))
    ensures k in s ==> |Without(s, k)| == |s| - 1
  {
    if s != [] {
      assert NoDup(s[1..]) by {
        forall i, j | 0 <= i < j < |s[1..]| ensures s[1..][i] != s[1..][j] {
          assert s[i + 1] != s[j + 1];
        }
      }
      assert s[0] !in s[1..] by {
        forall j | 1 <= j < |s| ensures s[j] != s[0] {
          assert s[0] != s[j];
        }
      }
      WithoutNoDup(s[1..], k);
      var w := Without(s[1..], k);
      if s[0] != k {
        assert NoDup([s[0]] + w) by {
          forall i, j | 0 <= i < j < |[s[0]] + w| ensures ([s[0]] + w)[i] != ([s[0]] + w)[j] {
            if i > 0 {
              assert ([s[0]] + w)[i] == w[i - 1];
            } else {
              assert ([s[0]] + w)[j] in w;
            }
          }
        }
      }
    }
  }

  /** Touching a present key keeps every key once and makes k the most recent,
      leaving the others in their order. */
  lemma TouchKeepsOrder<K>(s: seq<K>, k: K)
    requires NoDup(s) && k in s
    ensures NoDup(Touched(s, k)) && |Touched(s, k)| == |s|
    ensures forall x :: x in Touched(s, k) <==> x in s
    ensures Touched(s, k)[|s| - 1] == k
    ensures Without(Touched(s, k), k) == Without(s, k)
  {
    WithoutNoDup(s, k);
    var w := Without(s, k);
    assert NoDup(w + [k]) by {
      forall i, j | 0 <= i < j < |w + [k]| ensures (w + [k])[i] != (w + [k])[j] {
        if j < |w| {
          assert (w + [k])[i] == w[i] && (w + [k])[j] == w[j];
        } else {
          assert (w + [k])[i] in w;
        }
      }
    }
    WithoutAppend(w, k);
  }

  lemma {:induction false} WithoutAppend<K>(s: seq<K>, k: K)
    requires k !in s
    ensures Without(s + [k], k) == s
  {
    if s != [] {
      assert (s + [k])[1..] == s[1..] + [k];
      WithoutAppend(s[1..], k);
    }
  }

  lemma CallsSnoc<K, V>(fcb: Option<CallbackId>, s: seq<(K, V)>, x: (K, V))
    ensures Calls(fcb, s + [x]) ==
      Calls(fcb, s) + (if fcb.Some? then [FlushCall(fcb.value, x.0, x.1)] else [])
  {
  }

  /** enter on a present key keeps its value and only moves it to the tail. */
  lemma EnterPresentTouches<K, V>(v: View<K, V>, k: K, val: V, max: nat)
    requires Inv(v, max) && k in v.entries
    ensures EnterView(v, k, val, max).0.entries == v.entries
    ensures EnterView(v, k, val, max).0.lru == Touched(v.lru, k)
    ensures EnterView(v, k, val, max).1 == []
    ensures Inv(EnterView(v, k, val, max).0, max)
  {
    TouchKeepsOrder(v.lru, k);
  }

  /** Removing the first d keys of a duplicate-free list from an index that
      holds exactly its keys leaves an index that holds exactly the rest. */
  lemma EvictPrefixConsistent<K, V>(all: map<K, V>, full: seq<K>, d: nat)
    requires NoDup(full) && d <= |full|
    requires forall x :: x in all ==> x in full
    requires forall x :: x in full ==> x in all
    ensures Consistent(View(Unindex(all, full[..d]), full[d..]))
  {
    var w := View(Unindex(all, full[..d]), full[d..]);
    forall x | x in w.entries ensures x in w.lru {
      var i :| 0 <= i < |full| && full[i] == x;
      assert w.lru[i - d] == x;
    }
    forall x | x in w.lru ensures x in w.entries {
      var i :| 0 <= i < |w.lru| && w.lru[i] == x;
      assert x !in full[..d] by {
        forall j | 0 <= j < d ensures full[..d][j] != x {
          assert full[j] != full[d + i];
        }
      }
    }
    assert NoDup(w.lru) by {
      forall i, j | 0 <= i < j < |w.lru|
        ensures w.lru[i] != w.lru[j]
      {
        assert w.lru[i] == full[d + i] && w.lru[j] == full[d + j];
      }
    }
  }

  /** enter on a new key keeps the invariant and evicts exactly one entry when
      the cache was full, none otherwise. */
  lemma EnterNewKeepsInv<K, V>(v: View<K, V>, k: K, val: V, max: nat)
    requires Inv(v, max) && k !in v.entries
    ensures Inv(EnterView(v, k, val, max).0, max)
    ensures |EnterView(v, k, val, max).1| == (if |v.lru| == max then 1 else 0)
  {
    var full := v.lru + [k];
    assert NoDup(full) by {
      forall i, j | 0 <= i < j < |full| ensures full[i] != full[j] {
        if j < |v.lru| {
          assert full[i] == v.lru[i] && full[j] == v.lru[j];
        } else {
          assert full[i] in v.lru;
        }
      }
    }
    EvictPrefixConsistent(v.entries[k := val], full, Evictions(|full|, max));
  }

  /** The entries enter evicts for a new key are the least recently used
      ones, with their values; the new key itself stays, with its value, as
      the most recent unless the capacity is zero, in which case it is the one
      evicted; surviving old entries keep their values. */
  lemma EnterNewEvictsOldest<K, V>(v: View<K, V>, k: K, val: V, max: nat)
    requires Inv(v, max) && k !in v.entries
    ensures var (w, evicted) := EnterView(v, k, val, max);
      && (max > 0 ==> |w.lru| > 0 && w.lru[|w.lru| - 1] == k && k in w.entries && w.entries[k] == val)
      && (max == 0 ==> w.lru == [] && evicted == [(k, val)])
      && (max > 0 ==> forall i :: 0 <= i < |evicted| ==>
                        evicted[i] == (v.lru[i], v.entries[v.lru[i]]))
      && (max > 0 ==> |evicted| <= |v.lru| && w.lru == v.lru[|evicted|..] + [k])
      && (forall x :: x in w.entries && x != k ==> w.entries[x] == v.entries[x])
  {
    var full := v.lru + [k];
    var d := Evictions(|full|, max);
    if max > 0 {
      assert k !in full[..d] by {
        forall j | 0 <= j < d ensures full[..d][j] != k {
          assert full[j] in v.lru;
        }
      }
    }
  }

  /** lookup on a present key returns its value and makes it most recent; on
      an absent key it returns nothing and changes nothing. */
  lemma LookupTouches<K, V>(v: View<K, V>, k: K, max: nat)
    requires Inv(v, max)
    ensures k in v.entries ==>
      LookupView(v, k).1 == Some(v.entries[k]) &&
      LookupView(v, k).0 == View(v.entries, Touched(v.lru, k)) &&
      Inv(LookupView(v, k).0, max) && |LookupView(v, k).0.lru| == |v.lru| &&
      LookupView(v, k).0.lru[|v.lru| - 1] == k
    ensures k !in v.entries ==> LookupView(v, k) == (v, None)
  {
    if k in v.entries {
      TouchKeepsOrder(v.lru, k);
    }
  }

  // ---------------------------------------------------------------------
  // The cache object.

  class VsCache<K(==), V> {
    var entries: map<K, V>
    var numCacheEntries: nat
    var lrulist: seq<K>
    var maxCacheEntries: nat
    var fcb: Option<CallbackId>

    function Contents(): View<K, V>
      reads this
    {
      View(entries, lrulist)
    }

    ghost predicate Valid()
      reads this
    {
      Inv(Contents(), maxCacheEntries) && numCacheEntries == |lrulist|
    }

    /** `vs_cache (u_int max_entries = 250)`: empty, no callback. */
    constructor (maxEntries: nat := DefaultMaxEntries)
      ensures Valid()
      ensures Contents() == View(map[], []) && numCacheEntries == 0
      ensures maxCacheEntries == maxEntries && fcb == None
    {
      entries := map[];
      numCacheEntries := 0;
      lrulist := [];
      maxCacheEntries := maxEntries;
      fcb := None;
    }

    /** flush: delete every entry (the callback is not invoked). */
    method Flush()
      requires Valid()
      modifies this
      ensures Valid()
      ensures Contents() == View(map[], []) && numCacheEntries == 0
      ensures maxCacheEntries == old(maxCacheEntries) && fcb == old(fcb)
    {
      entries := map[];
      lrulist := [];
      numCacheEntries := 0;
    }

    method SetFlushCb(cb: Option<CallbackId>)
      modifies this
      ensures fcb == cb
      ensures Contents() == old(Contents()) && numCacheEntries == old(numCacheEntries)
      ensures maxCacheEntries == old(maxCacheEntries)
    {
      fcb := cb;
    }

    /** `cache_entry::touch`: move a present key to the tail of the LRU list. */
    method Touch(k: K)
      requires Valid() && k in entries
      modifies this
      ensures Valid()
      ensures Contents() == View(old(entries), Touched(old(lrulist), k))
      ensures numCacheEntries == old(numCacheEntries)
      ensures maxCacheEntries == old(maxCacheEntries) && fcb == old(fcb)
    {
      TouchKeepsOrder(lrulist, k);
      lrulist := Touched(lrulist, k);
    }

    /** enter: a present key is only touched (its value is not replaced); a
        new key gets a new cache_entry. */
    method Enter(k: K, v: V) returns (calls: seq<FlushCall<K, V>>)
      requires Valid()
      modifies this
      ensures Valid()
      ensures Contents() == EnterView(old(Contents()), k, v, maxCacheEntries).0
      ensures calls == Calls(fcb, EnterView(old(Contents()), k, v, maxCacheEntries).1)
      ensures maxCacheEntries == old(maxCacheEntries) && fcb == old(fcb)
    {
      if k in entries {
        Touch(k);
        calls := [];
      } else {
        ghost var before := Contents();
        EnterNewKeepsInv(before, k, v, maxCacheEntries);
        calls := NewEntry(k, v);
      }
    }

    /** The cache_entry constructor: insert at the tail, index and count the
        entry, then evict from the head, calling the flush callback on each
        evicted entry, until the count is within capacity. */
    method NewEntry(k: K, v: V) returns (calls: seq<FlushCall<K, V>>)
      requires Valid() && k !in entries
      modifies this
      ensures var full := old(lrulist) + [k];
        var d := Evictions(|full|, maxCacheEntries);
        && lrulist == full[d..]
        && entries == Unindex(old(entries)[k := v], full[..d])
        && calls == Calls(fcb, EvictedPairs(old(entries)[k := v], full, d))
        && numCacheEntries == |lrulist|
      ensures maxCacheEntries == old(maxCacheEntries) && fcb == old(fcb)
    {
      ghost var full := lrulist + [k];
      ghost var all := entries[k := v];
      ghost var d := Evictions(|full|, maxCacheEntries);
      ghost var evicted := EvictedPairs(all, full, d);
      lrulist := lrulist + [k];
      entries := entries[k := v];
      numCacheEntries := numCacheEntries + 1;
      calls := [];
      ghost var e := 0;
      assert full[0..] == full && full[..0] == [];
      while numCacheEntries > maxCacheEntries
        invariant maxCacheEntries == old(maxCacheEntries) && fcb == old(fcb)
        invariant 0 <= e <= d
        invariant lrulist == full[e..] && numCacheEntries == |full| - e
        invariant entries == Unindex(all, full[..e])
        invariant calls == Calls(fcb, evicted[..e])
        decreases numCacheEntries
      {
        var head := lrulist[0];
        assert head == full[e] && evicted[e] == (head, entries[head]);
        CallsSnoc(fcb, evicted[..e], evicted[e]);
        assert evicted[..e + 1] == evicted[..e] + [evicted[e]];
        if fcb.Some? {
          calls := calls + [FlushCall(fcb.value, head, entries[head])];
        }
        // ~cache_entry: unlink, unindex, uncount
        assert full[..e + 1][..e] == full[..e];
        lrulist := lrulist[1..];
        entries := entries - {head};
        numCacheEntries := numCacheEntries - 1;
        e := e + 1;
      }
      assert evicted[..e] == evicted;
    }

    /** lookup: the value of a present key, which becomes most recent; None
        (the source returns NULL) and no change for an absent key. */
    method Lookup(k: K) returns (r: Option<V>)
      requires Valid()
      modifies this
      ensures Valid()
      ensures (Contents(), r) == LookupView(old(Contents()), k)
      ensures maxCacheEntries == old(maxCacheEntries) && fcb == old(fcb)
    {
      if k in entries {
        Touch(k);
        r := Some(entries[k]);
      } else {
        r := None;
      }
    }
  }
}
