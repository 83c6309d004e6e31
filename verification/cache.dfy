/**
 * The TTL cache of the Go service (`CacheService`): a map from key to a
 * stored record and the time it was stored, lazy expiry on lookup,
 * eviction of the oldest entry when a store finds the map full, and the
 * periodic sweep of expired entries, here one explicit step. Every
 * operation takes the clock reading `now` as a parameter.
 */
module Cache {
  import opened Wrappers
  import opened Models

  /** The cache state: its entries, the time-to-live and the size limit. */
  datatype Cache = Cache(items: map<string, CacheItem>, ttl: int, maxSize: int)

  /** A new, empty cache. */
  function New(ttl: int, maxSize: int): (c: Cache)
    ensures c.items == map[] && c.ttl == ttl && c.maxSize == maxSize
  {
    Cache(map[], ttl, maxSize)
  }

  /** An entry is expired once its age is strictly greater than the time-to-live. */
  predicate Expired(c: Cache, item: CacheItem, now: int) {
    now - item.timestamp > c.ttl
  }

  /** `Get`: the stored record when the key is present and its entry not expired. */
  function Get(c: Cache, key: string, now: int): (r: Option<DevotionalContent>)
    ensures r.Some? <==> key in c.items && !Expired(c, c.items[key], now)
    ensures r.Some? ==> r.value == c.items[key].content
  {
    if key !in c.items then None
    else if Expired(c, c.items[key], now) then None
    else Some(c.items[key].content)
  }

  /** `Size`: the number of entries, expired or not. */
  function Size(c: Cache): nat {
    |c.items|
  }

  /** `Clear`: no entries; the limits stay. */
  function Clear(c: Cache): (r: Cache)
    ensures r.ttl == c.ttl && r.maxSize == c.maxSize
  {
    c.(items := map[])
  }

  /** After `Clear` the cache is empty and every lookup misses. */
  lemma ClearEmpties(c: Cache, key: string, now: int)
    ensures Size(Clear(c)) == 0 && Get(Clear(c), key, now).None?
  {
  }

  // ---- Eviction ----

  /**
   * `order` lists the keys of `items` once each: the order in which one
   * `range` over the map visits them, which Go leaves unspecified.
   */
  predicate IsOrder(order: seq<string>, items: map<string, CacheItem>) {
    && (forall i :: 0 <= i < |order| ==> order[i] in items)
    && (forall k :: k in items ==> k in order)
    && (forall i, j :: 0 <= i < j < |order| ==> order[i] != order[j])
  }

  /**
   * The loop of `removeOldest` from position `i` of the visiting order,
   * with the candidate `key` and its time: a visited entry replaces the
   * candidate when there is none yet, which the loop tests as an empty
   * key, or when it is strictly older.
   */
  function OldestFrom(order: seq<string>, items: map<string, CacheItem>, i: nat, key: string, time: int): string
    requires forall j :: 0 <= j < |order| ==> order[j] in items
    decreases |order| - i
  {
    if i >= |order| then key
    else
      var t := items[order[i]].timestamp;
      if key == "" || t < time then OldestFrom(order, items, i + 1, order[i], t)
      else OldestFrom(order, items, i + 1, key, time)
  }

  /** `removeOldest`: drop the candidate the loop ends with, unless that is the empty key. */
  function RemoveOldest(items: map<string, CacheItem>, order: seq<string>): (r: map<string, CacheItem>)
    requires IsOrder(order, items)
    ensures r.Keys <= items.Keys
    ensures forall k :: k in r ==> r[k] == items[k]
  {
    var victim := OldestFrom(order, items, 0, "", 0);
    if victim != "" then items - {victim} else items
  }

  /** Position `m` holds the first entry, in visiting order, with the smallest timestamp. */
  predicate FirstOldest(order: seq<string>, items: map<string, CacheItem>, m: nat)
    requires forall j :: 0 <= j < |order| ==> order[j] in items
  {
    && m < |order|
    && (forall j :: 0 <= j < |order| ==> items[order[m]].timestamp <= items[order[j]].timestamp)
    && (forall j :: 0 <= j < m ==> items[order[m]].timestamp < items[order[j]].timestamp)
  }

  /** What the loop knows after visiting `i` entries with the candidate at position `m`. */
  predicate OldestSoFar(order: seq<string>, items: map<string, CacheItem>, i: nat, m: nat)
    requires forall j :: 0 <= j < |order| ==> order[j] in items
  {
    && m < i <= |order|
    && (forall j :: 0 <= j < i ==> items[order[m]].timestamp <= items[order[j]].timestamp)
    && (forall j :: 0 <= j < m ==> items[order[m]].timestamp < items[order[j]].timestamp)
  }

  lemma {:induction false} OldestFromSpec(order: seq<string>, items: map<string, CacheItem>, i: nat, m: nat)
    returns (m': nat)
    requires forall j :: 0 <= j < |order| ==> order[j] in items
    requires "" !in items
    requires OldestSoFar(order, items, i, m)
    ensures FirstOldest(order, items, m')
    ensures OldestFrom(order, items, i, order[m], items[order[m]].timestamp) == order[m']
    decreases |order| - i
  {
    if i == |order| {
      m' := m;
    } else {
      var key := order[m];
      var time := items[key].timestamp;
      assert key != "";
      if items[order[i]].timestamp < time {
        assert OldestFrom(order, items, i, key, time) ==
               OldestFrom(order, items, i + 1, order[i], items[order[i]].timestamp);
        m' := OldestFromSpec(order, items, i + 1, i);
      } else {
        assert OldestFrom(order, items, i, key, time) == OldestFrom(order, items, i + 1, key, time);
        m' := OldestFromSpec(order, items, i + 1, m);
      }
    }
  }

  /**
   * With no empty key and at least one entry, `removeOldest` deletes
   * exactly one entry, one with the smallest timestamp: the first such in
   * the visiting order.
   */
  lemma RemoveOldestSpec(items: map<string, CacheItem>, order: seq<string>)
    requires IsOrder(order, items) && "" !in items && items != map[]
    ensures exists victim :: (victim in items && RemoveOldest(items, order) == items - {victim}
      && forall k :: k in items ==> items[victim].timestamp <= items[k].timestamp)
    ensures exists m: nat :: FirstOldest(order, items, m) && RemoveOldest(items, order) == items - {order[m]}
  {
    var k0 :| k0 in items;
    assert |order| > 0;
    assert OldestFrom(order, items, 0, "", 0) ==
           OldestFrom(order, items, 1, order[0], items[order[0]].timestamp);
    var m := OldestFromSpec(order, items, 1, 0);
    var victim := order[m];
    forall k | k in items ensures items[victim].timestamp <= items[k].timestamp {
      var j :| 0 <= j < |order| && order[j] == k;
    }
  }

  /**
   * The empty key stands for "no candidate yet": when it is the last key
   * visited, the loop ends on it and nothing is evicted.
   */
  lemma EmptyKeyNotEvicted(item: CacheItem)
    ensures RemoveOldest(map["" := item], [""]) == map["" := item]
  {
  }

  // ---- Storing ----

  /**
   * `Set`: when the map already holds `maxSize` entries or more, first
   * evict the oldest (even when `key` is among them), then store the record
   * with the time `now`, replacing any earlier entry for `key`.
   */
  function Set(c: Cache, key: string, content: DevotionalContent, now: int, order: seq<string>): (r: Cache)
    requires IsOrder(order, c.items)
    ensures r.ttl == c.ttl && r.maxSize == c.maxSize
    ensures key in r.items && r.items[key] == CacheItem(content, now)
    ensures forall k :: k in r.items && k != key ==> k in c.items && r.items[k] == c.items[k]
    ensures |c.items| < c.maxSize ==> r.items == c.items[key := CacheItem(content, now)]
  {
    var kept := if |c.items| >= c.maxSize then RemoveOldest(c.items, order) else c.items;
    c.(items := kept[key := CacheItem(content, now)])
  }

  /**
   * A store into a full cache without the empty key evicts one entry with
   * the smallest timestamp and changes nothing else besides `key`.
   */
  lemma SetFull(c: Cache, key: string, content: DevotionalContent, now: int, order: seq<string>)
    requires IsOrder(order, c.items) && "" !in c.items
    requires |c.items| >= c.maxSize
    ensures c.items == map[] ==> Set(c, key, content, now, order).items == map[key := CacheItem(content, now)]
    ensures c.items != map[] ==> exists victim :: (victim in c.items
      && (forall k :: k in c.items ==> c.items[victim].timestamp <= c.items[k].timestamp)
      && Set(c, key, content, now, order).items == (c.items - {victim})[key := CacheItem(content, now)])
  {
    if c.items != map[] {
      RemoveOldestSpec(c.items, order);
      var victim :| victim in c.items && RemoveOldest(c.items, order) == c.items - {victim}
        && forall k :: k in c.items ==> c.items[victim].timestamp <= c.items[k].timestamp;
      assert Set(c, key, content, now, order).items == (c.items - {victim})[key := CacheItem(content, now)];
    }
  }

  /** The number of entries the cache is meant to hold at most. */
  function Capacity(c: Cache): nat {
    if c.maxSize < 1 then 1 else c.maxSize
  }

  /** The size invariant: no empty key, and at most `max(maxSize, 1)` entries. */
  predicate Bounded(c: Cache) {
    "" !in c.items && |c.items| <= Capacity(c)
  }

  /** Storing under a non-empty key keeps the size invariant. */
  lemma SetBounded(c: Cache, key: string, content: DevotionalContent, now: int, order: seq<string>)
    requires IsOrder(order, c.items) && Bounded(c) && key != ""
    ensures Bounded(Set(c, key, content, now, order))
  {
    var r := Set(c, key, content, now, order);
    if |c.items| >= c.maxSize && c.items != map[] {
      SetFull(c, key, content, now, order);
      var victim :| victim in c.items && r.items == (c.items - {victim})[key := CacheItem(content, now)];
      assert |c.items - {victim}| == |c.items| - 1;
      assert r.items.Keys <= (c.items - {victim}).Keys + {key};
      CardSubset(r.items.Keys, (c.items - {victim}).Keys + {key});
    } else {
      assert r.items.Keys <= c.items.Keys + {key};
      CardSubset(r.items.Keys, c.items.Keys + {key});
    }
  }

  lemma CardSubset(a: set<string>, b: set<string>)
    requires a <= b
    ensures |a| <= |b|
  {
    assert b == a + (b - a);
  }

  /**
   * With the empty key present, a full cache can fail to evict and grow past
   * its limit: one entry under `""`, a limit of one, and a store under `"k"`.
   */
  lemma EmptyKeyOverflow(item: CacheItem, content: DevotionalContent, now: int)
    ensures var c := Cache(map["" := item], 0, 1);
      Size(Set(c, "k", content, now, [""])) == 2 > Capacity(c)
  {
    var c := Cache(map["" := item], 0, 1);
    EmptyKeyNotEvicted(item);
    assert Set(c, "k", content, now, [""]).items == map["" := item, "k" := CacheItem(content, now)];
  }

  /** A stored record is found again until its age exceeds the time-to-live. */
  lemma GetAfterSet(c: Cache, key: string, content: DevotionalContent, now: int, order: seq<string>, later: int)
    requires IsOrder(order, c.items)
    ensures Get(Set(c, key, content, now, order), key, later) ==
      if later - now <= c.ttl then Some(content) else None
  {
  }

  /** Storing under one key leaves every other key's lookup alone, unless that entry was evicted. */
  lemma GetOtherAfterSet(c: Cache, key: string, other: string, content: DevotionalContent, now: int,
                         order: seq<string>, later: int)
    requires IsOrder(order, c.items) && other != key
    ensures var g := Get(Set(c, key, content, now, order), other, later);
      g.None? || g == Get(c, other, later)
    ensures |c.items| < c.maxSize ==> Get(Set(c, key, content, now, order), other, later) == Get(c, other, later)
  {
  }

  // ---- The sweep ----

  /** One pass of `cleanupExpired`: delete every expired entry. */
  function Sweep(c: Cache, now: int): (r: Cache)
    ensures r.ttl == c.ttl && r.maxSize == c.maxSize
    ensures forall k :: k in r.items <==> k in c.items && !Expired(c, c.items[k], now)
    ensures forall k :: k in r.items ==> r.items[k] == c.items[k]
  {
    c.(items := map k | k in c.items && !Expired(c, c.items[k], now) :: c.items[k])
  }

  /** A sweep makes no lookup at that time or later answer differently. */
  lemma SweepUnobservable(c: Cache, now: int, later: int, key: string)
    requires now <= later
    ensures Get(Sweep(c, now), key, later) == Get(c, key, later)
  {
  }

  /** A sweep keeps the size invariant. */
  lemma SweepBounded(c: Cache, now: int)
    requires Bounded(c)
    ensures Bounded(Sweep(c, now))
  {
    var r := Sweep(c, now);
    CardSubset(r.items.Keys, c.items.Keys);
  }
}
