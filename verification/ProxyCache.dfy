/**
  The bounded response cache of the upstream proxy (internal/proxy/proxy.go): entries are dropped when
  they expire, and then oldest first until both bounds hold. Times are nanoseconds.
 */
module ProxyCache {
  import opened Options

  const MAX_ENTRIES: nat := 512
  const MAX_CACHE_BYTES: nat := 32 * 1024 * 1024

  datatype Entry = Entry(body: string, created: int, ttl: int)

  predicate Expired(e: Entry, now: int) {
    now - e.created > e.ttl
  }

  function Cost(key: string, e: Entry): nat {
    |key| + |e.body|
  }

  /** The bytes of a cache: keys and bodies. */
  ghost function TotalBytes(cache: map<string, Entry>): nat {
    if cache == map[] then 0
    else
      var key :| key in cache;
      Cost(key, cache[key]) + TotalBytes(cache - {key})
  }

  /** Whichever entry is taken out first: each counts with its key and its body. */
  lemma {:induction false} TotalWithout(cache: map<string, Entry>, key: string)
    requires key in cache
    ensures TotalBytes(cache) == Cost(key, cache[key]) + TotalBytes(cache - {key}) && TotalBytes(map[]) == 0
    ensures Cost(key, cache[key]) == |key| + |cache[key].body|
    decreases |cache|
  {
    var first :| first in cache && TotalBytes(cache) == Cost(first, cache[first]) + TotalBytes(cache - {first});
    if first != key {
      TotalWithout(cache - {first}, key);
      TotalWithout(cache - {key}, first);
      assert cache - {first} - {key} == cache - {key} - {first};
    }
  }

  predicate Fits(entries: nat, bytes: nat) {
    entries <= MAX_ENTRIES && bytes <= MAX_CACHE_BYTES
  }

  ghost predicate Bounded(cache: map<string, Entry>) {
    Fits(|cache|, TotalBytes(cache))
  }

  ghost function Live(cache: map<string, Entry>, now: int): map<string, Entry> {
    map key | key in cache && !Expired(cache[key], now) :: cache[key]
  }

  /** `cache` is `live` without `evicted`; victims went oldest first, none newer than any survivor, and
      the last one had to go: with it back, a bound breaks. */
  ghost predicate OldestFirst(live: map<string, Entry>, cache: map<string, Entry>, evicted: seq<string>) {
    && (forall i :: 0 <= i < |evicted| ==> evicted[i] in live && evicted[i] !in cache)
    && (forall key :: key in live && key !in evicted ==> key in cache)
    && (forall key :: key in cache ==> key in live && cache[key] == live[key])
    && (forall i, key :: 0 <= i < |evicted| && key in cache ==> live[evicted[i]].created <= cache[key].created)
    && (forall i, j :: 0 <= i < j < |evicted| ==> live[evicted[i]].created <= live[evicted[j]].created)
    && (evicted != [] ==> var last := evicted[|evicted| - 1]; !Bounded(cache[last := live[last]]))
  }

  lemma NothingEvicted(live: map<string, Entry>)
    ensures OldestFirst(live, live, [])
  {
  }

  lemma EvictOne(live: map<string, Entry>, cache: map<string, Entry>, evicted: seq<string>, oldest: string)
    requires OldestFirst(live, cache, evicted) && !Bounded(cache)
    requires oldest in cache && forall key :: key in cache ==> cache[oldest].created <= cache[key].created
    ensures OldestFirst(live, cache - {oldest}, evicted + [oldest])
    ensures |cache - {oldest}| < |cache|
  {
    hide Bounded;
    assert (cache - {oldest})[oldest := live[oldest]] == cache;
    assert cache.Keys == (cache - {oldest}).Keys + {oldest};
  }

  lemma EvictedAreLive(live: map<string, Entry>, cache: map<string, Entry>, evicted: seq<string>)
    requires OldestFirst(live, cache, evicted)
    ensures forall key :: key in cache ==> key in live && cache[key] == live[key]
    ensures forall key :: key in live ==> key in cache || key in evicted
  {
  }

  /** Part of the way through the first loop: what is left, with `todo` still to be looked at, and what
      has been added up. */
  ghost function Left(start: map<string, Entry>, todo: set<string>, now: int): map<string, Entry> {
    map key | key in start && (key in todo || !Expired(start[key], now)) :: start[key]
  }

  ghost function Counted(start: map<string, Entry>, todo: set<string>, now: int): map<string, Entry> {
    map key | key in start && key !in todo && !Expired(start[key], now) :: start[key]
  }

  lemma DropOne(start: map<string, Entry>, todo: set<string>, key: string, now: int)
    requires key in todo && key in start
    ensures key in Left(start, todo, now) && Left(start, todo, now)[key] == start[key]
    ensures Left(start, todo - {key}, now)
         == if Expired(start[key], now) then Left(start, todo, now) - {key} else Left(start, todo, now)
    ensures TotalBytes(Counted(start, todo - {key}, now))
         == TotalBytes(Counted(start, todo, now)) + if Expired(start[key], now) then 0 else Cost(key, start[key])
  {
    hide TotalBytes, Expired, Cost;
    var before, after := Counted(start, todo, now), Counted(start, todo - {key}, now);
    if Expired(start[key], now) {
      assert after == before;
    } else {
      TotalWithout(after, key);
      assert after - {key} == before;
    }
  }

  lemma DropEnds(start: map<string, Entry>, now: int)
    ensures Left(start, start.Keys, now) == start && TotalBytes(Counted(start, start.Keys, now)) == 0
    ensures Left(start, {}, now) == Live(start, now) == Counted(start, {}, now)
  {
    assert Counted(start, start.Keys, now) == map[];
  }

  class Cache {
    var cache: map<string, Entry>
    /** History: what was last stored under each key, evicted and expired entries included. */
    ghost var stored: map<string, Entry>

    /** Keys are not empty, and an entry is what was last stored under its key. */
    ghost predicate Valid()
      reads this
    {
      "" !in cache && forall key :: key in cache ==> key in stored && cache[key] == stored[key]
    }

    constructor ()
      ensures Valid() && cache == map[] && stored == map[]
    {
      cache, stored := map[], map[];
    }

    /** The first loop: drop what has expired, and add up the rest. */
    method DropExpired(now: int) returns (bytes: nat)
      requires Valid()
      modifies this`cache
      ensures Valid() && cache == Live(old(cache), now) && bytes == TotalBytes(cache)
    {
      bytes := 0;
      hide TotalBytes, Left, Counted, Live;
      var todo := cache.Keys;
      ghost var start := cache;
      DropEnds(start, now);
      while todo != {}
        invariant todo <= start.Keys && Valid()
        invariant cache == Left(start, todo, now) && bytes == TotalBytes(Counted(start, todo, now))
        decreases |todo|
      {
        var key :| key in todo;
        DropOne(start, todo, key, now);
        var entry := cache[key];
        todo := todo - {key};
        if Expired(entry, now) {
          cache := cache - {key};
        } else {
          bytes := bytes + Cost(key, entry);
        }
      }
    }

    /** The inner loop: a key whose entry no other entry is older than. */
    method Oldest() returns (oldest: string)
      requires Valid()
      ensures oldest == "" <==> cache == map[]
      ensures oldest != "" ==>
        oldest in cache && forall key :: key in cache ==> cache[oldest].created <= cache[key].created
    {
      oldest := "";
      var created := 0;
      var todo := cache.Keys;
      while todo != {}
        invariant todo <= cache.Keys
        invariant oldest == "" <==> todo == cache.Keys
        invariant oldest != "" ==> oldest in cache && created == cache[oldest].created
        invariant oldest != "" ==> forall key :: key in cache && key !in todo ==> created <= cache[key].created
        decreases |todo|
      {
        var key :| key in todo;
        todo := todo - {key};
        if oldest == "" || cache[key].created < created {
          oldest := key;
          created := cache[key].created;
        }
      }
    }

    /** pruneCache: afterwards nothing has expired and both bounds hold, and what remains is the live
        entries less an oldest-first, minimal choice of victims; all of them, if they fit. */
    method Prune(now: int) returns (ghost evicted: seq<string>)
      requires Valid()
      modifies this`cache
      ensures Valid() && Bounded(cache)
      ensures |cache| <= 512 && TotalBytes(cache) <= 33554432
      ensures forall key :: key in cache ==> now - cache[key].created <= cache[key].ttl
      ensures forall key :: key in old(cache) && now - old(cache)[key].created <= old(cache)[key].ttl ==>
                key in cache || key in evicted
      ensures OldestFirst(Live(old(cache), now), cache, evicted)
      ensures Bounded(Live(old(cache), now)) ==> cache == Live(old(cache), now)
      ensures evicted != [] ==> |Live(old(cache), now)| > 512 || TotalBytes(Live(old(cache), now)) > 33554432
    {
      hide TotalBytes, OldestFirst;
      var bytes := DropExpired(now);
      ghost var live := cache;
      evicted := [];
      NothingEvicted(live);
      while |cache| > MAX_ENTRIES || bytes > MAX_CACHE_BYTES
        invariant Valid() && bytes == TotalBytes(cache)
        invariant OldestFirst(live, cache, evicted)
        invariant Bounded(live) ==> cache == live
        invariant evicted != [] ==> !Bounded(live)
        decreases |cache|
      {
        var oldest := Oldest();
        if oldest == "" {
          EmptyIsBounded();
          assert false;
        }
        EvictOne(live, cache, evicted, oldest);
        TotalWithout(cache, oldest);
        bytes := bytes - Cost(oldest, cache[oldest]);
        cache := cache - {oldest};
        evicted := evicted + [oldest];
      }
      EvictedAreLive(live, cache, evicted);
    }

    /** A response is stored under a key that is never empty, and the cache is pruned. */
    method Insert(key: string, entry: Entry, now: int)
      requires Valid() && key != ""
      modifies this
      ensures Valid() && Bounded(cache)
      ensures forall k :: k in cache ==>
        now - cache[k].created <= cache[k].ttl
        && (if k == key then cache[k] == entry else k in old(cache) && cache[k] == old(cache[k]))
      ensures stored == old(stored)[key := entry]
      ensures Bounded(Live(old(cache)[key := entry], now)) ==> cache == Live(old(cache)[key := entry], now)
    {
      hide TotalBytes, OldestFirst;
      cache, stored := cache[key := entry], stored[key := entry];
      ghost var filled := cache;
      ghost var evicted := Prune(now);
      EvictedAreLive(Live(filled, now), cache, evicted);
    }

    /** A hit is what was last stored under the key, and is still fresh; so a caller never sees an older
        response, and misses one only if it has expired or was evicted. */
    method Lookup(key: string, now: int) returns (hit: Option<Entry>)
      requires Valid()
      ensures hit.Some? ==> key in stored && hit.value == stored[key] && now - hit.value.created <= hit.value.ttl
      ensures hit.None? && key in stored && now - stored[key].created <= stored[key].ttl ==> key !in cache
    {
      if key in cache && !Expired(cache[key], now) {
        return Some(cache[key]);
      }
      return None;
    }
  }

  lemma EmptyIsBounded()
    ensures Bounded(map[])
  {
  }
}
