/** The routing table of `ixc_syscore/router/src/route.c`, one per address family: a trie of routes,
    the list of prefix lengths in use, and a cache of answers that outlives later additions. */
module Route {
  import opened Bytes
  import opened Subnets
  import TrieMap
  import Prefixes
  import TimeWheel
  import Waiting

  type Key = TrieMap.Key
  type Entry = TimeWheel.TimeData<CacheEntry>

  const CACHE_TIMEOUT := 180
  const IO_WAIT_TIMEOUT := 10
  const MAX_CACHED := 0xffff

  function WheelTicks(): (n: nat)
    ensures n == 36
  {
    CACHE_TIMEOUT * 2 / IO_WAIT_TIMEOUT
  }

  lemma Sizes()
    ensures MAX_CACHED == 0xffff && IO_WAIT_TIMEOUT == 10 && CACHE_TIMEOUT == 180
  {
  }

  class RouteInfo {
    const subnet: Address
    const prefix: Byte
    const gw: Option<Address>
    const netif: Option<nat>
    var isInvalid: bool
    var cachedRefcnt: nat

    // how many routes had been installed by then, when it was installed, and whether its memory has
    // been given back
    ghost const born: nat
    ghost const since: int
    ghost var freed: bool

    constructor (subnet: Address, prefix: Byte, gw: Option<Address>, netif: Option<nat>, ghost born: nat,
      ghost since: int)
      ensures this.subnet == subnet && this.prefix == prefix && this.gw == gw && this.netif == netif
        && this.born == born && this.since == since
      ensures !isInvalid && cachedRefcnt == 0 && !freed
    {
      this.subnet, this.prefix, this.gw, this.netif := subnet, prefix, gw, netif;
      this.born, this.since := born, since;
      isInvalid, cachedRefcnt, freed := false, 0, false;
    }

    function Key(): (k: Key)
      ensures k == subnet + [prefix]
    {
      subnet + [prefix]
    }
  }

  class CacheEntry {
    const rInfo: RouteInfo
    const address: Address
    const upTime: int
    var tdata: TimeWheel.TimeData?<CacheEntry>

    ghost const made: nat

    constructor (rInfo: RouteInfo, address: Address, upTime: int, ghost made: nat)
      ensures this.rInfo == rInfo && this.address == address && this.upTime == upTime && this.made == made
    {
      this.rInfo, this.address, this.upTime, this.made := rInfo, address, upTime, made;
      tdata := null;
    }
  }

  lemma First<T>(s: seq<T>, i: nat)
    requires i < |s|
    ensures s[i..] == [s[i]] + s[i + 1..]
  {
  }

  // ---------- counting ----------

  /** How many keys end in this prefix length. */
  ghost function WithPrefix(keys: set<Key>, p: Byte): nat {
    |set k | k in keys && k != [] && k[|k| - 1] == p|
  }

  lemma WithPrefixAdd(keys: set<Key>, key: Key, p: Byte)
    requires key !in keys && key != []
    ensures WithPrefix(keys + {key}, p) == WithPrefix(keys, p) + if key[|key| - 1] == p then 1 else 0
  {
    var before := set k | k in keys && k != [] && k[|k| - 1] == p;
    var after := set k | k in keys + {key} && k != [] && k[|k| - 1] == p;
    if key[|key| - 1] == p {
      assert after == before + {key};
    } else {
      assert after == before;
    }
  }

  /** How many cache entries answer with this record. */
  ghost function CachedBy(entries: map<Key, CacheEntry>, r: RouteInfo): nat {
    |set a | a in entries && entries[a].rInfo == r|
  }

  lemma CachedByAdd(entries: map<Key, CacheEntry>, a: Key, e: CacheEntry, r: RouteInfo)
    requires a !in entries
    ensures CachedBy(entries[a := e], r) == CachedBy(entries, r) + if e.rInfo == r then 1 else 0
  {
    var more := entries[a := e];
    var before := set b | b in entries && entries[b].rInfo == r;
    var after := set b | b in more && more[b].rInfo == r;
    if e.rInfo == r {
      assert after == before + {a};
    } else {
      assert after == before;
    }
  }

  lemma CachedByDel(entries: map<Key, CacheEntry>, a: Key, r: RouteInfo)
    requires a in entries
    ensures CachedBy(entries, r) == CachedBy(entries - {a}, r) + if entries[a].rInfo == r then 1 else 0
  {
    CachedByAdd(entries - {a}, a, entries[a], r);
    assert (entries - {a})[a := entries[a]] == entries;
  }

  /** The record answers for the address: its subnet contains it and is written without host bits. */
  ghost predicate Matches(r: RouteInfo, address: Address) {
    Contains(r.subnet, r.prefix, address) && Normal(r.subnet, r.prefix)
  }

  /** The same in numbers: the range of the route begins at its subnet. */
  lemma MatchesIsRange(r: RouteInfo, address: Address)
    requires |r.subnet| == |address| && r.prefix <= 8 * |address|
    ensures var p := Power(8 * |address| - r.prefix);
      p > 0 && (Matches(r, address) <==>
        Number(r.subnet) % p == 0 && Number(r.subnet) <= Number(address) < Number(r.subnet) + p)
  {
    RangeIs(r.subnet, r.prefix, address);
  }

  /** The longest match among the routes installed by `when`. */
  ghost predicate Best(routes: map<Key, RouteInfo>, r: RouteInfo, address: Address, when: nat) {
    && Matches(r, address) && r.born <= when
    && forall k | k in routes && Matches(routes[k], address) && routes[k].born <= when :: routes[k].prefix <= r.prefix
  }

  /** What the allocator grants while one route is added, and while one cache entry is. */
  datatype Grants = Grants(record: bool, prefix: bool, nodes: nat)
  datatype CacheGrants = CacheGrants(entry: bool, nodes: nat, timer: bool)

  class Table {
    const width: nat
    const rt: TrieMap.Map<RouteInfo>
    const cache: TrieMap.Map<CacheEntry>
    const pre: Prefixes.PrefixList
    const wheel: TimeWheel.Wheel<CacheEntry>

    // every record that has not been freed, the number of routes added so far, and the time by now
    ghost var records: set<RouteInfo>
    ghost var clock: nat
    ghost var time: int
    // the cache entries that have not been freed, and those that wait in the wheel
    ghost var kept: set<CacheEntry>
    ghost var waiting: Waiting.Owners<CacheEntry>

    ghost predicate MapsOk()
      reads rt, rt.nodes, cache, cache.nodes
    {
      && 0 < width < 0xfe && rt.Valid() && rt.length == width + 1 && cache.Valid() && cache.length == width
    }

    ghost predicate PrefixesOk()
      reads rt`Contents, pre, pre.nodes
    {
      pre.Valid() && pre.width == width && forall p: Byte :: pre.lens[p] == WithPrefix(rt.Contents.Keys, p)
    }

    /** The routes are the records that are not invalid. */
    ghost predicate Live()
      reads this`records, rt`Contents, records`isInvalid, records`freed
    {
      && (forall k | k in rt.Contents ::
            && |k| == width + 1 && rt.Contents[k] in records && rt.Contents[k].Key() == k && !rt.Contents[k].isInvalid
            && rt.Contents[k].prefix <= 8 * width)
      && (forall r | r in records :: !r.freed && (!r.isInvalid ==> r.Key() in rt.Contents && rt.Contents[r.Key()] == r))
    }

    /** The cache refers to records only, and each record knows how often. */
    ghost predicate Counted()
      reads this`records, cache`Contents, records`cachedRefcnt
    {
      && (forall a | a in cache.Contents :: cache.Contents[a].address == a && cache.Contents[a].rInfo in records)
      && (forall r | r in records :: r.cachedRefcnt == CachedBy(cache.Contents, r) && r.cachedRefcnt <= MAX_CACHED)
    }

    /** A cached answer that is still a route was the longest match when it was cached, and still is
        among the routes of that time. */
    ghost predicate Current()
      reads this`records, this`clock, rt`Contents, cache`Contents, records`isInvalid
    {
      && (forall k | k in rt.Contents :: rt.Contents[k].born <= clock)
      && (forall a | a in cache.Contents :: cache.Contents[a].made <= clock)
      && (forall a | a in cache.Contents && cache.Contents[a].rInfo in records && !cache.Contents[a].rInfo.isInvalid ::
            Best(rt.Contents, cache.Contents[a].rInfo, a, cache.Contents[a].made))
    }

    /** A route installed after an answer was cached was not installed before that time. */
    ghost predicate Timely()
      reads this`time, wheel`oldTime, rt`Contents, cache`Contents
    {
      && wheel.oldTime <= time
      && (forall a | a in cache.Contents :: cache.Contents[a].upTime <= time)
      && (forall a, k | a in cache.Contents && k in rt.Contents && rt.Contents[k].born > cache.Contents[a].made ::
            cache.Contents[a].upTime <= rt.Contents[k].since)
    }

    /** The entries that have their memory are those of the cache. */
    ghost predicate Kept()
      reads this`kept, cache`Contents
    {
      && (forall a | a in cache.Contents :: cache.Contents[a] in kept && cache.Contents[a].address == a)
      && (forall e | e in kept :: e.address in cache.Contents && cache.Contents[e.address] == e)
    }

    /** All entries wait, but for `off`: in the wheel, or in the list `rest` that is being fired, and
        those in the wheel were not overdue when it last moved. */
    ghost predicate Timed(loose: set<Entry>, rest: seq<Entry>, off: set<CacheEntry>)
      reads this`kept, this`waiting, wheel, wheel.entries, rest, waiting.Keys`tdata
    {
      && wheel.tickTimeout == IO_WAIT_TIMEOUT && Waiting.Waits(wheel, loose, rest, waiting)
      && off <= kept && waiting.Keys == kept - off
      && forall e | e in waiting ::
        e.tdata == waiting[e] && (waiting[e] !in rest ==> wheel.oldTime - e.upTime < CACHE_TIMEOUT)
    }

    /** What holds of everything but the wheel. */
    ghost predicate Sound()
      reads this`records, this`clock, this`time, this`kept, rt, rt.nodes, cache, cache.nodes, pre, pre.nodes,
            wheel`oldTime, records
    {
      MapsOk() && PrefixesOk() && Live() && Counted() && Current() && Timely() && Kept()
    }

    ghost predicate Valid()
      reads this, rt, rt.nodes, cache, cache.nodes, pre, pre.nodes, records, wheel, wheel.entries, waiting.Keys`tdata
    {
      Sound() && Timed({}, [], {})
    }

    constructor (width: nat, now: int)
      requires 0 < width < 0xfe
      ensures Valid() && this.width == width && records == {} && rt.Contents == map[] && cache.Contents == map[]
        && clock == 0 && time == wheel.oldTime == now
      ensures fresh(rt) && fresh(rt.nodes) && fresh(cache) && fresh(cache.nodes) && fresh(pre) && pre.nodes == {}
      ensures fresh(wheel) && fresh(wheel.entries) && kept == {}
    {
      hide *;
      Sizes();
      this.width := width;
      rt := new TrieMap.Map<RouteInfo>(width + 1);
      cache := new TrieMap.Map<CacheEntry>(width);
      pre := new Prefixes.PrefixList(width);
      wheel := new TimeWheel.Wheel<CacheEntry>(WheelTicks(), IO_WAIT_TIMEOUT, 256, now);
      records, clock, time, kept, waiting := {}, 0, now, {}, map[];
      new;
      StartsValid();
    }

    lemma StartsValid()
      requires records == {} && kept == {} && waiting == map[] && 0 < width < 0xfe
      requires rt.Valid() && rt.length == width + 1 && cache.Valid() && cache.length == width
      requires rt.Contents == map[] && cache.Contents == map[]
      requires pre.Valid() && pre.width == width && pre.lens == multiset{}
      requires wheel.Valid() && wheel.Armed() == [] && wheel.tickTimeout == IO_WAIT_TIMEOUT && wheel.oldTime <= time
      ensures Valid()
    {
      hide rt.Valid, pre.Valid;
      assert forall p: Byte :: WithPrefix({}, p) == 0;
      Waiting.Starts(wheel);
    }

    // ---------- the tries ----------

    lemma MapsElim()
      requires MapsOk()
      ensures 0 < width < 0xfe && rt.Valid() && rt.length == width + 1 && cache.Valid() && cache.length == width
    {
    }

    lemma MapsIntro()
      requires 0 < width < 0xfe && rt.Valid() && rt.length == width + 1 && cache.Valid() && cache.length == width
      ensures MapsOk()
    {
    }

    method RtAdd(key: Key, r: RouteInfo, nodes: nat) returns (rs: int)
      requires MapsOk() && |key| == width + 1
      modifies rt, rt.nodes
      ensures MapsOk() && fresh(rt.nodes - old(rt.nodes))
      ensures rt.Contents == if rs == 0 then old(rt.Contents)[key := r] else old(rt.Contents)
      ensures (rs == 0 || rs == -1) && (key !in old(rt.Contents) && nodes >= |key| ==> rs == 0)
    {
      hide *;
      MapsElim();
      TrieMap.MissingBound(rt.tree, key, 0);
      rs := rt.Add(key, r, nodes);
      MapsIntro();
    }

    method RtDel(key: Key) returns (r: Option<RouteInfo>)
      requires MapsOk() && |key| == width + 1
      modifies rt, rt.nodes
      ensures MapsOk() && rt.nodes <= old(rt.nodes) && rt.Contents == old(rt.Contents) - {key}
      ensures r == if key in old(rt.Contents) then Some(old(rt.Contents)[key]) else None
    {
      hide *;
      MapsElim();
      r := rt.Del(key);
      MapsIntro();
    }

    method CacheAdd(key: Key, e: CacheEntry, nodes: nat) returns (rs: int)
      requires MapsOk() && |key| == width
      modifies cache, cache.nodes
      ensures MapsOk() && fresh(cache.nodes - old(cache.nodes))
      ensures cache.Contents == if rs == 0 then old(cache.Contents)[key := e] else old(cache.Contents)
      ensures rs == 0 ==> key !in old(cache.Contents)
      ensures key !in old(cache.Contents) && nodes >= |key| ==> rs == 0
    {
      hide *;
      MapsElim();
      TrieMap.MissingBound(cache.tree, key, 0);
      rs := cache.Add(key, e, nodes);
      MapsIntro();
    }

    method CacheDel(key: Key) returns (e: Option<CacheEntry>)
      requires MapsOk() && |key| == width
      modifies cache, cache.nodes
      ensures MapsOk() && cache.nodes <= old(cache.nodes) && cache.Contents == old(cache.Contents) - {key}
      ensures e == if key in old(cache.Contents) then Some(old(cache.Contents)[key]) else None
    {
      hide *;
      MapsElim();
      e := cache.Del(key);
      MapsIntro();
    }

    ghost function Repr(): set<object>
      reads this`records, this`kept, rt`nodes, cache`nodes, pre`nodes, wheel`entries
    {
      {this, rt, cache, pre, wheel} + rt.nodes + cache.nodes + pre.nodes + wheel.entries + records + kept
    }

    lemma ValidElim()
      requires Valid()
      ensures Sound() && Timed({}, [], {})
      ensures forall l | l in wheel.emptyData :: l in wheel.entries
    {
    }

    lemma ValidIntro()
      requires Sound() && Timed({}, [], {})
      ensures Valid()
    {
    }

    lemma SoundElim()
      requires Sound()
      ensures MapsOk() && PrefixesOk() && Live() && Counted() && Current() && Timely() && Kept()
      ensures pre.Valid() && pre.width == width
    {
    }

    lemma SoundParts()
      requires Sound()
      ensures MapsOk() && PrefixesOk() && pre.Valid() && pre.width == width && wheel.oldTime <= time
    {
    }

    lemma Parts()
      ensures Repr() ==
        {this, rt, cache, pre, wheel} + rt.nodes + cache.nodes + pre.nodes + wheel.entries + records + kept
    {
    }

    lemma OwnParts()
      ensures {this, rt, cache, pre, wheel} + records + kept <= Repr() && rt.nodes <= Repr() && cache.nodes <= Repr()
        && pre.nodes <= Repr() && wheel.entries <= Repr()
    {
    }

    twostate lemma OneMore(r: RouteInfo)
      requires records == old(records) + {r} && kept == old(kept) && rt.nodes == old(rt.nodes)
      requires cache.nodes == old(cache.nodes) && pre.nodes == old(pre.nodes) && wheel.entries == old(wheel.entries)
      ensures forall o | o in Repr() :: o in old(Repr()) || o == r
    {
    }

    twostate lemma Shrinks()
      requires rt.nodes == old(rt.nodes) && cache.nodes <= old(cache.nodes) && pre.nodes == old(pre.nodes)
      requires wheel.entries == old(wheel.entries) && records == old(records) && kept <= old(kept)
      ensures Repr() <= old(Repr())
    {
    }

    twostate lemma Grows(r: object?)
      requires forall o | o in rt.nodes :: o in old(rt.nodes) || !old(allocated(o))
      requires forall o | o in cache.nodes :: o in old(cache.nodes) || !old(allocated(o))
      requires forall o | o in pre.nodes :: o in old(pre.nodes) || !old(allocated(o))
      requires forall o | o in wheel.entries :: o in old(wheel.entries) || !old(allocated(o))
      requires forall o | o in records :: o in old(records) || o == r || !old(allocated(o))
      requires forall o | o in kept :: o in old(kept) || o == r || !old(allocated(o))
      ensures forall o | o in Repr() :: o in old(Repr()) || o == r || !old(allocated(o))
    {
    }

    // ---------- adding and deleting routes ----------

    /** `ixc_route_add`; `netif` is the interface the caller's gateway belongs to. `added` is the
        new record, if there is one. */
    method RouteAdd(subnet: Address, prefix: Byte, gw: Option<Address>, netif: Option<nat>, ghost now: int, g: Grants)
      returns (rs: int, ghost added: RouteInfo?)
      requires Valid() && |subnet| == width && prefix <= 8 * width && time <= now
      modifies this`records, this`clock, this`time, pre, pre.nodes, rt, rt.nodes
      ensures Valid() && forall o | o in Repr() :: o in old(Repr()) || !old(allocated(o))
      ensures gw.Some? && netif.None? ==> rs == -1
      ensures (gw.None? || netif.Some?) && g.record && g.prefix && g.nodes > width ==> rs == 0
      ensures added != null <==> rs == 0 && subnet + [prefix] !in old(rt.Contents)
      ensures if added == null then rt.Contents == old(rt.Contents) && clock == old(clock)
              else rt.Contents == old(rt.Contents)[subnet + [prefix] := added] && clock == old(clock) + 1
      ensures added != null ==>
        && fresh(added) && added.subnet == subnet && added.prefix == prefix && added.gw == gw && added.netif == netif
        && added.born == clock && added.since == now && added.cachedRefcnt == 0 && !added.isInvalid
      ensures old(records) <= records && old(time) <= time <= now
    {
      hide *;
      added := null;
      if gw.Some? && netif.None? { return -1, null; }
      var key := subnet + [prefix];
      var known := RtFind(key);
      if known != null { return 0, null; }
      if !g.record { return -1, null; }
      var r := new RouteInfo(subnet, prefix, gw, netif, clock + 1, now);
      assert Repr() == old(Repr());
      rs := Install(r, key, g);
      added := if rs == 0 then r else null;
    }

    /** The new record goes into the prefix list and the trie, or into neither. */
    method Install(r: RouteInfo, key: Key, g: Grants) returns (rs: int)
      requires Valid() && r.Key() == key && |r.subnet| == width && r.prefix <= 8 * width && key !in rt.Contents
        && r !in records
      requires !r.isInvalid && !r.freed && r.cachedRefcnt == 0 && r.born == clock + 1 && time <= r.since
      modifies this`records, this`clock, this`time, pre, pre.nodes, rt, rt.nodes
      ensures Valid() && forall o | o in Repr() :: o in old(Repr()) || o == r || !old(allocated(o))
      ensures rs == 0 || rs == -1
      ensures if rs == 0 then rt.Contents == old(rt.Contents)[key := r] && clock == old(clock) + 1
              else rt.Contents == old(rt.Contents) && clock == old(clock)
      ensures g.prefix && g.nodes > width ==> rs == 0
      ensures old(records) <= records && time == if rs == 0 then r.since else old(time)
    {
      hide *;
      ValidElim();
      rs := Enter(r, key, g);
      if rs != 0 {
        NotAdded();
      } else {
        label Entered:
        records, clock, time := records + {r}, clock + 1, r.since;
        Added(r);
        assert Timed({}, [], {});
        OneMore@Entered(r);
      }
      ValidIntro();
    }

    method Enter(r: RouteInfo, key: Key, g: Grants) returns (rs: int)
      requires Sound() && Timed({}, [], {}) && r.prefix <= 8 * width && r.Key() == key && |r.subnet| == width
        && key !in rt.Contents
      modifies pre, pre.nodes, rt, rt.nodes
      ensures MapsOk() && Timed({}, [], {}) && pre.Valid()
      ensures forall o | o in Repr() :: o in old(Repr()) || !old(allocated(o))
      ensures rs == 0 || rs == -1
      ensures if rs == 0 then rt.Contents == old(rt.Contents)[key := r]
        && pre.lens == old(pre.lens) + multiset{r.prefix}
              else rt.Contents == old(rt.Contents) && pre.lens == old(pre.lens)
      ensures g.prefix && g.nodes > width ==> rs == 0
    {
      hide *;
      SoundParts();
      KeyLength(r);
      rs := pre.Add(r.prefix, g.prefix);
      assert Timed({}, [], {});
      if rs != 0 {
        Grows(null);
        return;
      }
      rs := RtAdd(key, r, g.nodes);
      assert Timed({}, [], {});
      if rs != 0 {
        pre.Del(r.prefix);
      }
      Grows(null);
    }

    lemma KeyLength(r: RouteInfo)
      ensures |r.Key()| == |r.subnet| + 1 && r.Key()[|r.subnet|] == r.prefix
    {
    }

    /** Nothing happened to the counts. */
    twostate lemma NotAdded()
      requires old(Sound()) && MapsOk() && pre.Valid() && pre.lens == old(pre.lens) && rt.Contents == old(rt.Contents)
      requires cache.Contents == old(cache.Contents) && records == old(records) && kept == old(kept)
      requires clock == old(clock) && time == old(time) && wheel.oldTime == old(wheel.oldTime)
      requires forall q | q in records :: unchanged(q)
      ensures Sound()
    {
      hide MapsOk, pre.Valid, Best, CachedBy, WithPrefix;
    }

    twostate lemma Added(r: RouteInfo)
      requires old(Sound()) && MapsOk() && kept == old(kept) && r !in old(records)
      requires |r.subnet| == width && r.prefix <= 8 * width && r.born == clock == old(clock) + 1
      requires old(time) <= time == r.since && wheel.oldTime == old(wheel.oldTime)
      requires !r.isInvalid && !r.freed && r.cachedRefcnt == 0 && r.Key() !in old(rt.Contents)
      requires rt.Contents == old(rt.Contents)[r.Key() := r] && records == old(records) + {r}
        && cache.Contents == old(cache.Contents)
      requires pre.Valid() && pre.lens == old(pre.lens) + multiset{r.prefix}
      requires forall q | q in old(records) :: unchanged(q)
      ensures Sound()
    {
      hide MapsOk, PrefixesOk, Live, Counted, Current, Timely, RouteInfo.Key;
      AddedPrefixes(r);
      AddedLive(r);
      AddedCounted(r);
      AddedCurrent(r);
      AddedTimely(r);
    }

    twostate lemma AddedTimely(r: RouteInfo)
      requires old(Timely()) && old(time) <= time == r.since && wheel.oldTime == old(wheel.oldTime)
      requires rt.Contents == old(rt.Contents)[r.Key() := r] && cache.Contents == old(cache.Contents)
      ensures Timely()
    {
    }

    twostate lemma AddedPrefixes(r: RouteInfo)
      requires old(PrefixesOk()) && r.Key() !in old(rt.Contents) && rt.Contents == old(rt.Contents)[r.Key() := r]
      requires pre.Valid() && pre.lens == old(pre.lens) + multiset{r.prefix}
      ensures PrefixesOk()
    {
      hide pre.Valid, WithPrefix;
      assert rt.Contents.Keys == old(rt.Contents).Keys + {r.Key()};
      forall p: Byte
        ensures pre.lens[p] == WithPrefix(rt.Contents.Keys, p)
      {
        WithPrefixAdd(old(rt.Contents).Keys, r.Key(), p);
      }
    }

    twostate lemma AddedLive(r: RouteInfo)
      requires old(Live()) && r !in old(records) && |r.subnet| == width && r.prefix <= 8 * width && !r.isInvalid
        && !r.freed
      requires r.Key() !in old(rt.Contents) && rt.Contents == old(rt.Contents)[r.Key() := r]
        && records == old(records) + {r}
      requires forall q | q in old(records) :: unchanged(q)
      ensures Live()
    {
    }

    twostate lemma AddedCounted(r: RouteInfo)
      requires old(Counted()) && r !in old(records) && r.cachedRefcnt == 0
      requires records == old(records) + {r} && cache.Contents == old(cache.Contents)
      requires forall q | q in old(records) :: unchanged(q)
      ensures Counted()
    {
      NotCached(r);
      hide CachedBy;
    }

    lemma NotCached(r: RouteInfo)
      requires forall a | a in cache.Contents :: cache.Contents[a].rInfo != r
      ensures CachedBy(cache.Contents, r) == 0
    {
      var s := set a | a in cache.Contents && cache.Contents[a].rInfo == r;
      assert s == {};
    }

    twostate lemma AddedCurrent(r: RouteInfo)
      requires old(Current()) && old(Counted()) && r !in old(records) && r.born == clock == old(clock) + 1
      requires rt.Contents == old(rt.Contents)[r.Key() := r] && r.Key() !in old(rt.Contents)
      requires records == old(records) + {r} && cache.Contents == old(cache.Contents)
      requires forall q | q in old(records) :: unchanged(q)
      ensures Current()
    {
      hide Matches, CachedBy;
    }

    /** `ixc_route_del`: the record (`gone`) is freed unless the cache still refers to it; then it
        is marked. */
    method RouteDel(subnet: Address, prefix: Byte) returns (ghost gone: RouteInfo?)
      requires Valid() && |subnet| == width
      modifies this`records, pre, pre.nodes, rt, rt.nodes, records`isInvalid, records`freed
      ensures Valid() && forall o | o in Repr() :: o in old(Repr()) || !old(allocated(o))
      ensures rt.Contents == old(rt.Contents) - {subnet + [prefix]}
      ensures gone == if subnet + [prefix] in old(rt.Contents) then old(rt.Contents)[subnet + [prefix]] else null
      ensures gone == null ==> records == old(records)
      ensures gone != null ==>
        if gone.cachedRefcnt == 0 then gone.freed && records == old(records) - {gone}
        else gone.isInvalid && records == old(records)
      ensures ZombiesStay()
    {
      hide *;
      var key := subnet + [prefix];
      var r := RtFind(key);
      gone := r;
      if r == null {
        NoSuchKey(key);
        SameZombies();
        return;
      }
      Remove(key, r);
      SameZombies();
    }

    method RtFind(key: Key) returns (r: RouteInfo?)
      requires Valid() && |key| == width + 1
      ensures r == null <==> key !in rt.Contents
      ensures r != null ==> rt.Contents[key] == r && r in records && r.Key() == key
    {
      hide *;
      ValidElim();
      SoundElim();
      MapsElim();
      var found, isFound := rt.Find(key);
      r := null;
      if isFound {
        LiveElim(key);
        r := found.value;
      }
    }

    /** A record that is not a route any more but still has its memory keeps it for good. */
    twostate predicate ZombiesStay()
      reads this`records, records`isInvalid
    {
      forall q | q in old(records) && old(q.isInvalid) :: q in records && q.isInvalid
    }

    twostate lemma SameZombies()
      requires forall q | q in old(records) && old(q.isInvalid) :: q in records && q.isInvalid
      ensures ZombiesStay()
    {
    }

    method Remove(key: Key, r: RouteInfo)
      requires Valid() && |key| == width + 1 && key in rt.Contents && rt.Contents[key] == r && r in records
        && r.Key() == key
      modifies this`records, pre, pre.nodes, rt, rt.nodes, r`isInvalid, r`freed
      ensures Valid() && forall o | o in Repr() :: o in old(Repr()) || !old(allocated(o))
      ensures rt.Contents == old(rt.Contents) - {key}
      ensures if r.cachedRefcnt == 0 then r.freed && records == old(records) - {r}
              else r.isInvalid && records == old(records)
      ensures forall q | q in old(records) && old(q.isInvalid) :: q in records && q.isInvalid
    {
      hide *;
      ValidElim();
      SoundParts();
      LiveAt(key);
      var _ := RtDel(key);
      assert pre.Valid() && Timed({}, [], {});
      RouteDelCb(r);
      assert MapsOk() && Timed({}, [], {});
      Deleted(r);
      Grows(null);
      ValidIntro();
    }

    /** With fewer routes or fewer entries, and later. */
    twostate lemma TimelyLess()
      requires old(Timely()) && old(time) <= time && (wheel.oldTime == old(wheel.oldTime) || wheel.oldTime <= time)
      requires forall k | k in rt.Contents :: k in old(rt.Contents) && rt.Contents[k] == old(rt.Contents)[k]
      requires forall a | a in cache.Contents :: a in old(cache.Contents) && cache.Contents[a] == old(cache.Contents)[a]
      ensures Timely()
    {
    }

    lemma NoSuchKey(key: Key)
      requires key !in rt.Contents
      ensures rt.Contents - {key} == rt.Contents
    {
    }

    lemma LiveAt(key: Key)
      requires Sound() && key in rt.Contents
      ensures !rt.Contents[key].freed
    {
    }

    lemma LiveElim(key: Key)
      requires Live() && key in rt.Contents
      ensures var r := rt.Contents[key];
        r in records && !r.isInvalid && !r.freed && r.Key() == key && r.prefix <= 8 * width
    {
    }

    /** `ixc_route_del_cb`. */
    method RouteDelCb(r: RouteInfo)
      requires pre.Valid() && r in records && !r.freed
      modifies this`records, pre, pre.nodes, r`isInvalid, r`freed
      ensures pre.Valid() && fresh(pre.nodes - old(pre.nodes)) && pre.lens == old(pre.lens) - multiset{r.prefix}
      ensures if r.cachedRefcnt == 0 then r.freed && records == old(records) - {r} && r.isInvalid == old(r.isInvalid)
              else r.isInvalid && records == old(records) && r.freed == old(r.freed)
    {
      hide *;
      pre.Del(r.prefix);
      if r.cachedRefcnt == 0 {
        r.freed := true;
        records := records - {r};
      } else {
        r.isInvalid := true;
      }
    }

    twostate lemma Deleted(r: RouteInfo)
      requires old(Sound()) && MapsOk() && kept == old(kept)
      requires r in old(records) && r.Key() in old(rt.Contents) && old(rt.Contents)[r.Key()] == r
      requires rt.Contents == old(rt.Contents) - {r.Key()} && cache.Contents == old(cache.Contents)
      requires clock == old(clock) && time == old(time) && wheel.oldTime == old(wheel.oldTime)
      requires pre.Valid() && pre.lens == old(pre.lens) - multiset{r.prefix} && r.cachedRefcnt == old(r.cachedRefcnt)
      requires if r.cachedRefcnt == 0 then records == old(records) - {r} && r.isInvalid == old(r.isInvalid)
               else r.isInvalid && records == old(records) && r.freed == old(r.freed)
      requires forall q | q in old(records) && q != r :: unchanged(q)
      ensures Sound()
      ensures forall q | q in old(records) && old(q.isInvalid) :: q in records && q.isInvalid
    {
      hide MapsOk, PrefixesOk, Live, Counted, Current, Timely, RouteInfo.Key;
      DeletedPrefixes(r);
      DeletedLive(r);
      DeletedCounted(r);
      DeletedCurrent(r);
      TimelyLess();
    }

    twostate lemma DeletedPrefixes(r: RouteInfo)
      requires old(PrefixesOk()) && r.Key() in old(rt.Contents) && rt.Contents == old(rt.Contents) - {r.Key()}
      requires pre.Valid() && pre.lens == old(pre.lens) - multiset{r.prefix}
      ensures PrefixesOk()
    {
      hide pre.Valid, WithPrefix;
      assert old(rt.Contents).Keys == rt.Contents.Keys + {r.Key()};
      forall p: Byte
        ensures pre.lens[p] == WithPrefix(rt.Contents.Keys, p)
      {
        WithPrefixAdd(rt.Contents.Keys, r.Key(), p);
      }
    }

    twostate lemma DeletedLive(r: RouteInfo)
      requires old(Live()) && r in old(records) && r.Key() in old(rt.Contents) && old(rt.Contents)[r.Key()] == r
      requires rt.Contents == old(rt.Contents) - {r.Key()}
      requires records == old(records) - {r} || (r.isInvalid && records == old(records) && r.freed == old(r.freed))
      requires forall q | q in old(records) && q != r :: unchanged(q)
      ensures Live()
      ensures forall q | q in old(records) && old(q.isInvalid) :: q in records && q.isInvalid
    {
    }

    twostate lemma DeletedCounted(r: RouteInfo)
      requires old(Counted()) && r in old(records) && cache.Contents == old(cache.Contents)
        && r.cachedRefcnt == old(r.cachedRefcnt)
      requires if r.cachedRefcnt == 0 then records == old(records) - {r} else records == old(records)
      requires forall q | q in old(records) && q != r :: unchanged(q)
      ensures Counted()
    {
      hide CachedBy;
      if r.cachedRefcnt == 0 {
        Uncached(r);
      }
    }

    lemma Uncached(r: RouteInfo)
      ensures CachedBy(cache.Contents, r) == 0 ==> forall a | a in cache.Contents :: cache.Contents[a].rInfo != r
    {
      var s := set a | a in cache.Contents && cache.Contents[a].rInfo == r;
      forall a | a in cache.Contents && s == {}
        ensures cache.Contents[a].rInfo != r
      {
        assert a !in s;
      }
    }

    twostate lemma DeletedCurrent(r: RouteInfo)
      requires old(Current()) && r in old(records) && rt.Contents == old(rt.Contents) - {r.Key()}
        && cache.Contents == old(cache.Contents)
      requires clock == old(clock)
      requires records == old(records) - {r} || (r.isInvalid && records == old(records))
      requires forall q | q in old(records) && q != r :: unchanged(q)
      ensures Current()
    {
      hide Matches;
    }

    // ---------- the cache ----------

    /** `ixc_route_cache_del_cb`: the count is tested before it falls, so no record is freed here as
        long as the count is right; the entry itself is freed. */
    method CacheDelCb(e: CacheEntry)
      requires e in kept && !e.rInfo.freed && (e.rInfo.isInvalid || e.rInfo.cachedRefcnt > 0)
      modifies this`records, this`kept, e.rInfo`cachedRefcnt, e.rInfo`freed
      ensures kept == old(kept) - {e}
      ensures old(e.rInfo.cachedRefcnt) > 0 ==>
        e.rInfo.cachedRefcnt == old(e.rInfo.cachedRefcnt) - 1 && !e.rInfo.freed && records == old(records)
      ensures old(e.rInfo.cachedRefcnt) == 0 ==> e.rInfo.freed && records == old(records) - {e.rInfo}
    {
      var r := e.rInfo;
      if r.isInvalid && r.cachedRefcnt == 0 {
        r.freed := true;
        records := records - {r};
      } else {
        r.cachedRefcnt := r.cachedRefcnt - 1;
      }
      kept := kept - {e};
    }

    /** Take an entry out of the cache that does not wait any more; its record stays, even an invalid one
        that nothing refers to any more. */
    method Evict(e: CacheEntry, ghost loose: set<Entry>, ghost rest: seq<Entry>)
      requires Sound() && Timed(loose, rest, {e}) && |e.address| == width
      modifies this`records, this`kept, cache, cache.nodes, records`cachedRefcnt, records`freed
      ensures Sound() && Timed(loose, rest, {}) && cache.nodes <= old(cache.nodes)
      ensures cache.Contents == old(cache.Contents) - {e.address} && records == old(records) && kept == old(kept) - {e}
    {
      hide *;
      SoundParts();
      OffElim(loose, rest, e);
      Evictable(e);
      var gone := CacheDel(e.address);
      assert PrefixesOk();
      CacheDelCb(gone.value);
      Evicted(e);
      OffLess(loose, rest, e);
    }

    lemma Evictable(e: CacheEntry)
      requires Sound() && e in kept
      ensures e.address in cache.Contents && cache.Contents[e.address] == e
      ensures e.rInfo in records && !e.rInfo.freed && e.rInfo.cachedRefcnt > 0
    {
      hide *;
      SoundElim();
      KeptElim(e);
      CountedElim(e.address);
      NotFreed(e.rInfo);
    }

    lemma KeptElim(e: CacheEntry)
      requires Kept() && e in kept
      ensures e.address in cache.Contents && cache.Contents[e.address] == e
    {
    }

    lemma KeptAt(address: Address)
      requires Kept() && address in cache.Contents
      ensures cache.Contents[address] in kept
    {
    }

    lemma OffElim(loose: set<Entry>, rest: seq<Entry>, e: CacheEntry)
      requires Timed(loose, rest, {e})
      ensures e in kept && e !in waiting
    {
    }

    twostate lemma OffLess(new loose: set<Entry>, new rest: seq<Entry>, e: CacheEntry)
      requires old(allocated(loose)) && old(allocated(rest)) && old(Timed(loose, rest, {e}))
      requires kept == old(kept) - {e} && waiting == old(waiting) && unchanged(wheel)
      requires forall l | l in wheel.entries :: unchanged(l)
      requires forall l | l in rest :: unchanged(l)
      requires forall d | d in waiting :: d.tdata == old(d.tdata)
      ensures Timed(loose, rest, {})
    {
    }

    lemma CountedElim(address: Address)
      requires Counted() && address in cache.Contents
      ensures cache.Contents[address].rInfo in records && cache.Contents[address].rInfo.cachedRefcnt > 0
      ensures cache.Contents[address].address == address
    {
      CachedByDel(cache.Contents, address, cache.Contents[address].rInfo);
    }

    twostate lemma Evicted(e: CacheEntry)
      requires old(Sound()) && MapsOk() && PrefixesOk() && e in old(kept) && kept == old(kept) - {e}
      requires cache.Contents == old(cache.Contents) - {e.address} && rt.Contents == old(rt.Contents)
      requires records == old(records) && clock == old(clock) && time == old(time)
        && wheel.oldTime == old(wheel.oldTime)
      requires e.rInfo.cachedRefcnt == old(e.rInfo.cachedRefcnt) - 1
      requires forall q | q in records :: q.isInvalid == old(q.isInvalid) && q.freed == old(q.freed)
      requires forall q | q in records && q != e.rInfo :: q.cachedRefcnt == old(q.cachedRefcnt)
      ensures Sound()
    {
      hide MapsOk, PrefixesOk, CachedBy, Matches, Best, RouteInfo.Key;
      forall r | r in records
        ensures CachedBy(old(cache.Contents), r) == CachedBy(cache.Contents, r) + if e.rInfo == r then 1 else 0
      {
        CachedByDel(old(cache.Contents), e.address, r);
      }
    }

    /** The cache holds an answer that is still a route. */
    ghost predicate Hit(address: Address)
      reads this`records, cache`Contents, records`isInvalid
    {
      address in cache.Contents && cache.Contents[address].rInfo in records && !cache.Contents[address].rInfo.isInvalid
    }

    /** `ixc_route_cache_get`: an answer that is no longer a route is thrown out. */
    method CacheGet(address: Address) returns (r: RouteInfo?)
      requires Valid() && |address| == width
      modifies this`records, this`kept, this`waiting, cache, cache.nodes, records`cachedRefcnt, records`freed,
               wheel.entries`isDeleted
      ensures Valid() && records == old(records) && cache.nodes <= old(cache.nodes) && kept <= old(kept)
      ensures r != null <==> old(Hit(address))
      ensures r != null <==> address in old(cache.Contents) && !old(cache.Contents[address].rInfo.isInvalid)
      ensures r != null ==> r == old(cache.Contents)[address].rInfo && cache.Contents == old(cache.Contents)
      ensures r == null ==> cache.Contents == old(cache.Contents) - {address}
      ensures address !in old(cache.Contents) ==> forall q | q in records :: q.cachedRefcnt == old(q.cachedRefcnt)
      ensures forall o | o in Repr() :: o in old(Repr())
    {
      hide *;
      var e := LookUp(address);
      if e == null {
        NoSuchEntry(address);
        return null;
      }
      if !e.rInfo.isInvalid { return e.rInfo; }
      ThrowOut(e);
      Shrinks();
      r := null;
    }

    method LookUp(address: Address) returns (e: CacheEntry?)
      requires Valid() && |address| == width
      ensures e == null <==> address !in cache.Contents
      ensures e != null ==> cache.Contents[address] == e && e.address == address && e in kept
      ensures Hit(address) <==> e != null && !e.rInfo.isInvalid
    {
      hide *;
      ValidElim();
      SoundElim();
      MapsElim();
      HitElim(address);
      var found, isFound := cache.Find(address);
      e := null;
      if isFound {
        KeptAt(address);
        CountedElim(address);
        e := found.value;
      }
    }

    /** The wheel entry is marked, and the cache entry goes. */
    method ThrowOut(e: CacheEntry)
      requires Valid() && e in kept && |e.address| == width
      modifies this`records, this`kept, this`waiting, cache, cache.nodes, records`cachedRefcnt, records`freed,
               wheel.entries`isDeleted
      ensures Valid() && records == old(records) && cache.nodes <= old(cache.nodes) && kept <= old(kept)
      ensures cache.Contents == old(cache.Contents) - {e.address}
    {
      hide *;
      ValidElim();
      Call(e, {}, []);
      Waiting.Cancel(wheel, e.tdata, e, {}, [], waiting);
      waiting := waiting - {e};
      NotWaiting(e);
      Evict(e, {}, []);
      ValidIntro();
    }

    lemma Call(e: CacheEntry, loose: set<Entry>, rest: seq<Entry>)
      requires Timed(loose, rest, {}) && e in kept
      ensures e in waiting && waiting[e] == e.tdata && e.tdata in wheel.entries
      ensures Waiting.Waits(wheel, loose, rest, waiting)
    {
    }

    twostate lemma NotWaiting(e: CacheEntry)
      requires old(Timed({}, [], {})) && e in kept && kept == old(kept) && waiting == old(waiting) - {e}
      requires Waiting.Waits(wheel, {}, [], waiting) && wheel.oldTime == old(wheel.oldTime)
      requires forall d | d in waiting :: d.tdata == old(d.tdata)
      ensures Timed({}, [], {e})
    {
    }

    lemma NoSuchEntry(address: Address)
      requires address !in cache.Contents
      ensures cache.Contents - {address} == cache.Contents
    {
    }

    lemma HitElim(address: Address)
      requires Counted()
      ensures Hit(address) <==> address in cache.Contents && !cache.Contents[address].rInfo.isInvalid
    {
    }

    /** `ixc_route_cache_add`. */
    method CachePut(address: Address, r: RouteInfo, now: int, g: CacheGrants)
      requires Valid() && |address| == width && address !in cache.Contents && time <= now
      requires r in records && !r.isInvalid && Best(rt.Contents, r, address, clock)
      modifies this`kept, this`waiting, this`time, cache, cache.nodes, r`cachedRefcnt, wheel, wheel.emptyData
      ensures Valid() && forall o | o in Repr() :: o in old(Repr()) || !old(allocated(o))
      ensures old(time) <= time <= now && wheel.oldTime == old(wheel.oldTime)
      ensures g.entry && g.timer && g.nodes >= width && old(r.cachedRefcnt) < MAX_CACHED ==> address in cache.Contents
      ensures cache.Contents == old(cache.Contents) ||
        (address in cache.Contents && Made(cache.Contents[address], r, now)
          && cache.Contents == old(cache.Contents)[address := cache.Contents[address]])
    {
      hide *;
      if r.cachedRefcnt >= MAX_CACHED { return; }
      if !g.entry { return; }
      var e := new CacheEntry(r, address, now, clock);
      assert Repr() == old(Repr());
      Remember(e, r, g);
      MadeIntro(e);
    }

    /** The entry goes into the cache and counts, or neither. */
    method Remember(e: CacheEntry, r: RouteInfo, g: CacheGrants)
      requires Valid() && |e.address| == width && e.address !in cache.Contents && r.cachedRefcnt < MAX_CACHED
      requires e.rInfo == r && e.made == clock && r in records && Best(rt.Contents, r, e.address, clock)
      requires time <= e.upTime && e !in kept
      modifies this`kept, this`waiting, this`time, cache, cache.nodes, r`cachedRefcnt, wheel, wheel.emptyData, e`tdata
      ensures Valid() && forall o | o in Repr() :: o in old(Repr()) || o == e || !old(allocated(o))
      ensures old(time) <= time <= e.upTime && wheel.oldTime == old(wheel.oldTime)
      ensures cache.Contents == old(cache.Contents) || cache.Contents == old(cache.Contents)[e.address := e]
      ensures g.timer && g.nodes >= width ==> e.address in cache.Contents
    {
      hide *;
      ValidElim();
      SoundParts();
      var ok := Learn(e, g);
      assert PrefixesOk() && rt.Contents == old(rt.Contents);
      Grows(e);
      if ok {
        time := e.upTime;
        r.cachedRefcnt := r.cachedRefcnt + 1;
        Answered(e, r);
        assert Timed({}, [], {});
      } else {
        SameSound();
      }
      ValidIntro();
    }

    /** The trie first, then the wheel; if that fails the trie is told to forget. */
    method Learn(e: CacheEntry, g: CacheGrants) returns (ok: bool)
      requires MapsOk() && Timed({}, [], {}) && |e.address| == width && e.address !in cache.Contents
      requires e !in kept && wheel.oldTime <= e.upTime
      modifies this`kept, this`waiting, cache, cache.nodes, wheel, wheel.emptyData, e`tdata
      ensures MapsOk() && Timed({}, [], {}) && wheel.oldTime == old(wheel.oldTime)
      ensures forall o | o in cache.nodes :: o in old(cache.nodes) || !old(allocated(o))
      ensures forall o | o in wheel.entries :: o in old(wheel.entries) || !old(allocated(o))
      ensures cache.Contents == if ok then old(cache.Contents)[e.address := e] else old(cache.Contents)
      ensures kept == if ok then old(kept) + {e} else old(kept)
      ensures g.timer && g.nodes >= width ==> ok
    {
      hide *;
      Sizes();
      Undone(cache.Contents, e);
      var rs := CacheAdd(e.address, e, g.nodes);
      if rs != 0 { return false; }
      ok := Await(e, g.timer, {}, [], {});
      if !ok {
        var _ := CacheDel(e.address);
      }
    }

    lemma Undone(entries: map<Key, CacheEntry>, e: CacheEntry)
      requires e.address !in entries
      ensures entries[e.address := e] - {e.address} == entries
    {
    }

    /** An entry begins to wait, or waits again, unless there is no memory. */
    method Await(e: CacheEntry, grant: bool, ghost loose: set<Entry>, ghost rest: seq<Entry>,
      ghost off: set<CacheEntry>)
      returns (ok: bool)
      requires Timed(loose, rest, off) && (if e in kept then off == {e} else off == {})
      requires wheel.oldTime - e.upTime < CACHE_TIMEOUT
      modifies this`kept, this`waiting, wheel, wheel.emptyData, e`tdata
      ensures wheel.oldTime == old(wheel.oldTime) && (grant ==> ok)
      ensures forall o | o in wheel.entries :: o in old(wheel.entries) || !old(allocated(o))
      ensures kept == if ok then old(kept) + {e} else old(kept)
      ensures if ok then Timed(loose, rest, {}) else Timed(loose, rest, off)
      ensures forall d | d in waiting && waiting[d] !in rest ::
        d == e || (d in old(waiting) && old(waiting)[d] !in rest)
    {
      hide *;
      Sizes();
      TimedElim(loose, rest, off, e);
      var tdata := Waiting.Arm(wheel, e, IO_WAIT_TIMEOUT, grant, loose, rest, waiting);
      ok := tdata != null;
      if ok {
        e.tdata := tdata;
        kept, waiting := kept + {e}, waiting[e := tdata];
        Awaited(e, loose, rest, off);
      }
    }

    lemma TimedElim(loose: set<Entry>, rest: seq<Entry>, off: set<CacheEntry>, e: CacheEntry)
      requires Timed(loose, rest, off) && (if e in kept then off == {e} else off == {})
      ensures Waiting.Waits(wheel, loose, rest, waiting) && wheel.tickTimeout == IO_WAIT_TIMEOUT && e !in waiting
    {
    }

    twostate lemma Awaited(e: CacheEntry, new loose: set<Entry>, new rest: seq<Entry>, new off: set<CacheEntry>)
      requires old(allocated(loose)) && old(allocated(rest)) && old(allocated(off))
      requires old(Timed(loose, rest, off)) && (if e in old(kept) then off == {e} else off == {})
      requires e.tdata != null && Waiting.Waits(wheel, loose, rest, waiting)
      requires waiting == old(waiting)[e := e.tdata] && kept == old(kept) + {e}
      requires wheel.oldTime == old(wheel.oldTime) && wheel.oldTime - e.upTime < CACHE_TIMEOUT
      requires forall d | d in old(waiting) && d != e :: d.tdata == old(d.tdata)
      ensures Timed(loose, rest, {})
      ensures forall d | d in waiting && waiting[d] !in rest ::
        d == e || (d in old(waiting) && old(waiting)[d] !in rest)
    {
    }

    twostate lemma NowKept(e: CacheEntry)
      requires old(Kept()) && old(Timely()) && e.address !in old(cache.Contents)
      requires cache.Contents == old(cache.Contents)[e.address := e] && kept == old(kept) + {e}
      requires rt.Contents == old(rt.Contents) && wheel.oldTime == old(wheel.oldTime) && old(time) <= time == e.upTime
      requires forall k | k in rt.Contents :: rt.Contents[k].born <= e.made
      ensures Kept() && Timely()
    {
    }

    lemma MadeIntro(e: CacheEntry)
      requires e.made == clock
      ensures Made(e, e.rInfo, e.upTime)
    {
    }

    ghost predicate Made(e: CacheEntry, r: RouteInfo, now: int)
      reads this`clock
    {
      e.rInfo == r && e.upTime == now && e.made == clock
    }

    lemma StillCached(address: Address)
      requires Valid() && Hit(address)
      ensures address in cache.Contents && cache.Contents[address].rInfo in records
        && cache.Contents[address].rInfo.cachedRefcnt > 0
    {
      CountedElim(address);
    }

    lemma NoHit(address: Address, r: RouteInfo)
      requires address in cache.Contents && cache.Contents[address].rInfo == r && r.isInvalid
      ensures !Hit(address)
    {
    }

    lemma NotFreed(r: RouteInfo)
      requires Live() && r in records
      ensures !r.freed
    {
    }

    lemma MadeHit(address: Address, r: RouteInfo, now: int)
      requires address in cache.Contents && Made(cache.Contents[address], r, now) && r in records && !r.isInvalid
      ensures Hit(address) && cache.Contents[address].rInfo == r
    {
    }

    twostate lemma HitKept(new address: Address)
      requires old(Hit(address)) && cache.Contents == old(cache.Contents) && old(records) <= records
      requires forall r | r in old(records) :: r.isInvalid == old(r.isInvalid)
      ensures Hit(address)
    {
    }

    twostate lemma Answered(e: CacheEntry, new r: RouteInfo)
      requires old(Sound()) && MapsOk() && PrefixesOk() && e.address !in old(cache.Contents)
      requires cache.Contents == old(cache.Contents)[e.address := e] && kept == old(kept) + {e}
      requires rt.Contents == old(rt.Contents) && records == old(records) && clock == old(clock)
      requires wheel.oldTime == old(wheel.oldTime) && old(time) <= time == e.upTime
      requires e.rInfo == r && r in records && e.made == clock && Best(rt.Contents, r, e.address, clock)
      requires r.cachedRefcnt == old(r.cachedRefcnt) + 1 && r.cachedRefcnt <= MAX_CACHED
      requires forall q | q in records && q != r :: q.cachedRefcnt == old(q.cachedRefcnt)
      requires forall q | q in records :: q.isInvalid == old(q.isInvalid) && q.freed == old(q.freed)
      ensures Sound()
    {
      hide MapsOk, PrefixesOk, Counted, Current, Timely, Kept, Best, RouteInfo.Key;
      CachedCounts(e, r);
      CachedCurrent(e, r);
      NowKept(e);
    }

    twostate lemma CachedCounts(e: CacheEntry, new r: RouteInfo)
      requires old(Counted()) && e.address !in old(cache.Contents)
        && cache.Contents == old(cache.Contents)[e.address := e]
      requires records == old(records) && e.rInfo == r && r in records
      requires r.cachedRefcnt == old(r.cachedRefcnt) + 1 && r.cachedRefcnt <= MAX_CACHED
      requires forall q | q in records && q != r :: q.cachedRefcnt == old(q.cachedRefcnt)
      ensures Counted()
    {
      hide CachedBy;
      forall q | q in records
        ensures CachedBy(cache.Contents, q) == CachedBy(old(cache.Contents), q) + if r == q then 1 else 0
      {
        CachedByAdd(old(cache.Contents), e.address, e, q);
      }
    }

    twostate lemma CachedCurrent(e: CacheEntry, new r: RouteInfo)
      requires old(Current()) && e.address !in old(cache.Contents)
        && cache.Contents == old(cache.Contents)[e.address := e]
      requires rt.Contents == old(rt.Contents) && records == old(records) && clock == old(clock)
      requires e.rInfo == r && r in records && e.made == clock && Best(rt.Contents, r, e.address, clock)
      requires forall q | q in records :: q.isInvalid == old(q.isInvalid)
      ensures Current() && Made(cache.Contents[e.address], r, e.upTime)
      ensures forall k | k in rt.Contents :: rt.Contents[k].born <= e.made
    {
      hide Matches, Best;
    }

    // ---------- the wheel ----------

    /** `ixc_route_cache_timeout`: an old entry goes, any other arms the wheel again, and goes if that
        fails. */
    method CacheTimeout(e: CacheEntry, now: int, grant: bool, ghost loose: set<Entry>, ghost rest: seq<Entry>)
      requires Sound() && Timed(loose, rest, {e}) && wheel.oldTime <= now
      modifies this`records, this`kept, this`waiting, cache, cache.nodes, records`cachedRefcnt, records`freed,
               wheel, wheel.emptyData, e`tdata
      ensures Sound() && Timed(loose, rest, {}) && records == old(records) && wheel.oldTime == old(wheel.oldTime)
      ensures cache.nodes <= old(cache.nodes)
        && forall o | o in wheel.entries :: o in old(wheel.entries) || !old(allocated(o))
      ensures kept == if e in kept then old(kept) else old(kept) - {e}
      ensures if e in kept then now - e.upTime < CACHE_TIMEOUT else now - e.upTime >= CACHE_TIMEOUT || !grant
      ensures forall d | d in waiting && waiting[d] !in rest ::
        d == e || (d in old(waiting) && old(waiting)[d] !in rest)
    {
      hide *;
      OffElim(loose, rest, e);
      EntryLength(e);
      if now - e.upTime >= CACHE_TIMEOUT {
        Evict(e, loose, rest);
        return;
      }
      var ok := Await(e, grant, loose, rest, {e});
      if ok {
        SameSound();
      } else {
        Evict(e, loose, rest);
      }
    }

    /** Nothing but the wheel has changed, or the time. */
    twostate lemma SameSound()
      requires old(Sound()) && MapsOk() && PrefixesOk() && kept == old(kept)
      requires cache.Contents == old(cache.Contents) && rt.Contents == old(rt.Contents)
      requires records == old(records) && clock == old(clock) && old(time) <= time
      requires wheel.oldTime == old(wheel.oldTime) || wheel.oldTime <= time
      requires forall q | q in records :: unchanged(q)
      ensures Sound()
    {
      hide MapsOk, PrefixesOk, CachedBy, Matches, Best, RouteInfo.Key;
    }

    lemma EntryLength(e: CacheEntry)
      requires Sound() && e in kept
      ensures |e.address| == width && MapsOk() && PrefixesOk()
    {
      cache.KeyLength(e.address);
    }

    /** No entry that waits in the wheel is too old by its callback's clock. */
    ghost predicate Young(rest: seq<Entry>, clock: CacheEntry -> int)
      reads this`waiting
    {
      forall d | d in waiting && waiting[d] !in rest :: clock(d) - d.upTime < CACHE_TIMEOUT
    }

    /** One turn of `time_wheel_timeout` with this callback. */
    method FireNext(x: Entry, ghost rest: seq<Entry>, clock: CacheEntry -> int, grant: CacheEntry -> bool)
      requires Sound() && Timed({}, [x] + rest, {}) && Young([x] + rest, clock)
      requires forall e | e in kept :: wheel.oldTime <= clock(e)
      modifies this`records, this`kept, this`waiting, cache, cache.nodes, records`cachedRefcnt, records`freed,
               wheel, wheel.entries, kept`tdata
      ensures Sound() && Timed({}, rest, {}) && Young(rest, clock) && records == old(records)
      ensures wheel.oldTime == old(wheel.oldTime) && cache.nodes <= old(cache.nodes) && kept <= old(kept)
      ensures forall o | o in wheel.entries :: o in old(wheel.entries) || !old(allocated(o))
      ensures forall e | e in old(kept) && e !in kept :: clock(e) - e.upTime >= CACHE_TIMEOUT || !grant(e)
    {
      hide *;
      Head(x, rest, clock);
      if !x.isDeleted {
        var e := x.data.value;
        waiting := waiting - {e};
        OffOne(x, rest, e, clock);
        label Fired:
        CacheTimeout(e, clock(e), grant(e), {x}, rest);
        WaitingKept({x}, rest);
        YoungTail@Fired(e, rest, clock);
      }
      Recycle(x, rest);
    }
    /** The entry to be fired next; whose it is, unless it is marked. */
    lemma Head(x: Entry, rest: seq<Entry>, clock: CacheEntry -> int)
      requires Timed({}, [x] + rest, {}) && Young([x] + rest, clock)
      ensures x in wheel.entries && forall l | l in wheel.emptyData :: l in wheel.entries
      ensures x.isDeleted ==> Timed({x}, rest, {}) && Young(rest, clock)
      ensures !x.isDeleted ==>
        && x.data.Some? && x.data.value in kept
        && Waiting.Waits(wheel, {x}, rest, waiting - {x.data.value})
    {
      hide Waiting.Waits;
      Waiting.Head(wheel, x, rest, waiting);
      Waiting.Lists(wheel, {}, [x] + rest, waiting);
      Waiting.WaitsElim(wheel, {}, [x] + rest, waiting);
      assert forall l :: l in [x] + rest <==> l == x || l in rest;
    }

    twostate lemma OffOne(x: Entry, new rest: seq<Entry>, new e: CacheEntry, new clock: CacheEntry -> int)
      requires old(allocated(rest)) && old(allocated(e)) && old(allocated(clock))
      requires old(Timed({}, [x] + rest, {})) && old(Young([x] + rest, clock)) && !x.isDeleted && x.data == Some(e)
      requires Waiting.Waits(wheel, {x}, rest, waiting) && e in kept
      requires waiting == old(waiting) - {e} && kept == old(kept) && unchanged(wheel) && unchanged(x)
      requires forall d | d in old(waiting) :: unchanged(d)
      ensures Timed({x}, rest, {e}) && Young(rest, clock)
    {
      hide TimeWheel.Wheel<CacheEntry>.Valid;
      Waiting.Lists(wheel, {x}, rest, waiting);
      assert forall l :: l in [x] + rest <==> l == x || l in rest;
    }

    twostate lemma YoungTail(e: CacheEntry, new rest: seq<Entry>, new clock: CacheEntry -> int)
      requires old(allocated(rest)) && old(allocated(clock)) && old(Young(rest, clock))
      requires e in waiting ==> clock(e) - e.upTime < CACHE_TIMEOUT
      requires forall d | d in waiting && waiting[d] !in rest ::
        d == e || (d in old(waiting) && old(waiting)[d] !in rest)
      ensures Young(rest, clock)
    {
    }

    lemma WaitingKept(loose: set<Entry>, rest: seq<Entry>)
      requires Timed(loose, rest, {})
      ensures waiting.Keys == kept && Waiting.Waits(wheel, loose, rest, waiting)
    {
    }

    /** After its callback the wheel entry is marked and given back. */
    method Recycle(x: Entry, ghost rest: seq<Entry>)
      requires Timed({x}, rest, {})
      modifies wheel`emptyData, wheel`curDataNum, wheel`entries, x
      ensures Timed({}, rest, {}) && wheel.entries <= old(wheel.entries)
    {
      hide *;
      WaitingKept({x}, rest);
      Waiting.Recycle(wheel, x, rest, waiting);
      Recycled(x, rest);
    }

    twostate lemma Recycled(x: Entry, new rest: seq<Entry>)
      requires old(allocated(rest)) && old(Timed({x}, rest, {}))
      requires Waiting.Waits(wheel, {}, rest, waiting) && waiting == old(waiting) && kept == old(kept)
      requires wheel.oldTime == old(wheel.oldTime) && forall d | d in waiting :: d.tdata == old(d.tdata)
      ensures Timed({}, rest, {})
    {
    }

    /** `time_wheel_handle` on the wheel of the cache, polled before a full turn has passed. `clock` is
        what each callback reads, `grant` whether it gets memory. No answer goes while it is younger than
        the timeout (unless it could not be armed again), and none outlives a poll once it is overdue by
        a tick. */
    method Handle(now: int, clock: CacheEntry -> int, grant: CacheEntry -> bool)
      requires Valid() && wheel.TicksBy(now) < wheel.size && time <= now
      requires forall e | e in kept :: now <= clock(e)
      modifies this`records, this`kept, this`waiting, this`time, cache, cache.nodes, records`cachedRefcnt,
               records`freed, wheel, wheel.entries, kept`tdata
      ensures Valid() && records == old(records) && time == now && now - wheel.oldTime < IO_WAIT_TIMEOUT
      ensures forall o | o in Repr() :: o in old(Repr()) || !old(allocated(o))
      ensures forall a | a in cache.Contents ::
        && a in old(cache.Contents) && cache.Contents[a] == old(cache.Contents)[a]
        && now - cache.Contents[a].upTime < CACHE_TIMEOUT + IO_WAIT_TIMEOUT
      ensures forall a | a in old(cache.Contents) && a !in cache.Contents ::
        clock(old(cache.Contents)[a]) - old(cache.Contents)[a].upTime >= CACHE_TIMEOUT || !grant(old(cache.Contents)[a])
      ensures old(wheel.TicksBy(now)) == 0 ==> cache.Contents == old(cache.Contents)
      ensures old(wheel.TicksBy(now)) > 0 ==> forall a | a in cache.Contents ::
        clock(cache.Contents[a]) - cache.Contents[a].upTime < CACHE_TIMEOUT
    {
      hide *;
      ValidElim();
      Sizes();
      ghost var ticks := wheel.TicksBy(now);
      var first := Take(now, clock);
      FireAll(first, ticks > 0, clock, grant);
      ValidElim();
      SoundElim();
      Grows(null);
      NoneOverdue(now, ticks > 0, clock);
      Survivors(clock, grant);
    }

    /** Move the wheel and take what it leaves behind. */
    method Take(now: int, ghost clock: CacheEntry -> int) returns (first: seq<Entry>)
      requires Sound() && Timed({}, [], {}) && wheel.TicksBy(now) < wheel.size && time <= now
      modifies this`time, wheel`oldTime, wheel`curTick, wheel`ticks
      ensures Sound() && Timed({}, first, {}) && time == now && now - wheel.oldTime < IO_WAIT_TIMEOUT
      ensures wheel.oldTime <= now && wheel.entries == old(wheel.entries)
      ensures old(wheel.TicksBy(now)) == 0 ==> first == []
      ensures old(wheel.TicksBy(now)) > 0 ==> Young(first, clock) && wheel.oldTime == now
    {
      hide *;
      SoundParts();
      WaitingKept({}, []);
      InTime(now);
      ghost var ticks := wheel.TicksBy(now);
      first := Waiting.Take(wheel, now, waiting);
      time := now;
      Taken(first);
      if ticks > 0 {
        AllFiring(first, clock);
      }
      SameSound();
    }

    lemma InTime(now: int)
      requires Timed({}, [], {})
      ensures 0 < wheel.tickTimeout && (wheel.TicksBy(now) == 0 ==> now - wheel.oldTime < IO_WAIT_TIMEOUT)
    {
    }

    lemma AllFiring(first: seq<Entry>, clock: CacheEntry -> int)
      requires forall d | d in waiting :: waiting[d] in first
      ensures Young(first, clock)
    {
    }

    twostate lemma Taken(new first: seq<Entry>)
      requires old(Timed({}, [], {})) && Waiting.Waits(wheel, {}, first, waiting)
      requires waiting == old(waiting) && kept == old(kept) && forall d | d in waiting :: unchanged(d)
      requires wheel.oldTime == old(wheel.oldTime) || forall d | d in waiting :: waiting[d] in first
      ensures Timed({}, first, {})
    {
    }

    /** The entries taken off the wheel, one after the other. */
    method FireAll(first: seq<Entry>, ghost moved: bool, clock: CacheEntry -> int, grant: CacheEntry -> bool)
      requires Sound() && Timed({}, first, {}) && (if moved then Young(first, clock) else first == [])
      requires moved ==> forall e | e in kept :: wheel.oldTime <= clock(e)
      modifies this`records, this`kept, this`waiting, cache, cache.nodes, records`cachedRefcnt, records`freed,
               wheel, wheel.entries, kept`tdata
      ensures Valid() && (moved ==> Young([], clock)) && records == old(records) && wheel.oldTime == old(wheel.oldTime)
      ensures cache.nodes <= old(cache.nodes) && kept <= old(kept) && (!moved ==> kept == old(kept))
      ensures forall o | o in wheel.entries :: o in old(wheel.entries) || !old(allocated(o))
      ensures forall e | e in old(kept) && e !in kept :: clock(e) - e.upTime >= CACHE_TIMEOUT || !grant(e)
    {
      hide *;
      var k := 0;
      assert first[0..] == first;
      while k < |first|
        invariant 0 <= k <= |first| && Sound() && Timed({}, first[k..], {}) && (moved ==> Young(first[k..], clock))
        invariant records == old(records) && wheel.oldTime == old(wheel.oldTime)
        invariant cache.nodes <= old(cache.nodes) && kept <= old(kept) && (!moved ==> kept == old(kept))
        invariant forall o | o in wheel.entries :: o in old(wheel.entries) || !old(allocated(o))
        invariant forall e | e in old(kept) && e !in kept :: clock(e) - e.upTime >= CACHE_TIMEOUT || !grant(e)
      {
        First(first, k);
        FireNext(first[k], first[k + 1..], clock, grant);
        k := k + 1;
      }
      assert first[k..] == [];
      ValidIntro();
    }

    /** What is in the cache after a poll. */
    lemma NoneOverdue(now: int, moved: bool, clock: CacheEntry -> int)
      requires Kept() && Timed({}, [], {}) && now - wheel.oldTime < IO_WAIT_TIMEOUT
      requires moved ==> Young([], clock)
      ensures forall a | a in cache.Contents ::
        && now - cache.Contents[a].upTime < CACHE_TIMEOUT + IO_WAIT_TIMEOUT
        && (moved ==> clock(cache.Contents[a]) - cache.Contents[a].upTime < CACHE_TIMEOUT)
    {
    }

    twostate lemma Survivors(new clock: CacheEntry -> int, new grant: CacheEntry -> bool)
      requires old(Kept()) && Kept() && kept <= old(kept)
      requires forall e | e in old(kept) && e !in kept :: clock(e) - e.upTime >= CACHE_TIMEOUT || !grant(e)
      ensures forall a | a in cache.Contents :: a in old(cache.Contents) && cache.Contents[a] == old(cache.Contents)[a]
      ensures forall a | a in old(cache.Contents) && a !in cache.Contents ::
        clock(old(cache.Contents)[a]) - old(cache.Contents)[a].upTime >= CACHE_TIMEOUT || !grant(old(cache.Contents)[a])
      ensures kept == old(kept) ==> cache.Contents == old(cache.Contents)
    {
      assert forall a | a in cache.Contents :: cache.Contents[a] in old(kept);
      assert forall a | a in old(cache.Contents) :: old(cache.Contents)[a] in old(kept);
    }

    // ---------- shutdown ----------

    /** The records a shutdown does not free: those the cache refers to, and those that were left over
        when their routes went. */
    ghost function Lasting(): (s: set<RouteInfo>)
      reads this`records, records`isInvalid, records`cachedRefcnt
      ensures s <= records
    {
      set r | r in records && (r.isInvalid || r.cachedRefcnt > 0)
    }

    /** The routes still to be released, and their keys. */
    static ghost predicate Queue(rest: seq<RouteInfo>, keys: seq<Key>) {
      && |rest| == |keys| && (forall i, j | 0 <= i < j < |keys| :: keys[i] != keys[j])
      && forall i | 0 <= i < |rest| :: keys[i] == rest[i].Key()
    }

    /** While routes are released: `rest` are still to come, `before` are the records there were. */
    ghost predicate Left(before: set<RouteInfo>, lasting: set<RouteInfo>, rest: seq<RouteInfo>)
      reads this`records, before`freed, before`isInvalid, before`cachedRefcnt
    {
      && (forall r | r in rest :: r in before && r in records && !r.isInvalid && (r in lasting <==> r.cachedRefcnt > 0))
      && (forall r | r in records :: r in before && (r.isInvalid || r in rest) && (r in lasting || r in rest))
      && (forall r | r in before :: (r.freed <==> r !in records) && (r in lasting ==> r in records))
    }

    ghost predicate Numbered(keys: seq<Key>)
      reads pre`lens
    {
      forall p: Byte :: pre.lens[p] == WithPrefix((set k | k in keys), p)
    }

    /** The first half of `ixc_route_uninit`: release the routes, calling back for each. No record is
        touched after it has been freed; what is left is marked. */
    method ReleaseRoutes()
      requires Valid()
      modifies this`records, pre, pre.nodes, records`isInvalid, records`freed
      ensures pre.Valid() && pre.lens == multiset{} && Counted()
      ensures records == old(Lasting()) && forall r | r in records :: r.isInvalid && !r.freed
      ensures forall r | r in old(records) && r !in records :: r.freed
    {
      hide *;
      ValidElim();
      SoundElim();
      MapsElim();
      ghost var before, lasting := records, Lasting();
      var routes;
      ghost var keys;
      routes, keys := rt.Each();
      ReleaseStarts(routes, keys);
      ReleaseAll(before, lasting, routes, keys);
      ReleaseEnds(before, lasting);
    }

    method ReleaseAll(ghost before: set<RouteInfo>, ghost lasting: set<RouteInfo>, routes: seq<RouteInfo>,
      ghost keys: seq<Key>)
      requires pre.Valid() && Queue(routes, keys) && Left(before, lasting, routes) && Numbered(keys) && Counted()
      modifies this`records, pre, pre.nodes, before`isInvalid, before`freed
      ensures pre.Valid() && Left(before, lasting, []) && Numbered([]) && Counted()
    {
      hide *;
      assert routes[0..] == routes && keys[0..] == keys;
      QueueLength(routes, keys);
      var i := 0;
      while i < |routes|
        invariant 0 <= i <= |routes| == |keys| && pre.Valid() && fresh(pre.nodes - old(pre.nodes))
        invariant Queue(routes[i..], keys[i..]) && Left(before, lasting, routes[i..]) && Numbered(keys[i..])
          && Counted()
      {
        First(routes, i);
        First(keys, i);
        QueueTail(routes[i], keys[i], routes[i + 1..], keys[i + 1..]);
        LeftHead(before, lasting, routes[i], routes[i + 1..]);
        ReleaseNext(before, lasting, routes[i], keys[i], routes[i + 1..], keys[i + 1..]);
        i := i + 1;
      }
      assert routes[i..] == [] && keys[i..] == [];
    }

    static lemma QueueLength(rest: seq<RouteInfo>, keys: seq<Key>)
      requires Queue(rest, keys)
      ensures |rest| == |keys|
    {
    }

    /** The callback for one route. */
    method ReleaseNext(ghost before: set<RouteInfo>, ghost lasting: set<RouteInfo>, r: RouteInfo, ghost key: Key,
                       ghost rest: seq<RouteInfo>, ghost keys: seq<Key>)
      requires pre.Valid() && Left(before, lasting, [r] + rest) && Numbered([key] + keys) && Counted()
      requires r.Key() == key && r !in rest && key !in keys
      modifies this`records, pre, pre.nodes, r`isInvalid, r`freed
      ensures pre.Valid() && fresh(pre.nodes - old(pre.nodes))
      ensures Left(before, lasting, rest) && Numbered(keys) && Counted()
    {
      hide *;
      LeftHead(before, lasting, r, rest);
      RouteDelCb(r);
      LeftLess(before, lasting, r, rest);
      NumberedLess(r, key, keys);
      DeletedCounted(r);
    }

    lemma ReleaseStarts(routes: seq<RouteInfo>, keys: seq<Key>)
      requires PrefixesOk() && Live() && |routes| == |keys|
      requires forall i | 0 <= i < |keys| :: keys[i] in rt.Contents && routes[i] == rt.Contents[keys[i]]
      requires forall i, j | 0 <= i < j < |keys| :: keys[i] != keys[j]
      requires forall k | k in rt.Contents :: k in keys
      ensures Queue(routes, keys) && Left(records, Lasting(), routes) && Numbered(keys)
    {
      hide pre.Valid, WithPrefix;
      assert rt.Contents.Keys == set k | k in keys;
      forall r | r in records
        ensures r.isInvalid || r in routes
      {
        if !r.isInvalid {
          var i :| 0 <= i < |keys| && keys[i] == r.Key();
          assert routes[i] == r;
        }
      }
    }

    static lemma QueueTail(r: RouteInfo, key: Key, rest: seq<RouteInfo>, keys: seq<Key>)
      requires Queue([r] + rest, [key] + keys)
      ensures Queue(rest, keys) && r.Key() == key && r !in rest && key !in keys
    {
      hide RouteInfo.Key;
      KeysTail(key, keys);
      var all, names := [r] + rest, [key] + keys;
      assert all[0] == r && names[0] == key;
      forall i | 0 <= i < |rest|
        ensures keys[i] == rest[i].Key() && keys[i] in keys
      {
        assert all[i + 1] == rest[i] && names[i + 1] == keys[i];
      }
    }

    lemma LeftHead(before: set<RouteInfo>, lasting: set<RouteInfo>, r: RouteInfo, rest: seq<RouteInfo>)
      requires Left(before, lasting, [r] + rest)
      ensures r in records && r in before && !r.freed && (forall q | q in records :: q in before)
    {
      assert r in [r] + rest;
    }

    twostate lemma LeftLess(before: set<RouteInfo>, new lasting: set<RouteInfo>, new r: RouteInfo,
      new rest: seq<RouteInfo>)
      requires old(allocated(lasting)) && old(allocated(r)) && old(allocated(rest))
      requires old(Left(before, lasting, [r] + rest)) && r !in rest && r.cachedRefcnt == old(r.cachedRefcnt)
      requires if r.cachedRefcnt == 0 then r.freed && records == old(records) - {r} && r.isInvalid == old(r.isInvalid)
               else r.isInvalid && records == old(records) && r.freed == old(r.freed)
      requires forall q | q in before && q != r :: unchanged(q)
      ensures Left(before, lasting, rest)
    {
      assert forall q :: q in [r] + rest <==> q == r || q in rest;
    }

    twostate lemma NumberedLess(r: RouteInfo, new key: Key, new keys: seq<Key>)
      requires old(Numbered([key] + keys)) && r.Key() == key && key !in keys
        && pre.lens == old(pre.lens) - multiset{r.prefix}
      ensures Numbered(keys)
    {
      hide WithPrefix;
      var some: set<Key> := set k | k in keys;
      assert (set k | k in [key] + keys) == some + {key};
      forall p: Byte
        ensures pre.lens[p] == WithPrefix(some, p)
      {
        WithPrefixAdd(some, key, p);
      }
    }

    lemma ReleaseEnds(before: set<RouteInfo>, lasting: set<RouteInfo>)
      requires Left(before, lasting, []) && Numbered([]) && lasting <= before
      ensures records == lasting && pre.lens == multiset{}
      ensures forall r | r in records :: r.isInvalid && !r.freed
      ensures forall r | r in before && r !in records :: r.freed
    {
      forall p: Byte
        ensures pre.lens[p] == 0
      {
        assert (set k: Key | k in []) == {};
        assert WithPrefix({}, p) == 0;
      }
    }

    /** The second half: release the cache, calling back for each entry. The counts fall to zero, and
        no record is freed. */
    method ReleaseCache()
      requires MapsOk() && Counted() && Kept() && (forall r | r in records :: r.isInvalid && !r.freed)
      modifies this`records, this`kept, records`cachedRefcnt, records`freed
      ensures records == old(records) && kept == {}
      ensures forall r | r in records :: r.isInvalid && !r.freed && r.cachedRefcnt == 0
    {
      hide *;
      MapsElim();
      var entries;
      ghost var keys;
      entries, keys := cache.Each();
      UncacheStarts(entries, keys);
      UncacheAll(records, entries, keys, cache.Contents);
    }

    /** The entries still to be released, and their keys. */
    static ghost predicate Entries(rest: seq<CacheEntry>, keys: seq<Key>, left: map<Key, CacheEntry>) {
      && |rest| == |keys| && (forall i, j | 0 <= i < j < |keys| :: keys[i] != keys[j])
      && (forall i | 0 <= i < |rest| :: keys[i] in left && left[keys[i]] == rest[i])
      && (forall k | k in left :: k in keys)
    }

    /** While the cache is released: `left` are the entries still to come. */
    ghost predicate Uncaching(left: map<Key, CacheEntry>)
      reads this`records, this`kept, records`cachedRefcnt, records`freed, records`isInvalid
    {
      && (forall k | k in left :: left[k] in kept && left[k].rInfo in records && left[k].address == k)
      && (forall e | e in kept :: e.address in left && left[e.address] == e)
      && (forall r | r in records :: r.cachedRefcnt == CachedBy(left, r) && r.isInvalid && !r.freed)
    }

    lemma UncacheStarts(entries: seq<CacheEntry>, keys: seq<Key>)
      requires Counted() && Kept() && (forall r | r in records :: r.isInvalid && !r.freed)
      requires |entries| == |keys| && forall i, j | 0 <= i < j < |keys| :: keys[i] != keys[j]
      requires forall i | 0 <= i < |keys| :: keys[i] in cache.Contents && entries[i] == cache.Contents[keys[i]]
      requires forall k | k in cache.Contents :: k in keys
      ensures Entries(entries, keys, cache.Contents) && Uncaching(cache.Contents)
    {
      hide CachedBy;
    }

    method UncacheAll(ghost before: set<RouteInfo>, entries: seq<CacheEntry>, ghost keys: seq<Key>,
      ghost all: map<Key, CacheEntry>)
      requires Entries(entries, keys, all) && Uncaching(all) && records == before
      modifies this`records, this`kept, before`cachedRefcnt, before`freed
      ensures records == before && kept == {}
      ensures forall r | r in records :: r.isInvalid && !r.freed && r.cachedRefcnt == 0
    {
      hide *;
      ghost var left := all;
      assert entries[0..] == entries && keys[0..] == keys;
      EntriesLength(entries, keys, all);
      var i := 0;
      while i < |entries|
        invariant 0 <= i <= |entries| == |keys| && records == before
        invariant Entries(entries[i..], keys[i..], left) && Uncaching(left)
      {
        First(entries, i);
        First(keys, i);
        label Next:
        EntriesTail(entries[i], keys[i], entries[i + 1..], keys[i + 1..], left);
        UncacheHead(keys[i], left);
        CacheDelCb(entries[i]);
        UncacheStep@Next(keys[i], left);
        left := left - {keys[i]};
        i := i + 1;
      }
      assert entries[i..] == [] && keys[i..] == [];
      UncacheEnds(left);
    }

    static lemma EntriesLength(rest: seq<CacheEntry>, keys: seq<Key>, left: map<Key, CacheEntry>)
      requires Entries(rest, keys, left)
      ensures |rest| == |keys|
    {
    }

    static lemma EntriesTail(e: CacheEntry, key: Key, rest: seq<CacheEntry>, keys: seq<Key>, left: map<Key, CacheEntry>)
      requires Entries([e] + rest, [key] + keys, left)
      ensures Entries(rest, keys, left - {key}) && key in left && left[key] == e
    {
      KeysTail(key, keys);
      KnownTail(e, key, rest, keys, left);
      assert forall k | k in left :: k in [key] + keys;
    }

    /** The keys stay different, and are not the first. */
    static lemma KeysTail(key: Key, keys: seq<Key>)
      requires forall i, j | 0 <= i < j < |[key] + keys| :: ([key] + keys)[i] != ([key] + keys)[j]
      ensures key !in keys && forall i, j | 0 <= i < j < |keys| :: keys[i] != keys[j]
    {
      var names := [key] + keys;
      assert names[0] == key && forall i | 0 <= i < |keys| :: names[i + 1] == keys[i];
    }

    /** The entries are those the keys stand for. */
    static lemma KnownTail(e: CacheEntry, key: Key, rest: seq<CacheEntry>, keys: seq<Key>, left: map<Key, CacheEntry>)
      requires |rest| == |keys| && forall i | 0 <= i < |[e] + rest| ::
        ([key] + keys)[i] in left && left[([key] + keys)[i]] == ([e] + rest)[i]
      ensures key in left && left[key] == e && forall i | 0 <= i < |rest| :: keys[i] in left && left[keys[i]] == rest[i]
    {
      var all, names := [e] + rest, [key] + keys;
      assert all[0] == e && names[0] == key;
      assert forall i | 0 <= i < |rest| :: all[i + 1] == rest[i] && names[i + 1] == keys[i];
    }

    lemma UncacheHead(key: Key, left: map<Key, CacheEntry>)
      requires Uncaching(left) && key in left
      ensures left[key] in kept && left[key].rInfo in records && !left[key].rInfo.freed
        && left[key].rInfo.cachedRefcnt > 0
    {
      CachedByDel(left, key, left[key].rInfo);
    }

    twostate lemma UncacheStep(new key: Key, left: map<Key, CacheEntry>)
      requires old(Uncaching(left)) && key in left && records == old(records) && kept == old(kept) - {left[key]}
      requires left[key].rInfo.cachedRefcnt == old(left[key].rInfo.cachedRefcnt) - 1 && !left[key].rInfo.freed
      requires forall r | r in records :: r.isInvalid == old(r.isInvalid)
      requires forall r | r in records && r != left[key].rInfo ::
        r.cachedRefcnt == old(r.cachedRefcnt) && r.freed == old(r.freed)
      ensures Uncaching(left - {key})
    {
      hide CachedBy;
      forall r | r in records
        ensures CachedBy(left, r) == CachedBy(left - {key}, r) + if left[key].rInfo == r then 1 else 0
      {
        CachedByDel(left, key, r);
      }
    }

    lemma UncacheEnds(left: map<Key, CacheEntry>)
      requires Entries([], [], left) && Uncaching(left)
      ensures kept == {} && forall r | r in records :: r.isInvalid && !r.freed && r.cachedRefcnt == 0
    {
      assert left == map[];
    }

    /** `ixc_route_uninit` up to the wheel. In this order no callback touches a record or an entry that
        has been freed. The records that are never freed are exactly those that were cached and those
        left over from before. The wheel is not told: it would still call back every entry the cache
        had, and all of them have been freed. */
    method Uninit()
      requires Valid()
      modifies this`records, this`kept, pre, pre.nodes, records`isInvalid, records`freed, records`cachedRefcnt
      ensures pre.lens == multiset{} && kept == {}
      ensures records == old(Lasting()) && forall r | r in records :: !r.freed
      ensures forall r :: r in records <==> r in old(records) && (old(r.isInvalid) || old(r.cachedRefcnt) > 0)
      ensures forall r | r in old(records) && r !in records :: r.freed
      ensures wheel.Valid() && forall e :: e in TimeWheel.LiveData(wheel.Armed()) <==> e in old(cache.Contents).Values
    {
      hide *;
      ValidElim();
      SoundElim();
      WaitingAre();
      LastingAre();
      ReleaseRoutes();
      ReleaseCache();
      WouldCall();
    }

    lemma LastingAre()
      ensures forall r :: r in Lasting() <==> r in records && (r.isInvalid || r.cachedRefcnt > 0)
    {
    }

    lemma WaitingAre()
      requires Kept() && Timed({}, [], {})
      ensures Waiting.Waits(wheel, {}, [], waiting) && waiting.Keys == cache.Contents.Values
    {
      assert forall e | e in kept :: e.address in cache.Contents;
    }

    lemma WouldCall()
      requires Waiting.Waits(wheel, {}, [], waiting)
      ensures wheel.Valid() && forall e :: e in TimeWheel.LiveData(wheel.Armed()) <==> e in waiting.Keys
    {
      hide TimeWheel.LiveData;
      Waiting.LiveAre(wheel, waiting);
    }

    // ---------- longest prefix match ----------

    /** One probe: the masked address and the length are a key exactly when a route of this length matches. */
    lemma Probe(address: Address, n: nat)
      requires MapsOk() && PrefixesOk() && Live() && |address| == width && n < |pre.list|
      ensures |pre.list[n].mask| == width
      ensures var p := pre.list[n]; var key := Masked(address, p.mask) + [p.prefix];
        if key in rt.Contents then Matches(rt.Contents[key], address) && rt.Contents[key].prefix == p.prefix
        else forall k | k in rt.Contents && Matches(rt.Contents[k], address) :: rt.Contents[k].prefix != p.prefix
    {
      hide MapsOk, WithPrefix, Contains, Normal, Masked;
      var p := pre.list[n];
      var sub := Masked(address, p.mask);
      var key := sub + [p.prefix];
      if key in rt.Contents {
        var r := rt.Contents[key];
        SplitKey(sub, p.prefix, r);
        MaskedIsSubnet(r.subnet, p.prefix, address, p.mask);
      } else {
        forall k | k in rt.Contents && Matches(rt.Contents[k], address)
          ensures rt.Contents[k].prefix != p.prefix
        {
          var r := rt.Contents[k];
          if r.prefix == p.prefix {
            assert |r.Key()| == width + 1;
            MaskedIsSubnet(r.subnet, p.prefix, address, p.mask);
            assert false;
          }
        }
      }
    }

    lemma SplitKey(sub: Address, prefix: Byte, r: RouteInfo)
      requires r.Key() == sub + [prefix]
      ensures r.subnet == sub && r.prefix == prefix
    {
      assert r.Key()[|sub|] == prefix && r.Key()[|r.subnet|] == r.prefix;
      assert r.Key()[..|sub|] == sub && r.Key()[..|r.subnet|] == r.subnet;
    }

    /** The mask-and-look-up walk of `ixc_route_match`: its first hit is the longest match of all
        routes, and no hit means that no route matches. */
    method Walk(address: Address) returns (r: RouteInfo?)
      requires Sound() && |address| == width
      ensures r == null ==> forall k | k in rt.Contents :: !Matches(rt.Contents[k], address)
      ensures r != null ==> r in records && !r.isInvalid && Best(rt.Contents, r, address, clock)
      ensures r != null ==> r.Key() in rt.Contents && rt.Contents[r.Key()] == r
    {
      hide *;
      SoundElim();
      MapsElim();
      var p := pre.head;
      ghost var n := 0;
      HeadIs();
      PassedNone(address);
      while p != null
        invariant 0 <= n <= |pre.list| && p == Prefixes.At(pre.list, n) && Passed(address, n)
        decreases |pre.list| - n
      {
        StepTo(p, n);
        Probe(address, n);
        var key := Masked(address, p.mask) + [p.prefix];
        var found, isFound := rt.Find(key);
        if isFound {
          r := found.value;
          FirstHit(address, n, key);
          return;
        }
        PassedOne(address, n);
        p := p.next;
        n := n + 1;
      }
      AllTried(address, n);
      r := null;
    }

    lemma HeadIs()
      requires PrefixesOk()
      ensures pre.head == Prefixes.At(pre.list, 0)
    {
    }

    lemma StepTo(p: Prefixes.Prefix, n: int)
      requires PrefixesOk() && 0 <= n <= |pre.list| && p == Prefixes.At(pre.list, n)
      ensures n < |pre.list| && p == pre.list[n] && p.next == Prefixes.At(pre.list, n + 1)
    {
    }

    ghost predicate Passed(address: Address, n: nat)
      reads rt`Contents, pre`list
    {
      && n <= |pre.list|
      && forall k, i | k in rt.Contents && Matches(rt.Contents[k], address) && 0 <= i < n ::
        rt.Contents[k].prefix != pre.list[i].prefix
    }

    lemma FirstHit(address: Address, n: nat, key: Key)
      requires PrefixesOk() && Live() && Current() && Passed(address, n) && n < |pre.list| && key in rt.Contents
      requires Matches(rt.Contents[key], address) && rt.Contents[key].prefix == pre.list[n].prefix
      ensures var r := rt.Contents[key];
        r in records && !r.isInvalid && Best(rt.Contents, r, address, clock) && r.Key() == key
    {
      hide Matches, WithPrefix;
      forall k | k in rt.Contents && Matches(rt.Contents[k], address)
        ensures rt.Contents[k].prefix <= pre.list[n].prefix
      {
        InUse(k);
        var i :| 0 <= i < |pre.list| && pre.list[i].prefix == rt.Contents[k].prefix;
      }
    }

    /** Every route's length is in the list. */
    lemma InUse(k: Key)
      requires PrefixesOk() && Live() && k in rt.Contents
      ensures pre.Listed(rt.Contents[k].prefix)
    {
      var p := rt.Contents[k].prefix;
      var s := set q | q in rt.Contents.Keys && q != [] && q[|q| - 1] == p;
      assert k in s;
      assert |s| > 0;
      assert p in pre.lens;
    }

    lemma AllTried(address: Address, n: nat)
      requires PrefixesOk() && Live() && Passed(address, n) && Prefixes.At(pre.list, n) == null
      ensures forall k | k in rt.Contents :: !Matches(rt.Contents[k], address)
    {
      hide Matches, WithPrefix;
      forall k | k in rt.Contents
        ensures !Matches(rt.Contents[k], address)
      {
        InUse(k);
        var i :| 0 <= i < |pre.list| && pre.list[i].prefix == rt.Contents[k].prefix;
      }
    }

    lemma PassedOne(address: Address, n: nat)
      requires Passed(address, n) && n < |pre.list|
      requires forall k | k in rt.Contents && Matches(rt.Contents[k], address) ::
        rt.Contents[k].prefix != pre.list[n].prefix
      ensures Passed(address, n + 1)
    {
    }

    lemma PassedNone(address: Address)
      ensures Passed(address, 0)
    {
    }

    /** `ixc_route_match`. An answer from the cache is the longest match among the routes installed
        no later than the cache entry; any other answer is the longest match of all. */
    method RouteMatch(address: Address, now: int, g: CacheGrants) returns (r: RouteInfo?)
      requires Valid() && |address| == width && time <= now
      modifies this`records, this`kept, this`waiting, this`time, cache, cache.nodes, records`cachedRefcnt,
               records`freed, wheel, wheel.entries
      ensures Valid() && old(time) <= time <= now && wheel.oldTime == old(wheel.oldTime)
      ensures records == old(records) && forall o | o in Repr() :: o in old(Repr()) || !old(allocated(o))
      ensures r != null ==> r in records && !r.isInvalid && r.Key() in rt.Contents && rt.Contents[r.Key()] == r
      ensures old(Hit(address)) ==>
        && r != null && r == old(cache.Contents)[address].rInfo
          && Best(rt.Contents, r, address, old(cache.Contents)[address].made)
      ensures !old(Hit(address)) && r != null ==> Best(rt.Contents, r, address, clock)
      ensures old(Hit(address)) <==> address in old(cache.Contents) && !old(cache.Contents[address].rInfo.isInvalid)
      ensures r != null ==> Matches(r, address) && forall k | k in rt.Contents && Matches(rt.Contents[k], address)
        && (!old(Hit(address)) || rt.Contents[k].since + 180 <= wheel.oldTime
          || rt.Contents[k].born <= old(cache.Contents)[address].made) ::
        rt.Contents[k].prefix <= r.prefix
      ensures !old(Hit(address)) && r == null ==> forall k | k in rt.Contents :: !Matches(rt.Contents[k], address)
      ensures !old(Hit(address)) && r != null && address in cache.Contents ==> Made(cache.Contents[address], r, now)
      ensures !old(Hit(address)) && r != null && address in cache.Contents ==>
        var e := cache.Contents[address]; e.rInfo == r && e.upTime == now && e.made == clock
      ensures r != null && address !in old(cache.Contents) && old(r.cachedRefcnt) < MAX_CACHED
              && g.entry && g.timer && g.nodes >= width ==>
                address in cache.Contents
    {
      hide *;
      HitIs(address);
      if Hit(address) {
        HitBest(address);
        NotLongStale(address);
        BestElim(cache.Contents[address].rInfo, address, cache.Contents[address].made);
      }
      Sizes();
      r := CacheGet(address);
      if r == null {
        r := Search(address, now, g);
        if r != null {
          BestElim(r, address, clock);
          MadeElim(address, r, now);
        }
      }
    }

    lemma MadeElim(address: Address, r: RouteInfo, now: int)
      requires address in cache.Contents ==> Made(cache.Contents[address], r, now)
      ensures address in cache.Contents ==>
        var e := cache.Contents[address]; e.rInfo == r && e.upTime == now && e.made == clock
    {
    }

    lemma HitIs(address: Address)
      requires Valid()
      ensures Hit(address) <==> address in cache.Contents && !cache.Contents[address].rInfo.isInvalid
    {
      SoundElim();
      HitElim(address);
    }

    lemma BestElim(r: RouteInfo, address: Address, when: nat)
      requires Best(rt.Contents, r, address, when)
      ensures Matches(r, address)
      ensures forall k | k in rt.Contents && Matches(rt.Contents[k], address) && rt.Contents[k].born <= when ::
        rt.Contents[k].prefix <= r.prefix
    {
    }

    /** The part of `ixc_route_match` behind the cache. */
    method Search(address: Address, now: int, g: CacheGrants) returns (r: RouteInfo?)
      requires Valid() && |address| == width && address !in cache.Contents && time <= now
      modifies this`kept, this`waiting, this`time, cache, cache.nodes, records`cachedRefcnt, wheel, wheel.entries
      ensures Valid() && old(time) <= time <= now && wheel.oldTime == old(wheel.oldTime)
      ensures forall o | o in Repr() :: o in old(Repr()) || !old(allocated(o))
      ensures r == null ==> forall k | k in rt.Contents :: !Matches(rt.Contents[k], address)
      ensures r != null ==> r in records && !r.isInvalid && r.Key() in rt.Contents && rt.Contents[r.Key()] == r
      ensures r != null ==> Best(rt.Contents, r, address, clock)
      ensures r != null ==> forall k | k in rt.Contents && Matches(rt.Contents[k], address) ::
        rt.Contents[k].prefix <= r.prefix
      ensures r != null && address in cache.Contents ==> Made(cache.Contents[address], r, now)
      ensures r != null && old(r.cachedRefcnt) < MAX_CACHED && g.entry && g.timer && g.nodes >= width ==>
        address in cache.Contents
    {
      hide *;
      ValidElim();
      r := Walk(address);
      if r != null {
        BestNow(r, address);
        CachePut(address, r, now, g);
      }
    }

    lemma BestNow(r: RouteInfo, address: Address)
      requires Valid() && Best(rt.Contents, r, address, clock)
      ensures forall k | k in rt.Contents && Matches(rt.Contents[k], address) :: rt.Contents[k].prefix <= r.prefix
    {
      hide rt.Valid, pre.Valid, cache.Valid, Matches;
    }

    /** A cached answer is at least as long as every matching route that was in the table for the timeout
        when the wheel last moved: nothing stays hidden for longer than the timeout, a tick and the time
        between two polls. */
    lemma NotLongStale(address: Address)
      requires Valid() && Hit(address)
      ensures forall k | k in rt.Contents && Matches(rt.Contents[k], address)
        && rt.Contents[k].since + CACHE_TIMEOUT <= wheel.oldTime ::
        rt.Contents[k].prefix <= cache.Contents[address].rInfo.prefix
    {
      hide rt.Valid, pre.Valid, cache.Valid, Matches, Waiting.Waits, CachedBy, WithPrefix;
      var e := cache.Contents[address];
      assert e in waiting && wheel.oldTime - e.upTime < CACHE_TIMEOUT;
    }

    lemma HitBest(address: Address)
      requires Valid() && Hit(address)
      ensures address in cache.Contents
      ensures var r := cache.Contents[address].rInfo;
        r in records && !r.isInvalid && r.Key() in rt.Contents && rt.Contents[r.Key()] == r
        && Best(rt.Contents, r, address, cache.Contents[address].made)
    {
    }

    /** A cached answer is the longest match of all exactly when no matching route that came after
        the cache entry is longer; in particular when none came after it. */
    lemma CachedExact(address: Address)
      requires Valid() && Hit(address)
      ensures var e := cache.Contents[address];
        Best(rt.Contents, e.rInfo, address, clock) <==>
          forall k | k in rt.Contents && rt.Contents[k].born > e.made && Matches(rt.Contents[k], address) ::
            rt.Contents[k].prefix <= e.rInfo.prefix
      ensures cache.Contents[address].made == clock ==> Best(rt.Contents, cache.Contents[address].rInfo, address, clock)
    {
      hide rt.Valid, pre.Valid, Matches, WithPrefix, CachedBy;
    }
  }

  /** Routes named by whole bytes match every address that starts with those bytes. */
  lemma BytesMatch(r: RouteInfo, n: nat, address: Address)
    requires |r.subnet| == |address| && n <= |address| && r.prefix == 8 * n && r.subnet[..n] == address[..n]
    requires forall i | n <= i < |address| :: r.subnet[i] == 0
    ensures Matches(r, address)
  {
    forall i: nat | i < 8 * n
      ensures BitAt(r.subnet, i) == BitAt(address, i)
    {
      assert r.subnet[..n][i / 8] == address[..n][i / 8];
    }
    forall i: nat | 8 * n <= i < 8 * |address|
      ensures !BitAt(r.subnet, i)
    {
      ZeroBits(7 - i % 8);
    }
  }

  /** A table with the route 10/8. */
  method OneRoute() returns (t: Table, ghost short: RouteInfo)
    ensures t.Valid() && t.width == 4 && t.time == 0 && t.cache.Contents == map[]
    ensures forall o | o in t.Repr() :: fresh(o)
    ensures t.rt.Contents == map[[10, 0, 0, 0, 8] := short] && short.prefix == 8 && short.cachedRefcnt == 0
    ensures Matches(short, [10, 1, 0, 1])
  {
    hide *;
    t := new Table(4, 0);
    t.Parts();
    t.OwnParts();
    var _, more := t.RouteAdd([10, 0, 0, 0], 8, None, None, 0, Grants(true, true, 5));
    short := more;
    assert [10, 0, 0, 0] + [8] == [10, 0, 0, 0, 8];
    BytesMatch(short, 1, [10, 1, 0, 1]);
  }

  /** The same, asked for 10.1.0.1. */
  method Asked() returns (t: Table, ghost short: RouteInfo)
    ensures t.Valid() && t.width == 4 && t.time == 0 && (forall o | o in t.Repr() :: fresh(o))
    ensures t.rt.Contents == map[[10, 0, 0, 0, 8] := short] && short.prefix == 8
    ensures t.Hit([10, 1, 0, 1]) && t.cache.Contents[[10, 1, 0, 1]].rInfo == short
  {
    hide *;
    t, short := OneRoute();
    t.OwnParts();
    t.ValidElim();
    t.HitElim([10, 1, 0, 1]);
    Sizes();
    var r := t.RouteMatch([10, 1, 0, 1], 0, CacheGrants(true, 4, true));
    assert t.rt.Contents[[10, 0, 0, 0, 8]] == short;
    assert r == short;
    t.MadeHit([10, 1, 0, 1], r, 0);
  }

  /** A run in which the cache answers with 10/8 although 10.1/16 has been added since. */
  method StaleAnswer() returns (t: Table, r: RouteInfo?, ghost longer: RouteInfo)
    ensures t.Valid() && r != null && r.prefix == 8
    ensures Matches(longer, [10, 1, 0, 1]) && longer.Key() in t.rt.Contents && t.rt.Contents[longer.Key()] == longer
      && longer.prefix == 16
  {
    hide *;
    ghost var short;
    t, short := Asked();
    t.OwnParts();
    assert [10, 1, 0, 0] + [16] == [10, 1, 0, 0, 16];
    assert [10, 1, 0, 0, 16][1] != [10, 0, 0, 0, 8][1];
    label Before:
    var _, more := t.RouteAdd([10, 1, 0, 0], 16, None, None, 0, Grants(true, true, 5));
    t.HitKept@Before([10, 1, 0, 1]);
    longer := more;
    BytesMatch(longer, 2, [10, 1, 0, 1]);
    t.OwnParts();
    r := t.RouteMatch([10, 1, 0, 1], 0, CacheGrants(true, 4, true));
  }

  /** The same, and the route deleted. */
  method Abandoned() returns (t: Table, ghost lost: RouteInfo)
    ensures t.Valid() && t.width == 4 && (forall o | o in t.Repr() :: fresh(o)) && t.rt.Contents == map[]
    ensures lost in t.records && lost.isInvalid && !t.Hit([10, 1, 0, 1])
  {
    hide *;
    t, lost := Asked();
    t.OwnParts();
    t.StillCached([10, 1, 0, 1]);
    assert [10, 0, 0, 0] + [8] == [10, 0, 0, 0, 8];
    var gone := t.RouteDel([10, 0, 0, 0], 8);
    t.NoHit([10, 1, 0, 1], lost);
  }

  /** A run in which a route that is deleted while cached keeps its memory although neither the table
      nor the cache refers to it any more. */
  method LeakedRecord() returns (t: Table, ghost lost: RouteInfo)
    ensures t.Valid() && t.rt.Contents == map[] && [10, 1, 0, 1] !in t.cache.Contents
    ensures lost in t.records && lost.isInvalid && !lost.freed
  {
    hide *;
    t, lost := Abandoned();
    t.OwnParts();
    var _ := t.CacheGet([10, 1, 0, 1]);
    t.ValidElim();
    t.SoundElim();
    t.NotFreed(lost);
  }
}
