/** LAN rules, `ixc_syscore/router/src/sec_net.c`: for one source, a default action, a list of
    destination subnets that get the opposite one, and a cache of verdicts. One address family. */
module SecNet {
  import opened Bytes
  import opened Subnets
  import TrieMap
  import TimeWheel
  import Waiting

  type Entry = TimeWheel.TimeData<RuleCache>

  const CACHE_TIMEOUT := 120
  const IO_WAIT_TIMEOUT := 10

  function WheelTicks(): (n: nat)
    ensures n == 24
  {
    CACHE_TIMEOUT * 2 / IO_WAIT_TIMEOUT
  }

  lemma Sizes()
    ensures IO_WAIT_TIMEOUT == 10 && CACHE_TIMEOUT == 120
  {
  }

  datatype Action = DROP | ACCEPT

  function Opposite(a: Action): Action {
    if a == DROP then ACCEPT else DROP
  }

  class DstRule {
    const next: DstRule?
    const address: Address
    const mask: Address
    const prefix: Byte
    const action: Action

    constructor (next: DstRule?, address: Address, mask: Address, prefix: Byte, action: Action)
      ensures this.next == next && this.address == address && this.mask == mask && this.prefix == prefix
        && this.action == action
    {
      this.next, this.address, this.mask, this.prefix, this.action := next, address, mask, prefix, action;
    }
  }

  /** A verdict and when it was last used. */
  class RuleCache {
    const address: Address
    const action: Action
    var upTime: int
    var tdata: TimeWheel.TimeData?<RuleCache>

    // how many rules there were when it was made
    ghost const made: nat

    constructor (address: Address, action: Action, upTime: int, ghost made: nat)
      ensures this.address == address && this.action == action && this.upTime == upTime && this.made == made
    {
      this.address, this.action, this.upTime, this.made := address, action, upTime, made;
      tdata := null;
    }
  }

  ghost function At(s: seq<DstRule>, i: int): DstRule? {
    if 0 <= i < |s| then s[i] else null
  }

  /** The length a rule's mask has; a prefix that is too long leaves the mask cleared. */
  function MaskLength(prefix: Byte, width: nat): nat {
    if prefix > 8 * width then 0 else prefix
  }

  /** The rule is about the address: its subnet contains it and is written without host bits. */
  ghost predicate Covers(r: DstRule, address: Address) {
    var length := MaskLength(r.prefix, |r.address|);
    Contains(r.address, length, address) && Normal(r.address, length)
  }

  /** The same in numbers: the range of the rule begins at its subnet. */
  lemma CoversIsRange(r: DstRule, address: Address)
    requires |r.address| == |address| && r.prefix <= 8 * |address|
    ensures var p := Power(8 * |address| - r.prefix);
      p > 0 && (Covers(r, address) <==>
        Number(r.address) % p == 0 && Number(r.address) <= Number(address) < Number(r.address) + p)
  {
    RangeIs(r.address, r.prefix, address);
  }

  ghost predicate Covered(rules: seq<DstRule>, address: Address) {
    exists i :: 0 <= i < |rules| && Covers(rules[i], address)
  }

  /** What the rules say, in whatever order: the default, unless some subnet contains the address. */
  ghost function Verdict(action: Action, rules: seq<DstRule>, address: Address): Action {
    if Covered(rules, address) then Opposite(action) else action
  }

  /** What the allocator does for one cache entry. */
  datatype Grants = Grants(cache: bool, entry: bool, nodes: nat)

  class SrcRule {
    const width: nat
    const action: Action
    var head: DstRule?
    const cache: TrieMap.Map<RuleCache>
    const wheel: TimeWheel.Wheel<RuleCache>

    // the destination rules, oldest first; new ones go to the head
    ghost var rules: seq<DstRule>
    // the cache entries, and those that wait in the wheel
    ghost var kept: set<RuleCache>
    ghost var waiting: Waiting.Owners<RuleCache>

    ghost predicate Listed()
      reads this`head, this`rules
    {
      && head == At(rules, |rules| - 1)
      && (forall i {:trigger rules[i].next} | 0 <= i < |rules| :: rules[i].next == At(rules, i - 1))
      && (forall i {:trigger rules[i].mask} | 0 <= i < |rules| ::
            && |rules[i].address| == |rules[i].mask| == width
            && IsMask(rules[i].mask, MaskLength(rules[i].prefix, width)) && rules[i].action == Opposite(action))
    }

    /** A cached verdict is the one of the rules there were when it was made. */
    ghost predicate Honest()
      reads this`rules, cache`Contents
    {
      forall a | a in cache.Contents ::
        var e := cache.Contents[a];
        e.address == a && e.made <= |rules| && e.action == Verdict(action, rules[..e.made], a)
    }

    ghost predicate CacheOk()
      reads cache, cache.nodes
    {
      cache.Valid() && cache.length == width
    }

    ghost predicate Kept()
      reads this`kept, cache`Contents
    {
      && (forall a | a in cache.Contents :: cache.Contents[a] in kept && cache.Contents[a].address == a)
      && (forall e | e in kept :: e.address in cache.Contents && cache.Contents[e.address] == e)
    }

    /** All entries wait, but for `off`: in the wheel, or in the list `rest` that is being fired, and
        those in the wheel were not idle for too long when it last moved. */
    ghost predicate Timed(loose: set<Entry>, rest: seq<Entry>, off: set<RuleCache>)
      reads this`kept, this`waiting, wheel, wheel.entries, rest, waiting.Keys
    {
      && wheel.tickTimeout == IO_WAIT_TIMEOUT && Waiting.Waits(wheel, loose, rest, waiting)
      && off <= kept && waiting.Keys == kept - off
      && forall e | e in waiting ::
        e.tdata == waiting[e] && (waiting[e] !in rest ==> wheel.oldTime - e.upTime < CACHE_TIMEOUT)
    }

    ghost predicate Sound()
      reads this`head, this`rules, this`kept, cache, cache.nodes
    {
      CacheOk() && Listed() && Honest() && Kept()
    }

    ghost predicate Valid()
      reads this, cache, cache.nodes, wheel, wheel.entries, waiting.Keys
    {
      Sound() && Timed({}, [], {})
    }

    ghost function Repr(): set<object>
      reads this`kept, cache`nodes, wheel`entries
    {
      {this, cache, wheel} + cache.nodes + wheel.entries + kept
    }

    constructor (width: nat, action: Action, now: int)
      requires 0 < width < 0x100
      ensures Valid() && this.width == width && this.action == action && rules == [] && cache.Contents == map[]
      ensures wheel.oldTime == now && wheel.size == WheelTicks() + 1 && kept == {}
      ensures fresh(cache) && fresh(cache.nodes) && fresh(wheel) && fresh(wheel.entries)
    {
      hide *;
      Sizes();
      this.width, this.action := width, action;
      cache := new TrieMap.Map<RuleCache>(width);
      wheel := new TimeWheel.Wheel<RuleCache>(WheelTicks(), IO_WAIT_TIMEOUT, 128, now);
      head, rules, kept, waiting := null, [], {}, map[];
      new;
      StartsValid();
    }

    lemma StartsValid()
      requires head == null && rules == [] && kept == {} && waiting == map[]
      requires cache.Valid() && cache.length == width && cache.Contents == map[]
      requires wheel.Valid() && wheel.Armed() == [] && wheel.tickTimeout == IO_WAIT_TIMEOUT
      ensures Valid()
    {
      hide cache.Valid;
      Waiting.Starts(wheel);
    }

    lemma Parts()
      ensures Repr() == {this, cache, wheel} + cache.nodes + wheel.entries + kept
    {
    }

    lemma OwnParts()
      requires Valid()
      ensures {this, cache, wheel} + kept <= Repr() && cache.nodes <= Repr() && wheel.entries <= Repr()
      ensures forall l | l in wheel.emptyData :: l in wheel.entries
    {
      ValidElim();
    }

    twostate lemma Grows(e: object?)
      requires forall o | o in cache.nodes :: o in old(cache.nodes) || !old(allocated(o))
      requires forall o | o in wheel.entries :: o in old(wheel.entries) || !old(allocated(o))
      requires forall o | o in kept :: o in old(kept) || o == e || !old(allocated(o))
      ensures forall o | o in Repr() :: o in old(Repr()) || o == e || !old(allocated(o))
    {
    }

    lemma ValidElim()
      requires Valid()
      ensures Sound() && Timed({}, [], {}) && CacheOk() && Listed()
      ensures forall l | l in wheel.emptyData :: l in wheel.entries
    {
    }

    lemma ValidIntro()
      requires Sound() && Timed({}, [], {})
      ensures Valid()
    {
    }

    lemma CacheElim()
      requires CacheOk()
      ensures cache.Valid() && cache.length == width
    {
    }

    lemma CacheIntro()
      requires cache.Valid() && cache.length == width
      ensures CacheOk()
    {
    }

    // ---------- a packet ----------

    /** `ixc_sec_net_handle_rule`: the cached verdict if there is one, which becomes young, else that of
        the first rule that matches, else the default; a new verdict is cached if there is memory. */
    method HandleRule(address: Address, now: int, g: Grants) returns (verdict: Action)
      requires Valid() && |address| == width && wheel.oldTime <= now
      modifies this`kept, this`waiting, kept`upTime, cache, cache.nodes, wheel, wheel.emptyData
      ensures Valid() && wheel.oldTime == old(wheel.oldTime)
      ensures forall o | o in Repr() :: o in old(Repr()) || !old(allocated(o))
      ensures forall a | a in old(cache.Contents) ::
        && a in cache.Contents && cache.Contents[a] == old(cache.Contents)[a]
        && cache.Contents[a].upTime == if a == address then now else old(cache.Contents[a].upTime)
      ensures forall a | a in cache.Contents :: a in old(cache.Contents) || a == address
      ensures address in old(cache.Contents) ==>
        && verdict == cache.Contents[address].action
        && wheel.oldTime - old(cache.Contents[address].upTime) < CACHE_TIMEOUT
      ensures address !in old(cache.Contents) ==>
        && verdict == Verdict(action, rules, address)
        && (g.cache && g.entry && g.nodes >= width ==> address in cache.Contents)
        && (address in cache.Contents ==> Made(cache.Contents[address], verdict, now))
      ensures address !in old(cache.Contents) && address in cache.Contents ==>
        var e := cache.Contents[address]; e.action == verdict && e.upTime == now && e.made == |rules|
    {
      hide *;
      var e := LookUp(address);
      if e != null {
        Refresh(e, now);
        return e.action;
      }
      ValidElim();
      var dstRule := FirstMatch(address);
      verdict := if dstRule == null then action else dstRule.action;
      VerdictIs(address, dstRule);
      AddToCache(address, verdict, now, g);
      if address in cache.Contents {
        MadeElim(address, verdict, now);
      }
    }

    lemma VerdictIs(address: Address, dstRule: DstRule?)
      requires dstRule == null <==> !Covered(rules, address)
      requires dstRule != null ==> dstRule.action == Opposite(action)
      ensures Verdict(action, rules, address) == if dstRule == null then action else dstRule.action
    {
    }

    ghost predicate Made(e: RuleCache, verdict: Action, now: int)
      reads this`rules, e`upTime
    {
      e.action == verdict && e.upTime == now && e.made == |rules|
    }

    method LookUp(address: Address) returns (e: RuleCache?)
      requires Valid() && |address| == width
      ensures e == null <==> address !in cache.Contents
      ensures e != null ==>
        && cache.Contents[address] == e && e.address == address && e in kept
        && wheel.oldTime - e.upTime < CACHE_TIMEOUT
    {
      hide *;
      ValidElim();
      CacheElim();
      var found, isFound := cache.Find(address);
      e := null;
      if isFound {
        e := found.value;
        Known(address);
      }
    }

    lemma Known(address: Address)
      requires Valid() && address in cache.Contents
      ensures var e := cache.Contents[address];
        e in kept && e.address == address && wheel.oldTime - e.upTime < CACHE_TIMEOUT
    {
      assert cache.Contents[address] in waiting;
    }

    lemma MadeElim(address: Address, verdict: Action, now: int)
      requires address in cache.Contents && Made(cache.Contents[address], verdict, now)
      ensures cache.Contents[address].upTime == now && cache.Contents[address].action == verdict
      ensures cache.Contents[address].made == |rules|
    {
    }

    /** A verdict that is used becomes young. */
    method Refresh(e: RuleCache, now: int)
      requires Valid() && e in kept && wheel.oldTime <= now
      modifies e`upTime
      ensures Valid() && e.upTime == now
      ensures forall a | a in cache.Contents ::
        cache.Contents[a].upTime == if a == e.address then now else old(cache.Contents[a].upTime)
    {
      hide *;
      ValidElim();
      WaitingKept({}, []);
      e.upTime := now;
      Young(e);
      ValidIntro();
    }

    twostate lemma Young(e: RuleCache)
      requires old(Sound()) && Sound() && old(Timed({}, [], {})) && e in kept && kept == old(kept)
      requires Waiting.Waits(wheel, {}, [], waiting) && waiting == old(waiting) && wheel.oldTime == old(wheel.oldTime)
      requires e.tdata == old(e.tdata) && wheel.oldTime <= e.upTime && cache.Contents == old(cache.Contents)
      requires forall d | d in kept && d != e :: unchanged(d)
      ensures Timed({}, [], {})
      ensures forall a | a in cache.Contents ::
        cache.Contents[a].upTime == if a == e.address then e.upTime else old(cache.Contents[a].upTime)
    {
      hide CacheOk, Listed, Honest, Waiting.Waits;
    }

    /** `ixc_sec_net_add_to_cache`, for an address that is not in the cache. */
    method AddToCache(address: Address, verdict: Action, now: int, g: Grants)
      requires Valid() && |address| == width && address !in cache.Contents && wheel.oldTime <= now
      requires verdict == Verdict(action, rules, address)
      modifies this`kept, this`waiting, cache, cache.nodes, wheel, wheel.emptyData
      ensures Valid() && wheel.oldTime == old(wheel.oldTime)
      ensures forall o | o in Repr() :: o in old(Repr()) || !old(allocated(o))
      ensures cache.Contents == old(cache.Contents) ||
        (address in cache.Contents && Made(cache.Contents[address], verdict, now)
          && cache.Contents == old(cache.Contents)[address := cache.Contents[address]])
      ensures g.cache && g.entry && g.nodes >= width ==> address in cache.Contents
    {
      hide *;
      if !g.cache { return; }
      var e := new RuleCache(address, verdict, now, |rules|);
      assert Repr() == old(Repr());
      Bring(e, g);
      MadeIntro(e);
    }

    lemma MadeIntro(e: RuleCache)
      requires e.made == |rules|
      ensures Made(e, e.action, e.upTime)
    {
    }

    /** The wheel first, then the trie; if that fails the wheel entry is marked. */
    method Bring(e: RuleCache, g: Grants)
      requires Valid() && |e.address| == width && e.address !in cache.Contents && e !in kept
      requires wheel.oldTime <= e.upTime && e.made == |rules| && e.action == Verdict(action, rules, e.address)
      modifies this`kept, this`waiting, cache, cache.nodes, wheel, wheel.emptyData, e`tdata
      ensures Valid() && wheel.oldTime == old(wheel.oldTime)
      ensures forall o | o in Repr() :: o in old(Repr()) || o == e || !old(allocated(o))
      ensures cache.Contents == old(cache.Contents) || cache.Contents == old(cache.Contents)[e.address := e]
      ensures g.entry && g.nodes >= width ==> e.address in cache.Contents
    {
      hide *;
      ValidElim();
      var tdata := ArmFor(e, g.entry);
      if tdata != null {
        var rs := CacheAdd(e, g.nodes);
        assert TimedBut(e, tdata);
        if rs != 0 {
          Undo(e, tdata);
        } else {
          Settle(e, tdata);
        }
      }
      Entered(e);
      Grows(e);
      ValidIntro();
    }

    /** The wheel has an entry for what is not in the cache yet. */
    ghost predicate TimedBut(e: RuleCache, tdata: Entry)
      reads this`kept, this`waiting, wheel, wheel.entries, waiting.Keys
    {
      && wheel.tickTimeout == IO_WAIT_TIMEOUT && Waiting.Waits(wheel, {}, [], waiting[e := tdata])
      && e !in kept && waiting.Keys == kept
      && forall d | d in waiting :: d.tdata == waiting[d] && wheel.oldTime - d.upTime < CACHE_TIMEOUT
    }

    method ArmFor(e: RuleCache, grant: bool) returns (tdata: TimeWheel.TimeData?<RuleCache>)
      requires CacheOk() && Timed({}, [], {}) && e !in kept
      modifies wheel, wheel.emptyData
      ensures CacheOk() && wheel.oldTime == old(wheel.oldTime) && (grant ==> tdata != null)
      ensures if tdata == null then Timed({}, [], {}) else TimedBut(e, tdata)
      ensures tdata == null || tdata in old(wheel.emptyData) || fresh(tdata)
      ensures forall o | o in wheel.entries :: o in old(wheel.entries) || !old(allocated(o))
    {
      hide *;
      Sizes();
      NotWaiting(e);
      tdata := Waiting.Arm(wheel, e, IO_WAIT_TIMEOUT, grant, {}, [], waiting);
      if tdata == null {
        Recycled({}, []);
      } else {
        OneArmed(e, tdata);
      }
    }

    lemma NotWaiting(e: RuleCache)
      requires Timed({}, [], {}) && e !in kept
      ensures Waiting.Waits(wheel, {}, [], waiting) && e !in waiting && wheel.tickTimeout == IO_WAIT_TIMEOUT
    {
    }

    twostate lemma OneArmed(e: RuleCache, new tdata: Entry)
      requires old(Timed({}, [], {})) && e !in kept && kept == old(kept) && waiting == old(waiting)
      requires Waiting.Waits(wheel, {}, [], waiting[e := tdata]) && wheel.oldTime == old(wheel.oldTime)
      requires forall d | d in waiting :: unchanged(d)
      ensures TimedBut(e, tdata)
    {
      hide Waiting.Waits;
    }

    method Undo(ghost e: RuleCache, tdata: Entry)
      requires TimedBut(e, tdata)
      modifies tdata`isDeleted
      ensures Timed({}, [], {})
    {
      hide Waiting.Waits;
      Waiting.Cancel(wheel, tdata, e, {}, [], waiting[e := tdata]);
      assert waiting[e := tdata] - {e} == waiting;
    }

    method Settle(e: RuleCache, tdata: Entry)
      requires TimedBut(e, tdata) && wheel.oldTime <= e.upTime
      modifies e`tdata, this`kept, this`waiting
      ensures Timed({}, [], {}) && kept == old(kept) + {e}
    {
      hide Waiting.Waits;
      e.tdata := tdata;
      kept, waiting := kept + {e}, waiting[e := tdata];
    }

    /** The cache holds the new entry, or is as it was. */
    twostate lemma Entered(e: RuleCache)
      requires old(Sound()) && CacheOk() && head == old(head) && rules == old(rules) && e !in old(kept)
      requires if kept == old(kept) then cache.Contents == old(cache.Contents)
               else kept == old(kept) + {e} && e.address !in old(cache.Contents)
                    && cache.Contents == old(cache.Contents)[e.address := e]
      requires e.made == |rules| && e.action == Verdict(action, rules, e.address)
      ensures Sound()
    {
      hide CacheOk, Verdict;
      assert rules[..|rules|] == rules;
    }

    method CacheAdd(e: RuleCache, nodes: nat) returns (rs: int)
      requires CacheOk() && |e.address| == width
      modifies cache, cache.nodes
      ensures CacheOk() && forall o | o in cache.nodes :: o in old(cache.nodes) || !old(allocated(o))
      ensures cache.Contents == if rs == 0 then old(cache.Contents)[e.address := e] else old(cache.Contents)
      ensures e.address !in old(cache.Contents) && nodes >= width ==> rs == 0
    {
      hide *;
      CacheElim();
      TrieMap.MissingBound(cache.tree, e.address, 0);
      rs := cache.Add(e.address, e, nodes);
      CacheIntro();
    }

    method FirstMatch(address: Address) returns (dstRule: DstRule?)
      requires Listed() && |address| == width
      ensures dstRule == null <==> !Covered(rules, address)
      ensures dstRule != null ==> dstRule.action == Opposite(action)
    {
      dstRule := head;
      ghost var n := |rules|;
      while dstRule != null
        invariant 0 <= n <= |rules| && dstRule == At(rules, n - 1)
        invariant forall i | n <= i < |rules| :: !Covers(rules[i], address)
        decreases n
      {
        assert rules[n - 1].mask == dstRule.mask;
        MaskedIsSubnet(dstRule.address, MaskLength(dstRule.prefix, width), address, dstRule.mask);
        if Masked(address, dstRule.mask) == dstRule.address { return; }
        dstRule := dstRule.next;
        n := n - 1;
      }
    }

    /** `ixc_sec_net_add_dst`: a rule that exists is not added again; cached verdicts stay. */
    method AddDst(subnet: Address, prefix: Byte, grant: bool) returns (rs: int)
      requires Valid() && |subnet| == width
      modifies this`head, this`rules
      ensures old(Has(subnet, prefix)) <==>
        exists i :: 0 <= i < |old(rules)| && old(rules)[i].address == subnet && old(rules)[i].prefix == prefix
      ensures Valid() && rs == (if old(Has(subnet, prefix)) || grant then 0 else -2)
      ensures old(Has(subnet, prefix)) || rs != 0 ==> rules == old(rules)
      ensures !old(Has(subnet, prefix)) && rs == 0 ==>
        && |rules| == |old(rules)| + 1 && rules[..|old(rules)|] == old(rules)
        && rules[|old(rules)|].address == subnet && rules[|old(rules)|].prefix == prefix
    {
      hide *;
      ValidElim();
      HasIs(subnet, prefix);
      var known := FindRule(subnet, prefix);
      if known { return 0; }
      if !grant { return -2; }
      var msk := Mask(prefix);
      var r := new DstRule(head, subnet, msk, prefix, if action == DROP then ACCEPT else DROP);
      assert r.action == Opposite(action) by {
        OtherOne();
      }
      Prepend(r);
      rs := 0;
    }

    lemma HasIs(subnet: Address, prefix: Byte)
      ensures Has(subnet, prefix) <==>
        exists i :: 0 <= i < |rules| && rules[i].address == subnet && rules[i].prefix == prefix
    {
    }

    lemma HasNot(subnet: Address, prefix: Byte)
      requires rules == []
      ensures !Has(subnet, prefix)
    {
    }

    lemma OtherOne()
      ensures Opposite(action) == if action == DROP then ACCEPT else DROP
    {
    }

    ghost predicate Has(subnet: Address, prefix: Byte)
      reads this`rules
    {
      exists i :: 0 <= i < |rules| && rules[i].address == subnet && rules[i].prefix == prefix
    }

    method FindRule(subnet: Address, prefix: Byte) returns (known: bool)
      requires Listed()
      ensures known <==> Has(subnet, prefix)
    {
      var dstRule := head;
      ghost var n := |rules|;
      while dstRule != null
        invariant 0 <= n <= |rules| && dstRule == At(rules, n - 1)
        invariant forall i | n <= i < |rules| :: !(rules[i].address == subnet && rules[i].prefix == prefix)
        decreases n
      {
        if dstRule.address == subnet && dstRule.prefix == prefix {
          assert rules[n - 1].address == subnet;
          return true;
        }
        assert rules[n - 1].next == At(rules, n - 2);
        dstRule := dstRule.next;
        n := n - 1;
      }
      return false;
    }

    /** The mask of a new rule, which is cleared before it is calculated. */
    method Mask(prefix: Byte) returns (msk: Address)
      ensures |msk| == width && IsMask(msk, MaskLength(prefix, width))
    {
      var res := new Byte[width](_ => 0);
      var rs := MskCalc(prefix, res);
      msk := res[..];
      if rs != 0 {
        forall i: nat | i < 8 * width
          ensures !BitAt(msk, i)
        {
          ZeroBits(7 - i % 8);
        }
      }
    }

    method Prepend(r: DstRule)
      requires Valid() && r.next == head && |r.address| == |r.mask| == width
      requires IsMask(r.mask, MaskLength(r.prefix, width))
        && r.action == Opposite(action)
      modifies this`head, this`rules
      ensures Valid() && rules == old(rules) + [r]
    {
      hide *;
      ValidElim();
      head := r;
      rules := rules + [r];
      Prepended(r);
      ValidIntro();
    }

    twostate lemma Prepended(r: DstRule)
      requires old(Sound()) && CacheOk() && head == r && rules == old(rules) + [r] && kept == old(kept)
      requires r.next == old(head) && |r.address| == |r.mask| == width && r.action == Opposite(action)
      requires IsMask(r.mask, MaskLength(r.prefix, width)) && cache.Contents == old(cache.Contents)
      ensures Sound()
    {
      hide CacheOk, Listed, Verdict;
      PrependedListed(r);
      forall a | a in cache.Contents
        ensures rules[..cache.Contents[a].made] == old(rules)[..cache.Contents[a].made]
      {
        assert cache.Contents[a].made <= |old(rules)|;
      }
    }

    twostate lemma PrependedListed(r: DstRule)
      requires old(Listed()) && head == r && rules == old(rules) + [r] && r.next == old(head)
      requires |r.address| == |r.mask| == width && IsMask(r.mask, MaskLength(r.prefix, width))
        && r.action == Opposite(action)
      ensures Listed()
    {
      forall i {:trigger rules[i].next} | 0 <= i < |rules|
        ensures rules[i].next == At(rules, i - 1)
      {
        assert rules[i] == if i < |old(rules)| then old(rules)[i] else r;
        assert i < |old(rules)| ==> old(rules)[i].next == At(old(rules), i - 1);
      }
      forall i {:trigger rules[i].mask} | 0 <= i < |rules|
        ensures |rules[i].address| == |rules[i].mask| == width && rules[i].action == Opposite(action)
        ensures IsMask(rules[i].mask, MaskLength(rules[i].prefix, width))
      {
        assert i < |old(rules)| ==> rules[i] == old(rules)[i] && |old(rules)[i].mask| == width;
      }
    }

    // ---------- the wheel ----------

    /** `__ixc_sec_net_cache_timeout`: an idle entry goes, any other arms the wheel again, and goes if
        that fails. */
    method CacheTimeout(e: RuleCache, now: int, grant: bool, ghost loose: set<Entry>, ghost rest: seq<Entry>)
      requires Sound() && Timed(loose, rest, {e}) && wheel.oldTime <= now && e.tdata != null && e.tdata in loose
      modifies this`kept, this`waiting, cache, cache.nodes, wheel, wheel.emptyData, e`tdata, loose`isDeleted
      ensures Sound() && Timed(loose, rest, {}) && wheel.oldTime == old(wheel.oldTime)
      ensures cache.nodes <= old(cache.nodes)
        && forall o | o in wheel.entries :: o in old(wheel.entries) || !old(allocated(o))
      ensures kept == if e in kept then old(kept) else old(kept) - {e}
      ensures if e in kept then now - e.upTime < CACHE_TIMEOUT else now - e.upTime >= CACHE_TIMEOUT || !grant
      ensures forall d | d in waiting && waiting[d] !in rest ::
        d == e || (d in old(waiting) && old(waiting)[d] !in rest)
    {
      hide *;
      OffElim(loose, rest, e);
      if now - e.upTime >= CACHE_TIMEOUT {
        Evict(e, loose, rest);
        return;
      }
      var tdata := Waiting.Arm(wheel, e, IO_WAIT_TIMEOUT, grant, loose, rest, waiting);
      assert Sound();
      e.tdata := tdata;
      if tdata != null {
        waiting := waiting[e := tdata];
        Awaited(e, loose, rest);
      } else {
        StillOff(e, loose, rest);
        Evict(e, loose, rest);
      }
    }

    lemma OffElim(loose: set<Entry>, rest: seq<Entry>, e: RuleCache)
      requires Timed(loose, rest, {e})
      ensures Waiting.Waits(wheel, loose, rest, waiting) && wheel.tickTimeout == IO_WAIT_TIMEOUT == 10
      ensures e in kept && e !in waiting
    {
    }

    twostate lemma Awaited(e: RuleCache, new loose: set<Entry>, new rest: seq<Entry>)
      requires old(allocated(loose)) && old(allocated(rest)) && old(Timed(loose, rest, {e}))
      requires e.tdata != null && Waiting.Waits(wheel, loose, rest, waiting)
      requires waiting == old(waiting)[e := e.tdata] && kept == old(kept) && wheel.oldTime == old(wheel.oldTime)
      requires wheel.oldTime - e.upTime < CACHE_TIMEOUT && forall d | d in kept && d != e :: unchanged(d)
      ensures Timed(loose, rest, {})
      ensures forall d | d in waiting && waiting[d] !in rest ::
        d == e || (d in old(waiting) && old(waiting)[d] !in rest)
    {
    }

    twostate lemma StillOff(e: RuleCache, new loose: set<Entry>, new rest: seq<Entry>)
      requires old(allocated(loose)) && old(allocated(rest)) && old(Timed(loose, rest, {e}))
      requires Waiting.Waits(wheel, loose, rest, waiting) && wheel.oldTime == old(wheel.oldTime)
      requires waiting == old(waiting) && kept == old(kept) && forall d | d in kept && d != e :: unchanged(d)
      ensures Timed(loose, rest, {e})
    {
    }

    /** `map_del` with `__ixc_sec_net_cache_del`: the entry goes, and the wheel entry it knows is marked. */
    method Evict(e: RuleCache, ghost loose: set<Entry>, ghost rest: seq<Entry>)
      requires Sound() && Timed(loose, rest, {e}) && (e.tdata == null || e.tdata in loose)
      modifies this`kept, cache, cache.nodes, loose`isDeleted
      ensures Sound() && Timed(loose, rest, {}) && cache.nodes <= old(cache.nodes) && kept == old(kept) - {e}
    {
      hide *;
      OffElim(loose, rest, e);
      InCache(e);
      CacheElim();
      var _ := cache.Del(e.address);
      CacheIntro();
      kept := kept - {e};
      Evicted(e);
      assert Waiting.Waits(wheel, loose, rest, waiting);
      if e.tdata != null {
        Waiting.CancelLoose(wheel, e.tdata, loose, rest, waiting);
      }
      OffLess(loose, rest, e);
    }

    lemma InCache(e: RuleCache)
      requires Sound() && e in kept
      ensures CacheOk() && e.address in cache.Contents && cache.Contents[e.address] == e && |e.address| == width
    {
      cache.KeyLength(e.address);
    }

    twostate lemma Evicted(e: RuleCache)
      requires old(Sound()) && CacheOk() && e in old(kept) && kept == old(kept) - {e}
      requires head == old(head) && rules == old(rules) && cache.Contents == old(cache.Contents) - {e.address}
      ensures Sound()
    {
      hide CacheOk, Verdict;
    }

    twostate lemma OffLess(new loose: set<Entry>, new rest: seq<Entry>, e: RuleCache)
      requires old(allocated(loose)) && old(allocated(rest)) && old(Timed(loose, rest, {e}))
      requires kept == old(kept) - {e} && waiting == old(waiting) && wheel.oldTime == old(wheel.oldTime)
      requires Waiting.Waits(wheel, loose, rest, waiting) && forall d | d in waiting :: unchanged(d)
      ensures Timed(loose, rest, {})
    {
    }

    /** No entry that waits in the wheel was idle for too long by its callback's clock. */
    ghost predicate Used(rest: seq<Entry>, clock: RuleCache -> int)
      reads this`waiting, waiting.Keys`upTime
    {
      forall d | d in waiting && waiting[d] !in rest :: clock(d) - d.upTime < CACHE_TIMEOUT
    }

    /** One turn of `time_wheel_timeout` with this callback. */
    method FireNext(x: Entry, ghost rest: seq<Entry>, clock: RuleCache -> int, grant: RuleCache -> bool)
      requires Sound() && Timed({}, [x] + rest, {}) && Used([x] + rest, clock)
      requires forall e | e in kept :: wheel.oldTime <= clock(e)
      modifies this`kept, this`waiting, cache, cache.nodes, wheel, wheel.entries, kept`tdata
      ensures Sound() && Timed({}, rest, {}) && Used(rest, clock)
      ensures wheel.oldTime == old(wheel.oldTime) && cache.nodes <= old(cache.nodes) && kept <= old(kept)
      ensures forall o | o in wheel.entries :: o in old(wheel.entries) || !old(allocated(o))
      ensures forall e | e in old(kept) && e !in kept :: clock(e) - e.upTime >= CACHE_TIMEOUT || !grant(e)
    {
      hide *;
      Head(x, rest, clock);
      if !x.isDeleted {
        var e := x.data.value;
        waiting := waiting - {e};
        OffOne(x, rest, e, clock);
        label Fired:
        CacheTimeout(e, clock(e), grant(e), {x}, rest);
        WaitingKept({x}, rest);
        UsedTail@Fired(e, rest, clock);
      }
      Recycle(x, rest);
    }

    /** The entry to be fired next; whose it is, unless it is marked. */
    lemma Head(x: Entry, rest: seq<Entry>, clock: RuleCache -> int)
      requires Timed({}, [x] + rest, {}) && Used([x] + rest, clock)
      ensures x in wheel.entries && forall l | l in wheel.emptyData :: l in wheel.entries
      ensures x.isDeleted ==> Timed({x}, rest, {}) && Used(rest, clock)
      ensures !x.isDeleted ==>
        && x.data.Some? && x.data.value in kept && x.data.value.tdata == x
        && Waiting.Waits(wheel, {x}, rest, waiting - {x.data.value})
    {
      hide Waiting.Waits;
      Waiting.Head(wheel, x, rest, waiting);
      Waiting.Lists(wheel, {}, [x] + rest, waiting);
      Waiting.WaitsElim(wheel, {}, [x] + rest, waiting);
      assert forall l :: l in [x] + rest <==> l == x || l in rest;
    }

    twostate lemma OffOne(x: Entry, new rest: seq<Entry>, new e: RuleCache, new clock: RuleCache -> int)
      requires old(allocated(rest)) && old(allocated(e)) && old(allocated(clock))
      requires old(Timed({}, [x] + rest, {})) && old(Used([x] + rest, clock)) && !x.isDeleted && x.data == Some(e)
      requires Waiting.Waits(wheel, {x}, rest, waiting) && e in kept
      requires waiting == old(waiting) - {e} && kept == old(kept) && unchanged(wheel) && unchanged(x)
      requires forall d | d in old(waiting) :: unchanged(d)
      ensures Timed({x}, rest, {e}) && Used(rest, clock)
    {
      hide TimeWheel.Wheel<RuleCache>.Valid;
      Waiting.Lists(wheel, {x}, rest, waiting);
      assert forall l :: l in [x] + rest <==> l == x || l in rest;
    }

    twostate lemma UsedTail(e: RuleCache, new rest: seq<Entry>, new clock: RuleCache -> int)
      requires old(allocated(rest)) && old(allocated(clock)) && old(Used(rest, clock))
      requires e in waiting ==> clock(e) - e.upTime < CACHE_TIMEOUT
      requires forall d | d in waiting && waiting[d] !in rest ::
        d == e || (d in old(waiting) && old(waiting)[d] !in rest)
      requires forall d | d in old(waiting) :: d.upTime == old(d.upTime)
      ensures Used(rest, clock)
    {
    }

    lemma WaitingKept(loose: set<Entry>, rest: seq<Entry>)
      requires Timed(loose, rest, {})
      ensures waiting.Keys == kept && Waiting.Waits(wheel, loose, rest, waiting)
    {
    }

    /** After its callback the wheel entry is marked and given back. */
    method Recycle(x: Entry, ghost rest: seq<Entry>)
      requires Timed({x}, rest, {})
      modifies wheel`emptyData, wheel`curDataNum, wheel`entries, x
      ensures Timed({}, rest, {}) && wheel.entries <= old(wheel.entries)
    {
      hide *;
      WaitingKept({x}, rest);
      Waiting.Recycle(wheel, x, rest, waiting);
      Recycled({x}, rest);
    }

    twostate lemma Recycled(new loose: set<Entry>, new rest: seq<Entry>)
      requires old(allocated(loose)) && old(allocated(rest)) && old(Timed(loose, rest, {}))
      requires Waiting.Waits(wheel, {}, rest, waiting) && waiting == old(waiting) && kept == old(kept)
      requires wheel.oldTime == old(wheel.oldTime) && forall d | d in waiting :: unchanged(d)
      ensures Timed({}, rest, {})
    {
    }

    /** `time_wheel_handle` on the wheel of the cache, polled before a full turn has passed. No verdict
        goes that has been used within the timeout (unless it could not be armed again), and none
        outlives a poll once it has been idle for longer by a tick. */
    method Handle(now: int, clock: RuleCache -> int, grant: RuleCache -> bool)
      requires Valid() && wheel.TicksBy(now) < wheel.size
      requires forall e | e in kept :: now <= clock(e)
      modifies this`kept, this`waiting, cache, cache.nodes, wheel, wheel.entries, kept`tdata
      ensures Valid() && now - wheel.oldTime < IO_WAIT_TIMEOUT
      ensures wheel.oldTime == if old(wheel.TicksBy(now)) == 0 then old(wheel.oldTime) else now
      ensures forall o | o in Repr() :: o in old(Repr()) || !old(allocated(o))
      ensures forall a | a in cache.Contents ::
        && a in old(cache.Contents) && cache.Contents[a] == old(cache.Contents)[a]
        && now - cache.Contents[a].upTime < CACHE_TIMEOUT + IO_WAIT_TIMEOUT
      ensures forall a | a in old(cache.Contents) && a !in cache.Contents ::
        var e := old(cache.Contents)[a]; clock(e) - e.upTime >= CACHE_TIMEOUT || !grant(e)
      ensures old(wheel.TicksBy(now)) == 0 ==> cache.Contents == old(cache.Contents)
      ensures old(wheel.TicksBy(now)) > 0 ==> forall a | a in cache.Contents ::
        clock(cache.Contents[a]) - cache.Contents[a].upTime < CACHE_TIMEOUT
    {
      hide *;
      ValidElim();
      Sizes();
      ghost var ticks := wheel.TicksBy(now);
      var first := Take(now, clock);
      FireAll(first, ticks > 0, clock, grant);
      ValidElim();
      Grows(null);
      NoneOverdue(now, ticks > 0, clock);
      Survivors(clock, grant);
    }

    /** Move the wheel and take what it leaves behind. */
    method Take(now: int, ghost clock: RuleCache -> int) returns (first: seq<Entry>)
      requires Sound() && Timed({}, [], {}) && wheel.TicksBy(now) < wheel.size
      modifies wheel`oldTime, wheel`curTick, wheel`ticks
      ensures Sound() && Timed({}, first, {}) && now - wheel.oldTime < IO_WAIT_TIMEOUT
      ensures wheel.entries == old(wheel.entries)
      ensures old(wheel.TicksBy(now)) == 0 ==> first == [] && wheel.oldTime == old(wheel.oldTime)
      ensures old(wheel.TicksBy(now)) > 0 ==> Used(first, clock) && wheel.oldTime == now
    {
      hide *;
      WaitingKept({}, []);
      InTime(now);
      ghost var ticks := wheel.TicksBy(now);
      first := Waiting.Take(wheel, now, waiting);
      Taken(first);
      if ticks > 0 {
        AllFiring(first, clock);
      }
    }

    lemma AllFiring(first: seq<Entry>, clock: RuleCache -> int)
      requires forall d | d in waiting :: waiting[d] in first
      ensures Used(first, clock)
    {
    }

    lemma InTime(now: int)
      requires Timed({}, [], {})
      ensures 0 < wheel.tickTimeout && (wheel.TicksBy(now) == 0 ==> now - wheel.oldTime < IO_WAIT_TIMEOUT)
    {
    }

    lemma TickPassed(now: int)
      requires Valid() && now == wheel.oldTime + IO_WAIT_TIMEOUT
      ensures 0 < wheel.tickTimeout && wheel.TicksBy(now) == 1
    {
      hide cache.Valid;
    }

    twostate lemma Taken(new first: seq<Entry>)
      requires old(Timed({}, [], {})) && Waiting.Waits(wheel, {}, first, waiting)
      requires waiting == old(waiting) && kept == old(kept) && forall d | d in waiting :: unchanged(d)
      requires wheel.oldTime == old(wheel.oldTime) || forall d | d in waiting :: waiting[d] in first
      ensures Timed({}, first, {})
    {
    }

    /** The entries taken off the wheel, one after the other. */
    method FireAll(first: seq<Entry>, ghost moved: bool, clock: RuleCache -> int, grant: RuleCache -> bool)
      requires Sound() && Timed({}, first, {}) && (if moved then Used(first, clock) else first == [])
      requires moved ==> forall e | e in kept :: wheel.oldTime <= clock(e)
      modifies this`kept, this`waiting, cache, cache.nodes, wheel, wheel.entries, kept`tdata
      ensures Valid() && (moved ==> Used([], clock)) && wheel.oldTime == old(wheel.oldTime)
      ensures cache.nodes <= old(cache.nodes) && kept <= old(kept) && (!moved ==> kept == old(kept))
      ensures forall o | o in wheel.entries :: o in old(wheel.entries) || !old(allocated(o))
      ensures forall e | e in old(kept) && e !in kept :: clock(e) - e.upTime >= CACHE_TIMEOUT || !grant(e)
    {
      hide *;
      var k := 0;
      assert first[0..] == first;
      while k < |first|
        invariant 0 <= k <= |first| && Sound() && Timed({}, first[k..], {}) && (moved ==> Used(first[k..], clock))
        invariant wheel.oldTime == old(wheel.oldTime)
        invariant cache.nodes <= old(cache.nodes) && kept <= old(kept) && (!moved ==> kept == old(kept))
        invariant forall o | o in wheel.entries :: o in old(wheel.entries) || !old(allocated(o))
        invariant forall e | e in old(kept) && e !in kept :: clock(e) - e.upTime >= CACHE_TIMEOUT || !grant(e)
      {
        assert first[k..] == [first[k]] + first[k + 1..];
        FireNext(first[k], first[k + 1..], clock, grant);
        k := k + 1;
      }
      assert first[k..] == [];
      ValidIntro();
    }

    /** What is in the cache after a poll. */
    lemma NoneOverdue(now: int, moved: bool, clock: RuleCache -> int)
      requires Sound() && Timed({}, [], {}) && now - wheel.oldTime < IO_WAIT_TIMEOUT
      requires moved ==> Used([], clock)
      ensures forall a | a in cache.Contents ::
        && now - cache.Contents[a].upTime < CACHE_TIMEOUT + IO_WAIT_TIMEOUT
        && (moved ==> clock(cache.Contents[a]) - cache.Contents[a].upTime < CACHE_TIMEOUT)
    {
      hide CacheOk, Listed, Honest;
    }

    twostate lemma Survivors(new clock: RuleCache -> int, new grant: RuleCache -> bool)
      requires old(Sound()) && Sound() && kept <= old(kept) && forall e | e in old(kept) :: e.upTime == old(e.upTime)
      requires forall e | e in old(kept) && e !in kept :: clock(e) - e.upTime >= CACHE_TIMEOUT || !grant(e)
      ensures forall a | a in cache.Contents :: a in old(cache.Contents) && cache.Contents[a] == old(cache.Contents)[a]
      ensures forall a | a in old(cache.Contents) && a !in cache.Contents ::
        var e := old(cache.Contents)[a]; clock(e) - e.upTime >= CACHE_TIMEOUT || !grant(e)
      ensures kept == old(kept) ==> cache.Contents == old(cache.Contents)
    {
      hide CacheOk, Listed, Honest;
      assert forall a | a in cache.Contents :: cache.Contents[a] in old(kept);
      assert forall a | a in old(cache.Contents) :: old(cache.Contents)[a] in old(kept);
    }

    // ---------- stale verdicts ----------

    /** A cached verdict is the current one exactly when it already was an exception or no rule added
        since covers the address. */
    lemma StillCurrent(address: Address)
      requires Valid() && address in cache.Contents
      ensures cache.Contents[address].made <= |rules|
      ensures var e := cache.Contents[address];
        e.action == Verdict(action, rules, address) <==>
          Covered(rules[..e.made], address) || !Covered(rules[e.made..], address)
    {
      hide Covers, cache.Valid;
      var made := cache.Contents[address].made;
      if Covered(rules[..made], address) {
        var i :| 0 <= i < made && Covers(rules[..made][i], address);
        assert Covers(rules[i], address);
      }
      if Covered(rules[made..], address) {
        var i :| 0 <= i < |rules| - made && Covers(rules[made..][i], address);
        assert Covers(rules[made + i], address);
      }
      if Covered(rules, address) {
        var i :| 0 <= i < |rules| && Covers(rules[i], address);
        assert i < made ==> Covers(rules[..made][i], address);
        assert i >= made ==> Covers(rules[made..][i - made], address);
      }
    }
  }

  /** The verdict does not depend on the order of the rules or on how often one is given. */
  lemma OrderFree(action: Action, rules: seq<DstRule>, others: seq<DstRule>, address: Address)
    requires forall r | r in rules :: r in others
    requires forall r | r in others :: r in rules
    ensures Verdict(action, rules, address) == Verdict(action, others, address)
  {
    hide Covers;
    if Covered(rules, address) {
      var i :| 0 <= i < |rules| && Covers(rules[i], address);
      assert rules[i] in others;
    }
    if Covered(others, address) {
      var i :| 0 <= i < |others| && Covers(others[i], address);
      assert others[i] in rules;
    }
  }

  /** A rule whose prefix is too long for the family covers everything if its subnet is zero, and
      nothing otherwise. */
  lemma TooLong(r: DstRule, address: Address)
    requires |r.address| == |address| && r.prefix > 8 * |address|
    ensures Covers(r, address) <==> forall i | 0 <= i < |address| :: r.address[i] == 0
  {
    var zero := seq(|address|, _ => 0);
    forall i: nat | i < 8 * |address|
      ensures !BitAt(zero, i)
    {
      ZeroBits(7 - i % 8);
    }
    assert r.address == zero <==> forall i | 0 <= i < |address| :: r.address[i] == 0;
    if Covers(r, address) {
      SameAddress(r.address, zero);
    }
  }

  /** Without rules an address has been accepted, and that is cached. */
  method Accepted(a: Address) returns (r: SrcRule)
    requires |a| == 4
    ensures r.Valid() && r.width == 4 && r.action == ACCEPT && r.rules == [] && forall o | o in r.Repr() :: fresh(o)
    ensures r.wheel.size == WheelTicks() + 1 && r.wheel.oldTime == 0
    ensures a in r.cache.Contents && r.cache.Contents[a].action == ACCEPT && r.cache.Contents[a].upTime == 0
  {
    hide *;
    r := new SrcRule(4, ACCEPT, 0);
    r.Parts();
    r.OwnParts();
    assert forall o | o in r.Repr() :: fresh(o);
    NoRules(a);
    assert r.kept == {} && (forall o | o in r.wheel.emptyData :: fresh(o)) && forall o | o in r.cache.nodes :: fresh(o);
    var verdict := r.HandleRule(a, 0, Grants(true, true, 4));
    assert r.rules == [];
  }

  /** For any time there is a run in which a verdict is still answered from the cache that long after a
      rule against it was added: it is used between any two polls. */
  method StaleVerdict(n: nat) returns (r: SrcRule, verdict: Action)
    ensures r.Valid() && r.width == 4 && r.wheel.oldTime == 10 * n
    ensures verdict == ACCEPT && Verdict(r.action, r.rules, [10, 0, 0, 1]) == DROP
  {
    hide *;
    var a: Address := [10, 0, 0, 1];
    r := Accepted(a);
    verdict := ACCEPT;
    Sizes();
    r.OwnParts();
    r.HasNot(a, 32);
    var _ := r.AddDst(a, 32, true);
    Denied(r.rules, a);
    assert forall o | o in r.Repr() :: fresh(o);
    for k := 0 to n
      invariant r.Valid() && r.width == 4 && r.action == ACCEPT && forall o | o in r.Repr() :: fresh(o)
      invariant r.wheel.size == WheelTicks() + 1 && r.wheel.oldTime == 10 * k && verdict == ACCEPT
      invariant a in r.cache.Contents && r.cache.Contents[a].action == ACCEPT
        && r.cache.Contents[a].upTime == 10 * k
      invariant Verdict(r.action, r.rules, a) == DROP
    {
      verdict := PollAndUse(r, a, 10 * k + 10);
    }
  }

  /** A poll a tick after the last one, and a packet for the address. */
  method PollAndUse(r: SrcRule, address: Address, now: int) returns (verdict: Action)
    requires r.Valid() && |address| == r.width && now == r.wheel.oldTime + IO_WAIT_TIMEOUT && r.wheel.size > 1
    requires address in r.cache.Contents && r.cache.Contents[address].upTime == r.wheel.oldTime
    modifies r.Repr()
    ensures r.Valid() && r.wheel.oldTime == now && forall o | o in r.Repr() :: o in old(r.Repr()) || !old(allocated(o))
    ensures address in r.cache.Contents && r.cache.Contents[address].upTime == now
    ensures r.cache.Contents[address] == old(r.cache.Contents)[address] && verdict == r.cache.Contents[address].action
    ensures r.rules == old(r.rules)
  {
    hide *;
    Sizes();
    r.OwnParts();
    r.TickPassed(now);
    r.Handle(now, _ => now, _ => true);
    assert r.rules == old(r.rules);
    r.OwnParts();
    verdict := r.HandleRule(address, now, Grants(true, true, 4));
    assert r.rules == old(r.rules);
  }

  lemma NoRules(address: Address)
    ensures Verdict(ACCEPT, [], address) == ACCEPT
  {
  }

  lemma Denied(rules: seq<DstRule>, address: Address)
    requires |rules| == 1 && rules[0].address == address && |address| == 4 && rules[0].prefix == 32
    ensures Verdict(ACCEPT, rules, address) == DROP
  {
    assert Covers(rules[0], address);
  }
}
