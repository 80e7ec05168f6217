/** The IPv6 firewall of `ixc_syscore/router/src/ip6sec.c`: a record per pair of addresses that has
    talked from the LAN lets packets from the WAN in, until a time wheel ends it. */
module Ip6Sec {
  import opened Bytes
  import TrieMap
  import TimeWheel
  import Waiting

  type Key = TrieMap.Key
  type Entry = TimeWheel.TimeData<Info>

  const KEYSIZE := 32
  const TIMEOUT := 300
  const IO_WAIT_TIMEOUT := 10
  const ICMPV6 := 58

  /** What the allocator does for one new record. */
  datatype Grants = Grants(info: bool, entry: bool, nodes: nat)

  predicate Ample(g: Grants) {
    g.info && g.entry && g.nodes >= 32
  }

  function WheelTicks(): (n: nat)
    ensures n == 60
  {
    TIMEOUT * 2 / IO_WAIT_TIMEOUT
  }

  lemma Sizes()
    ensures ICMPV6 == 58 && KEYSIZE == 32 && IO_WAIT_TIMEOUT == 10 && TIMEOUT == 300
  {
  }

  class Info {
    var tdata: TimeWheel.TimeData?<Info>
    var upTime: int
    var key: Key

    constructor ()
      ensures tdata == null && upTime == 0
    {
      tdata, upTime, key := null, 0, [];
    }
  }

  class Firewall {
    const m: TrieMap.Map<Info>
    const wheel: TimeWheel.Wheel<Info>
    var enable: bool

    // the live records, and those that wait in the wheel
    ghost var infos: set<Info>
    ghost var waiting: Waiting.Owners<Info>

    // ---------- invariants ----------

    /** The trie holds exactly the live records, each under its own key. */
    ghost predicate Keyed()
      reads this`infos, m`Contents, infos`key
    {
      && (forall s | s in infos :: s.key in m.Contents && m.Contents[s.key] == s)
      && (forall k | k in m.Contents :: |k| == KEYSIZE && m.Contents[k] in infos && m.Contents[k].key == k)
    }

    /** All records wait, but for `off`: in the wheel, or in the list `rest` that is being fired, and
        those in the wheel were not overdue when it last moved. */
    ghost predicate Timed(loose: set<Entry>, rest: seq<Entry>, off: set<Info>)
      reads this`infos, this`waiting, wheel, wheel.entries, rest, waiting.Keys`tdata, waiting.Keys`upTime
    {
      && wheel.tickTimeout == IO_WAIT_TIMEOUT && Waiting.Waits(wheel, loose, rest, waiting)
      && off <= infos && waiting.Keys == infos - off
      && forall s | s in waiting ::
        s.tdata == waiting[s] && (waiting[s] !in rest ==> wheel.oldTime - s.upTime <= TIMEOUT)
    }

    ghost predicate TrieOk()
      reads m, m.nodes
    {
      m.Valid() && m.length == KEYSIZE
    }

    ghost predicate Sound()
      reads this`infos, m, m.nodes, infos`key
    {
      TrieOk() && Keyed()
    }

    ghost predicate Valid()
      reads this, m, m.nodes, wheel, wheel.entries, infos, waiting.Keys
    {
      Sound() && Timed({}, [], {})
    }

    ghost function Repr(): set<object>
      reads this`infos, m`nodes, wheel`entries
    {
      {this, m, wheel} + m.nodes + wheel.entries + infos
    }

    constructor (now: int)
      ensures Valid() && infos == {} && wheel.oldTime == now && !enable
    {
      hide *;
      Sizes();
      m := new TrieMap.Map<Info>(KEYSIZE);
      wheel := new TimeWheel.Wheel<Info>(WheelTicks(), IO_WAIT_TIMEOUT, 512, now);
      enable, infos, waiting := false, {}, map[];
      new;
      StartsValid();
    }

    lemma StartsValid()
      requires infos == {} && waiting == map[] && m.Valid() && m.length == KEYSIZE && m.Contents == map[]
      requires wheel.Valid() && wheel.tickTimeout == IO_WAIT_TIMEOUT && wheel.Armed() == []
      ensures Valid()
    {
      hide m.Valid;
      Waiting.Starts(wheel);
    }

    // ---------- a packet ----------

    /** The two addresses, the LAN's first. */
    function KeyOf(src: seq<Byte>, dst: seq<Byte>, fromLan: bool): (k: Key)
      ensures |k| == |src| + |dst|
    {
      if fromLan then src + dst else dst + src
    }

    /** Two packets share a record exactly when they are of one pair: the same way, or the one an
        answer to the other. */
    lemma OnePair(src: seq<Byte>, dst: seq<Byte>, fromLan: bool, src2: seq<Byte>, dst2: seq<Byte>, fromLan2: bool)
      requires |src| == |dst| == |src2| == |dst2| == 16
      ensures KeyOf(src, dst, fromLan) == KeyOf(src2, dst2, fromLan2) <==>
        if fromLan == fromLan2 then src == src2 && dst == dst2 else src == dst2 && dst == src2
    {
      var k, l := KeyOf(src, dst, fromLan), KeyOf(src2, dst2, fromLan2);
      assert k[..16] == (if fromLan then src else dst) && k[16..] == if fromLan then dst else src;
      assert l[..16] == (if fromLan2 then src2 else dst2) && l[16..] == if fromLan2 then dst2 else src2;
    }

    /** `ixc_ip6sec_check_ok`: from the WAN only what has a record comes in; a packet from the LAN
        makes the record if need be, makes it young, and always leaves given memory. */
    method CheckOk(src: seq<Byte>, dst: seq<Byte>, nextHeader: Byte, fromLan: bool, now: int, g: Grants)
      returns (ok: bool)
      requires Valid() && |src| == |dst| == 16 && wheel.oldTime <= now
      modifies Repr()
      ensures Valid() && enable == old(enable) && wheel.oldTime == old(wheel.oldTime)
      ensures forall o | o in Repr() :: o in old(Repr()) || !old(allocated(o))
      ensures !enable || nextHeader == ICMPV6 ==> ok && Same()
      ensures enable && nextHeader != ICMPV6 && !fromLan ==> Same() && (ok <==> dst + src in m.Contents)
      ensures enable && nextHeader != ICMPV6 && fromLan ==> if ok then Recorded(src + dst, now) else Same() && !Ample(g)
      ensures enable && nextHeader != 58 && fromLan && ok ==>
        src + dst in m.Contents && m.Contents[src + dst].upTime == now
      ensures m.Contents.Keys == old(m.Contents).Keys
        + if enable && nextHeader != 58 && fromLan && ok then {src + dst} else {}
      ensures forall k | k in old(m.Contents) && (!enable || nextHeader == 58 || !fromLan || k != src + dst) ::
        m.Contents[k] == old(m.Contents)[k] && m.Contents[k].upTime == old(m.Contents[k].upTime)
    {
      hide *;
      Sizes();
      KeyedElim();
      if !enable || nextHeader == ICMPV6 {
        SameIntro();
        SameElim();
        return true;
      }
      OwnParts();
      var key := KeyOf(src, dst, fromLan);
      KeyIs(src, dst, fromLan);
      if !fromLan {
        var s := LookUp(key);
        SameIntro();
        SameElim();
        return s != null;
      }
      ok := Remember(key, now, g);
      KeyedElim();
      if ok {
        RecordedElim(key, now);
      } else {
        SameElim();
      }
    }

    /** The record of a packet from the LAN. */
    method Remember(key: Key, now: int, g: Grants) returns (ok: bool)
      requires Valid() && |key| == KEYSIZE && wheel.oldTime <= now
      modifies this`infos, this`waiting, m, m.nodes, wheel, wheel.emptyData, infos`upTime
      ensures Valid() && wheel.oldTime == old(wheel.oldTime)
      ensures forall o | o in Repr() :: o in old(Repr()) || !old(allocated(o))
      ensures if ok then Recorded(key, now) else Same() && !Ample(g)
    {
      hide *;
      var s := LookUp(key);
      if s != null {
        Refresh(key, s, now);
        RecordedIntro(key, s);
        return true;
      }
      s := AddInfo(key, now, g);
      ok := s != null;
      assert forall r | r in old(infos) :: r != s && r in infos && r.upTime == old(r.upTime);
      if ok { RecordedIntro(key, s); } else { SameIntro(); }
    }

    /** The same records, each as young as it was. */
    twostate predicate Same()
      reads this`infos, m`Contents, infos`upTime
    {
      infos == old(infos) && m.Contents == old(m.Contents) && forall r | r in infos :: r.upTime == old(r.upTime)
    }

    /** This pair has a record as young as can be; everything else is as it was. */
    twostate predicate Recorded(new key: Key, new now: int)
      reads this`infos, m`Contents, infos`upTime, m.Contents.Values`upTime
    {
      && key in m.Contents && m.Contents[key].upTime == now && m.Contents == old(m.Contents)[key := m.Contents[key]]
      && (key in old(m.Contents) ==> m.Contents[key] == old(m.Contents)[key])
      && forall r | r in old(infos) && r != m.Contents[key] :: r in infos && r.upTime == old(r.upTime)
    }

    twostate lemma SameIntro()
      requires infos == old(infos) && m.Contents == old(m.Contents) && forall r | r in infos ::
        r.upTime == old(r.upTime)
      ensures Same()
    {
    }

    lemma KeyedElim()
      requires Valid()
      ensures Keyed()
    {
    }

    twostate lemma SameElim()
      requires old(Keyed()) && Same()
      ensures m.Contents == old(m.Contents) && forall k | k in m.Contents ::
        m.Contents[k].upTime == old(m.Contents[k].upTime)
    {
    }

    twostate lemma RecordedElim(new key: Key, new now: int)
      requires old(Keyed()) && Keyed() && Recorded(key, now)
      ensures key in m.Contents && m.Contents[key].upTime == now
      ensures m.Contents.Keys == old(m.Contents).Keys + {key}
      ensures forall k | k in old(m.Contents) && k != key ::
        m.Contents[k] == old(m.Contents)[k] && m.Contents[k].upTime == old(m.Contents[k].upTime)
    {
      forall k | k in old(m.Contents) && k != key
        ensures m.Contents[k] != m.Contents[key] && m.Contents[k] == old(m.Contents)[k] && m.Contents[k] in old(infos)
      {
        assert m.Contents[k].key == k && m.Contents[key].key == key;
      }
    }

    twostate lemma RecordedIntro(new key: Key, new s: Info)
      requires key in m.Contents && m.Contents[key] == s
      requires m.Contents == old(m.Contents) || m.Contents == old(m.Contents)[key := s]
      requires key in old(m.Contents) ==> old(m.Contents)[key] == s
      requires forall r | r in old(infos) && r != s :: r in infos && r.upTime == old(r.upTime)
      ensures Recorded(key, s.upTime)
    {
    }

    lemma KeyIs(src: seq<Byte>, dst: seq<Byte>, fromLan: bool)
      requires |src| == |dst| == 16
      ensures KeyOf(src, dst, fromLan) == (if fromLan then src + dst else dst + src)
        && |KeyOf(src, dst, fromLan)| == KEYSIZE
    {
    }

    lemma ValidElim()
      requires Valid()
      ensures Sound() && TrieOk() && Timed({}, [], {}) && Waiting.Waits(wheel, {}, [], waiting)
      ensures forall e | e in wheel.emptyData :: e in wheel.entries
    {
    }

    lemma ValidIntro()
      requires Sound() && Timed({}, [], {})
      ensures Valid()
    {
    }

    method LookUp(key: Key) returns (s: Info?)
      requires Valid() && |key| == KEYSIZE
      ensures s == null <==> key !in m.Contents
      ensures s != null ==> m.Contents[key] == s && s in infos
    {
      hide *;
      ValidElim();
      TrieElim();
      var found, isFound := m.Find(key);
      s := null;
      if isFound {
        s := found.value;
        Known(key);
      }
    }

    lemma Known(key: Key)
      requires Sound() && key in m.Contents
      ensures m.Contents[key] in infos
    {
    }

    lemma OwnParts()
      requires Valid()
      ensures {this, m, wheel} <= Repr() && m.nodes <= Repr() && wheel.entries <= Repr() && infos <= Repr()
      ensures forall e | e in wheel.emptyData :: e in wheel.entries
    {
      ValidElim();
    }

    twostate lemma Grows(s: object?)
      requires forall o | o in infos :: o in old(infos) || o == s || !old(allocated(o))
      requires forall o | o in m.nodes :: o in old(m.nodes) || !old(allocated(o))
      requires forall o | o in wheel.entries :: o in old(wheel.entries) || !old(allocated(o))
      ensures forall o | o in Repr() :: o in old(Repr()) || o == s || !old(allocated(o))
    {
    }

    /** `ixc_ip6sec_add`, as its caller uses it. */
    method AddInfo(key: Key, now: int, g: Grants) returns (s: Info?)
      requires Valid() && |key| == KEYSIZE && key !in m.Contents && wheel.oldTime <= now
      modifies this`infos, this`waiting, m, m.nodes, wheel, wheel.emptyData
      ensures Valid() && wheel.oldTime == old(wheel.oldTime)
      ensures forall o | o in Repr() :: o in old(Repr()) || !old(allocated(o))
      ensures if s != null then fresh(s) && s.upTime == now && infos == old(infos) + {s}
        && m.Contents == old(m.Contents)[key := s]
              else m.Contents == old(m.Contents) && infos == old(infos) && !Ample(g)
    {
      hide *;
      if Ample(g) { AmpleElim(g); }
      if !g.info { return null; }
      s := new Info();
      assert Repr() == old(Repr());
      var ok := Bring(key, s, now, g);
      if !ok {
        s := null;
      }
    }

    /** The trie first, then the wheel; if that fails the trie is told to forget. */
    method Bring(key: Key, s: Info, now: int, g: Grants) returns (ok: bool)
      requires Valid() && s !in infos && |key| == KEYSIZE && key !in m.Contents && wheel.oldTime <= now
      modifies m, m.nodes, wheel, wheel.emptyData, s, this`infos, this`waiting
      ensures Valid() && wheel.oldTime == old(wheel.oldTime)
      ensures forall o | o in Repr() :: o in old(Repr()) || o == s || !old(allocated(o))
      ensures infos == (if ok then old(infos) + {s} else old(infos)) && (ok ==> s.upTime == now)
      ensures m.Contents == if ok then old(m.Contents)[key := s] else old(m.Contents)
      ensures g.entry && g.nodes >= KEYSIZE ==> ok
    {
      hide *;
      ValidElim();
      Undone(m.Contents, key, s);
      var rs := TrieAdd(key, s, g.nodes);
      assert Timed({}, [], {});
      ok := rs == 0;
      if ok {
        ok := Await(s, key, now, g.entry);
        if !ok {
          TrieDel(key);
          assert Timed({}, [], {});
        }
      }
      Entered(s);
      Grows(s);
      ValidIntro();
    }

    /** The new record begins to wait, and is filled in, unless there is no memory. */
    method Await(s: Info, key: Key, now: int, grant: bool) returns (ok: bool)
      requires TrieOk() && Timed({}, [], {}) && s !in infos && wheel.oldTime <= now
      modifies wheel, wheel.emptyData, s, this`infos, this`waiting
      ensures TrieOk() && Timed({}, [], {}) && wheel.oldTime == old(wheel.oldTime) && (grant ==> ok)
      ensures infos == if ok then old(infos) + {s} else old(infos)
      ensures ok ==> s.key == key && s.upTime == now
      ensures forall o | o in wheel.entries :: o in old(wheel.entries) || !old(allocated(o))
    {
      hide *;
      Sizes();
      NotWaiting(s);
      var tdata := Waiting.Arm(wheel, s, IO_WAIT_TIMEOUT, grant, {}, [], waiting);
      ok := tdata != null;
      if ok {
        s.tdata, s.key, s.upTime := tdata, key, now;
        infos, waiting := infos + {s}, waiting[s := tdata];
        Awaited(s);
      } else {
        Recycled({}, []);
      }
    }

    lemma Undone(contents: map<Key, Info>, key: Key, s: Info)
      requires key !in contents
      ensures contents[key := s] - {key} == contents
    {
    }

    lemma NotWaiting(s: Info)
      requires Timed({}, [], {}) && s !in infos
      ensures wheel.tickTimeout == IO_WAIT_TIMEOUT && s !in waiting && Waiting.Waits(wheel, {}, [], waiting)
    {
    }

    twostate lemma Awaited(s: Info)
      requires old(Timed({}, [], {})) && Waiting.Waits(wheel, {}, [], waiting) && s !in old(infos) && s.tdata != null
      requires infos == old(infos) + {s} && waiting == old(waiting)[s := s.tdata]
      requires wheel.oldTime == old(wheel.oldTime) <= s.upTime && forall r | r in old(infos) :: unchanged(r)
      ensures Timed({}, [], {})
    {
      hide Waiting.Waits;
    }

    /** The trie holds the new record, too, or neither does. */
    twostate lemma Entered(s: Info)
      requires old(Sound()) && TrieOk() && s !in old(infos) && forall r | r in old(infos) :: r.key == old(r.key)
      requires infos == old(infos) || infos == old(infos) + {s}
      requires infos == old(infos) ==> m.Contents == old(m.Contents)
      requires infos == old(infos) + {s} ==>
        |s.key| == KEYSIZE && s.key !in old(m.Contents) && m.Contents == old(m.Contents)[s.key := s]
      ensures Sound()
    {
      hide TrieOk;
    }

    method TrieAdd(key: Key, s: Info, avail: nat) returns (rs: int)
      requires TrieOk() && |key| == KEYSIZE
      modifies m, m.nodes
      ensures TrieOk() && forall o | o in m.nodes :: o in old(m.nodes) || !old(allocated(o))
      ensures m.Contents == if rs == 0 then old(m.Contents)[key := s] else old(m.Contents)
      ensures key !in old(m.Contents) && avail >= KEYSIZE ==> rs == 0
    {
      hide *;
      TrieElim();
      TrieMap.MissingBound(m.tree, key, 0);
      rs := m.Add(key, s, avail);
      TrieIntro();
    }

    method TrieDel(key: Key)
      requires TrieOk() && |key| == KEYSIZE
      modifies m, m.nodes
      ensures TrieOk() && m.nodes <= old(m.nodes) && m.Contents == old(m.Contents) - {key}
    {
      hide *;
      TrieElim();
      var _ := m.Del(key);
      TrieIntro();
    }

    lemma TrieElim()
      requires TrieOk()
      ensures m.Valid() && m.length == KEYSIZE
    {
    }

    lemma TrieIntro()
      requires m.Valid() && m.length == KEYSIZE
      ensures TrieOk()
    {
    }

    lemma AmpleElim(g: Grants)
      requires Ample(g)
      ensures g.info && g.entry && g.nodes >= KEYSIZE
    {
    }

    /** The record of a LAN packet becomes young. */
    method Refresh(key: Key, s: Info, now: int)
      requires Valid() && s in infos && wheel.oldTime <= now
      modifies s`upTime
      ensures Valid() && s.upTime == now
    {
      hide *;
      ValidElim();
      s.upTime := now;
      Young(s);
      ValidIntro();
    }

    twostate lemma Young(s: Info)
      requires old(Timed({}, [], {})) && infos == old(infos) && waiting == old(waiting)
      requires Waiting.Waits(wheel, {}, [], waiting) && wheel.oldTime == old(wheel.oldTime) <= s.upTime
      requires s.tdata == old(s.tdata) && forall r | r in infos && r != s :: unchanged(r)
      ensures Timed({}, [], {})
    {
      hide Waiting.Waits;
    }

    // ---------- the wheel ----------

    /** `ixc_ip6sec_timeout_cb`: an idle record ends, any other arms the wheel again; if that fails it
        ends too. */
    method TimeoutCb(s: Info, now: int, grant: bool, ghost loose: set<Entry>, ghost rest: seq<Entry>)
      requires Sound() && Timed(loose, rest, {s}) && wheel.oldTime <= now && s.tdata != null && s.tdata in loose
      modifies this`infos, this`waiting, m, m.nodes, wheel, wheel.emptyData, s`tdata, loose`isDeleted
      ensures Sound() && Timed(loose, rest, {}) && wheel.oldTime == old(wheel.oldTime)
      ensures m.nodes <= old(m.nodes)
        && forall o | o in wheel.entries :: o in old(wheel.entries) || !old(allocated(o))
      ensures infos == if s in infos then old(infos) else old(infos) - {s}
      ensures if s in infos then now - s.upTime <= TIMEOUT else now - s.upTime > TIMEOUT || !grant
      ensures forall r | r in waiting && waiting[r] !in rest ::
        r == s || (r in old(waiting) && old(waiting)[r] !in rest)
    {
      hide *;
      OffElim(loose, rest, s);
      if now - s.upTime > TIMEOUT {
        End(s, loose, rest);
        return;
      }
      var tdata := Waiting.Arm(wheel, s, IO_WAIT_TIMEOUT, grant, loose, rest, waiting);
      assert Sound();
      if tdata == null {
        StillOff(s, loose, rest);
        End(s, loose, rest);
        return;
      }
      s.tdata := tdata;
      waiting := waiting[s := tdata];
      Rearmed(s, loose, rest);
    }

    lemma OffElim(loose: set<Entry>, rest: seq<Entry>, s: Info)
      requires Timed(loose, rest, {s})
      ensures Waiting.Waits(wheel, loose, rest, waiting) && wheel.tickTimeout == IO_WAIT_TIMEOUT == 10
      ensures s in infos && s !in waiting
    {
    }

    twostate lemma Rearmed(s: Info, new loose: set<Entry>, new rest: seq<Entry>)
      requires old(allocated(loose)) && old(allocated(rest)) && old(Timed(loose, rest, {s}))
      requires s.tdata != null && Waiting.Waits(wheel, loose, rest, waiting)
      requires waiting == old(waiting)[s := s.tdata] && infos == old(infos) && wheel.oldTime == old(wheel.oldTime)
      requires wheel.oldTime - s.upTime <= TIMEOUT && forall r | r in infos && r != s :: unchanged(r)
      ensures Timed(loose, rest, {})
      ensures forall r | r in waiting && waiting[r] !in rest ::
        r == s || (r in old(waiting) && old(waiting)[r] !in rest)
    {
      hide Waiting.Waits;
    }

    twostate lemma StillOff(s: Info, new loose: set<Entry>, new rest: seq<Entry>)
      requires old(allocated(loose)) && old(allocated(rest)) && old(Timed(loose, rest, {s}))
      requires Waiting.Waits(wheel, loose, rest, waiting) && wheel.oldTime == old(wheel.oldTime)
      requires waiting == old(waiting) && infos == old(infos) && forall r | r in infos :: unchanged(r)
      ensures Timed(loose, rest, {s})
    {
      hide Waiting.Waits;
    }

    /** `map_del` with `ixc_ip6sec_del_cb`: the record goes, and the wheel entry is marked. */
    method End(s: Info, ghost loose: set<Entry>, ghost rest: seq<Entry>)
      requires Sound() && Timed(loose, rest, {s}) && s.tdata != null && s.tdata in loose
      modifies this`infos, m, m.nodes, loose`isDeleted
      ensures Sound() && Timed(loose, rest, {}) && m.nodes <= old(m.nodes) && infos == old(infos) - {s}
    {
      hide *;
      OffElim(loose, rest, s);
      InTrie(s);
      TrieDel(s.key);
      infos := infos - {s};
      Forgotten(s);
      assert Waiting.Waits(wheel, loose, rest, waiting);
      Waiting.CancelLoose(wheel, s.tdata, loose, rest, waiting);
      OffLess(loose, rest, s);
    }

    lemma InTrie(s: Info)
      requires Sound() && s in infos
      ensures TrieOk() && |s.key| == KEYSIZE
    {
    }

    twostate lemma Forgotten(s: Info)
      requires old(Sound()) && TrieOk() && s in old(infos) && infos == old(infos) - {s}
      requires m.Contents == old(m.Contents) - {s.key} && forall r | r in old(infos) :: r.key == old(r.key)
      ensures Sound()
    {
      hide TrieOk;
    }

    twostate lemma OffLess(new loose: set<Entry>, new rest: seq<Entry>, s: Info)
      requires old(allocated(loose)) && old(allocated(rest)) && old(Timed(loose, rest, {s}))
      requires infos == old(infos) - {s} && waiting == old(waiting) && wheel.oldTime == old(wheel.oldTime)
      requires Waiting.Waits(wheel, loose, rest, waiting) && forall r | r in waiting :: unchanged(r)
      ensures Timed(loose, rest, {})
    {
      hide Waiting.Waits;
    }

    /** No record that waits in the wheel is overdue by its callback's clock. */
    ghost predicate Recent(rest: seq<Entry>, clock: Info -> int)
      reads this`waiting, waiting.Keys`upTime
    {
      forall s | s in waiting && waiting[s] !in rest :: clock(s) - s.upTime <= TIMEOUT
    }

    /** One turn of `time_wheel_timeout` with this callback. */
    method FireNext(e: Entry, ghost rest: seq<Entry>, clock: Info -> int, grant: Info -> bool)
      requires Sound() && Timed({}, [e] + rest, {}) && Recent([e] + rest, clock)
      requires forall s | s in infos :: wheel.oldTime <= clock(s)
      modifies this`infos, this`waiting, m, m.nodes, wheel, wheel.entries, infos`tdata
      ensures Sound() && Timed({}, rest, {}) && Recent(rest, clock)
      ensures wheel.oldTime == old(wheel.oldTime) && m.nodes <= old(m.nodes) && infos <= old(infos)
      ensures forall o | o in wheel.entries :: o in old(wheel.entries) || !old(allocated(o))
      ensures forall s | s in old(infos) && s !in infos :: clock(s) - s.upTime > TIMEOUT || !grant(s)
    {
      hide *;
      Head(e, rest, clock);
      if !e.isDeleted {
        var s := e.data.value;
        waiting := waiting - {s};
        OffOne(e, rest, s, clock);
        label Fired:
        TimeoutCb(s, clock(s), grant(s), {e}, rest);
        AllWait({e}, rest);
        RecentTail@Fired(s, rest, clock);
      }
      Recycle(e, rest);
    }

    /** The entry to be fired next; whose it is, unless it is marked. */
    lemma Head(e: Entry, rest: seq<Entry>, clock: Info -> int)
      requires Timed({}, [e] + rest, {}) && Recent([e] + rest, clock)
      ensures e in wheel.entries && forall l | l in wheel.emptyData :: l in wheel.entries
      ensures e.isDeleted ==> Timed({e}, rest, {}) && Recent(rest, clock)
      ensures !e.isDeleted ==>
        && e.data.Some? && e.data.value in infos && e.data.value.tdata == e
        && Waiting.Waits(wheel, {e}, rest, waiting - {e.data.value})
    {
      hide Waiting.Waits;
      Waiting.Head(wheel, e, rest, waiting);
      Waiting.Lists(wheel, {}, [e] + rest, waiting);
      Waiting.WaitsElim(wheel, {}, [e] + rest, waiting);
      assert forall l :: l in [e] + rest <==> l == e || l in rest;
    }

    twostate lemma OffOne(e: Entry, new rest: seq<Entry>, new s: Info, new clock: Info -> int)
      requires old(allocated(rest)) && old(allocated(s)) && old(allocated(clock))
      requires old(Timed({}, [e] + rest, {})) && old(Recent([e] + rest, clock)) && !e.isDeleted && e.data == Some(s)
      requires Waiting.Waits(wheel, {e}, rest, waiting) && s in infos
      requires waiting == old(waiting) - {s} && infos == old(infos) && unchanged(wheel) && unchanged(e)
      requires forall r | r in old(waiting) :: unchanged(r)
      ensures Timed({e}, rest, {s}) && Recent(rest, clock)
    {
      hide TimeWheel.Wheel<Info>.Valid;
      Waiting.Lists(wheel, {e}, rest, waiting);
      assert forall l :: l in [e] + rest <==> l == e || l in rest;
    }

    twostate lemma RecentTail(s: Info, new rest: seq<Entry>, new clock: Info -> int)
      requires old(allocated(rest)) && old(allocated(clock)) && old(Recent(rest, clock))
      requires s in waiting ==> clock(s) - s.upTime <= TIMEOUT
      requires forall r | r in waiting && waiting[r] !in rest ::
        r == s || (r in old(waiting) && old(waiting)[r] !in rest)
      requires forall r | r in old(waiting) :: r.upTime == old(r.upTime)
      ensures Recent(rest, clock)
    {
    }

    lemma AllWait(loose: set<Entry>, rest: seq<Entry>)
      requires Timed(loose, rest, {})
      ensures waiting.Keys == infos && Waiting.Waits(wheel, loose, rest, waiting)
    {
    }

    /** After its callback the wheel entry is marked and given back. */
    method Recycle(e: Entry, ghost rest: seq<Entry>)
      requires Timed({e}, rest, {})
      modifies wheel`emptyData, wheel`curDataNum, wheel`entries, e
      ensures Timed({}, rest, {}) && wheel.entries <= old(wheel.entries)
    {
      hide *;
      AllWait({e}, rest);
      Waiting.Recycle(wheel, e, rest, waiting);
      Recycled({e}, rest);
    }

    twostate lemma Recycled(new loose: set<Entry>, new rest: seq<Entry>)
      requires old(allocated(loose)) && old(allocated(rest)) && old(Timed(loose, rest, {}))
      requires Waiting.Waits(wheel, {}, rest, waiting) && waiting == old(waiting) && infos == old(infos)
      requires wheel.oldTime == old(wheel.oldTime) && forall r | r in waiting :: unchanged(r)
      ensures Timed({}, rest, {})
    {
      hide Waiting.Waits;
    }

    /** `time_wheel_handle` on this wheel, polled before a full turn has passed. `clock` is what each
        callback reads, `grant` whether it gets memory. No record ends while its last packet from the
        LAN is within the timeout (unless it could not be armed again), and none outlives a poll once
        it is overdue by a tick. */
    method Handle(now: int, clock: Info -> int, grant: Info -> bool)
      requires Valid() && wheel.TicksBy(now) < wheel.size
      requires forall s | s in infos :: now <= clock(s)
      modifies this`infos, this`waiting, m, m.nodes, wheel, wheel.entries, infos`tdata
      ensures Valid() && infos <= old(infos) && enable == old(enable)
      ensures forall o | o in Repr() :: o in old(Repr()) || !old(allocated(o))
      ensures forall s | s in old(infos) && s !in infos :: clock(s) - s.upTime > TIMEOUT || !grant(s)
      ensures forall s | s in infos :: now - s.upTime < TIMEOUT + IO_WAIT_TIMEOUT
      ensures old(wheel.TicksBy(now)) == 0 ==> infos == old(infos)
      ensures old(wheel.TicksBy(now)) > 0 ==> forall s | s in infos :: clock(s) - s.upTime <= TIMEOUT
    {
      hide *;
      ValidElim();
      Sizes();
      ghost var ticks := wheel.TicksBy(now);
      var first := Take(now, clock);
      FireAll(first, ticks > 0, clock, grant);
      Grows(null);
      ValidElim();
      NoneOverdue(now, ticks > 0, clock);
    }

    /** Move the wheel and take what it leaves behind. */
    method Take(now: int, ghost clock: Info -> int) returns (first: seq<Entry>)
      requires Sound() && Timed({}, [], {}) && wheel.TicksBy(now) < wheel.size
      modifies wheel`oldTime, wheel`curTick, wheel`ticks
      ensures Sound() && Timed({}, first, {}) && now - wheel.oldTime < IO_WAIT_TIMEOUT
      ensures old(wheel.TicksBy(now)) == 0 ==> first == []
      ensures old(wheel.TicksBy(now)) > 0 ==> Recent(first, clock) && wheel.oldTime == now
    {
      hide *;
      AllWait({}, []);
      InTime(now);
      ghost var ticks := wheel.TicksBy(now);
      first := Waiting.Take(wheel, now, waiting);
      Taken(first);
      if ticks > 0 {
        AllFiring(first, clock);
      }
    }

    lemma AllFiring(first: seq<Entry>, clock: Info -> int)
      requires forall s | s in waiting :: waiting[s] in first
      ensures Recent(first, clock)
    {
    }

    lemma InTime(now: int)
      requires Timed({}, [], {})
      ensures 0 < wheel.tickTimeout == IO_WAIT_TIMEOUT == 10
        && (wheel.TicksBy(now) == 0 ==> now - wheel.oldTime < IO_WAIT_TIMEOUT)
    {
    }

    twostate lemma Taken(new first: seq<Entry>)
      requires old(Timed({}, [], {})) && Waiting.Waits(wheel, {}, first, waiting)
      requires waiting == old(waiting) && infos == old(infos) && forall s | s in waiting :: unchanged(s)
      requires wheel.oldTime == old(wheel.oldTime) || forall s | s in waiting :: waiting[s] in first
      ensures Timed({}, first, {})
    {
      hide Waiting.Waits;
    }

    /** The entries taken off the wheel, one after the other. */
    method FireAll(first: seq<Entry>, ghost moved: bool, clock: Info -> int, grant: Info -> bool)
      requires Sound() && Timed({}, first, {}) && (if moved then Recent(first, clock) else first == [])
      requires moved ==> forall s | s in infos :: wheel.oldTime <= clock(s)
      modifies this`infos, this`waiting, m, m.nodes, wheel, wheel.entries, infos`tdata
      ensures Valid() && (moved ==> Recent([], clock)) && wheel.oldTime == old(wheel.oldTime)
      ensures m.nodes <= old(m.nodes) && infos <= old(infos) && (!moved ==> infos == old(infos))
      ensures forall o | o in wheel.entries :: o in old(wheel.entries) || !old(allocated(o))
      ensures forall s | s in old(infos) && s !in infos :: clock(s) - s.upTime > TIMEOUT || !grant(s)
    {
      hide *;
      var k := 0;
      assert first[0..] == first;
      while k < |first|
        invariant 0 <= k <= |first| && Sound() && Timed({}, first[k..], {}) && (moved ==> Recent(first[k..], clock))
        invariant wheel.oldTime == old(wheel.oldTime)
        invariant m.nodes <= old(m.nodes) && infos <= old(infos) && (!moved ==> infos == old(infos))
        invariant forall o | o in wheel.entries :: o in old(wheel.entries) || !old(allocated(o))
        invariant forall s | s in old(infos) && s !in infos :: clock(s) - s.upTime > TIMEOUT || !grant(s)
      {
        assert first[k..] == [first[k]] + first[k + 1..];
        FireNext(first[k], first[k + 1..], clock, grant);
        k := k + 1;
      }
      assert first[k..] == [];
      ValidIntro();
    }

    /** What is in the table after a poll. */
    lemma NoneOverdue(now: int, moved: bool, clock: Info -> int)
      requires Timed({}, [], {}) && now - wheel.oldTime < IO_WAIT_TIMEOUT
      requires moved ==> Recent([], clock)
      ensures forall s | s in infos ::
        now - s.upTime < TIMEOUT + IO_WAIT_TIMEOUT && (moved ==> clock(s) - s.upTime <= TIMEOUT)
    {
    }
  }
}
