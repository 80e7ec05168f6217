/** The session table of `ixc_syscore/router/src/nat.c`: two tries that must mirror each other,
    three ID sets, and a time wheel that ends sessions. */
module Nat {
  import opened Bytes
  import TrieMap
  import NatIds
  import TimeWheel

  type Key = TrieMap.Key

  const ICMP := 1
  const TCP := 6
  const UDP := 17
  const UDP_LITE := 136

  const MIN_TIMEOUT := 10
  const TIMEOUT := 180
  const IO_WAIT_TIMEOUT := 10

  /** The size of the wheel and of its ticks, as `ixc_nat_init` sets them. */
  function WheelTicks(): (n: nat)
    ensures n == 36
  {
    TIMEOUT * 2 / IO_WAIT_TIMEOUT
  }

  function TickTimeout(): (n: nat)
    ensures n == IO_WAIT_TIMEOUT && 0 < n
  {
    IO_WAIT_TIMEOUT
  }

  predicate Supported(protocol: Byte) {
    protocol == ICMP || protocol == TCP || protocol == UDP || protocol == UDP_LITE
  }

  /** The bytes of a word in memory order. */
  function WordBytes(w: Word): (s: seq<Byte>)
    ensures |s| == 2
  {
    [w % 0x100, w / 0x100]
  }

  function LanKey(addr: (Word, Word), protocol: Byte, id: Word): (k: Key)
    ensures |k| == 7
  {
    WordBytes(addr.0) + WordBytes(addr.1) + [protocol] + WordBytes(id)
  }

  function WanKey(protocol: Byte, id: Word): (k: Key)
    ensures |k| == 3
  {
    [protocol] + WordBytes(id)
  }

  lemma WordBytesInjective(v: Word, w: Word)
    ensures WordBytes(v) == WordBytes(w) ==> v == w
  {
    var a, b := WordBytes(v), WordBytes(w);
    assert v as int == a[0] as int + 0x100 * a[1] as int;
    assert w as int == b[0] as int + 0x100 * b[1] as int;
  }

  lemma SwapInjective(v: Word, w: Word)
    ensures Swap(v) == Swap(w) ==> v == w
  {
    var a: int, b: int := Swap(v), Swap(w);
    assert a / 0x100 == v % 0x100 && a % 0x100 == v / 0x100;
    assert b / 0x100 == w % 0x100 && b % 0x100 == w / 0x100;
  }

  lemma SwapBack(v: Word)
    ensures Swap(v) % 0x100 * 0x100 + Swap(v) / 0x100 == v
  {
    var w: int := Swap(v);
    assert w / 0x100 == v % 0x100 && w % 0x100 == v / 0x100;
  }

  lemma WanKeyInjective(p: Byte, v: Word, q: Byte, w: Word)
    ensures WanKey(p, v) == WanKey(q, w) ==> p == q && v == w
  {
    var a, b := WanKey(p, v), WanKey(q, w);
    if a == b {
      assert a[0] == b[0] && a[1..] == WordBytes(v) && b[1..] == WordBytes(w);
      WordBytesInjective(v, w);
    }
  }

  lemma LanKeyInjective(a: (Word, Word), p: Byte, v: Word, b: (Word, Word), q: Byte, w: Word)
    ensures LanKey(a, p, v) == LanKey(b, q, w) ==> a == b && p == q && v == w
  {
    hide WordBytes, LanKey;
    LanKeyParts(a, p, v);
    LanKeyParts(b, q, w);
    WordBytesInjective(a.0, b.0);
    WordBytesInjective(a.1, b.1);
    WordBytesInjective(v, w);
  }

  lemma LanKeyParts(a: (Word, Word), p: Byte, v: Word)
    ensures var s := LanKey(a, p, v);
      s[..2] == WordBytes(a.0) && s[2..4] == WordBytes(a.1) && s[4] == p && s[5..] == WordBytes(v)
  {
    hide WordBytes;
  }

  /** What the allocator grants while one session is made. */
  datatype Grants = Grants(id: bool, session: bool, entry: bool, lanNodes: nat, wanNodes: nat)

  /** What a session translates between: a LAN address and ID, and the WAN ID they leave under. */
  datatype Ends = Between(addr: (Word, Word), protocol: Byte, lanId: Word, wanId: Word)

  /** A session as a value: what it translates, when its last packet from the LAN was, and whether the
      short timeout holds. */
  datatype Live = Live(ends: Ends, upTime: int, short: bool)

  class Session {
    var natId: NatIds.NatId?
    var tdata: TimeWheel.TimeData?<Session>
    var upTime: int
    var addr: (Word, Word)
    var lanId: Word
    var wanId: Word
    var lanKey: Key
    var wanKey: Key
    var minTimeout: bool
    var protocol: Byte
    var refcnt: nat

    constructor ()
      ensures natId == null && tdata == null && upTime == 0 && refcnt == 0 && !minTimeout
    {
      natId, tdata, upTime, refcnt, minTimeout := null, null, 0, 0, false;
      addr, lanId, wanId, lanKey, wanKey, protocol := (0, 0), 0, 0, [], [], 0;
    }

    /** What `ixc_nat_do` writes into a new session: ICMP and TCP SYN start with the short timeout. */
    method Fill(id: NatIds.NatId, addr: (Word, Word), protocol: Byte, lanId: Word)
      modifies this`natId, this`addr, this`lanId, this`wanId, this`protocol, this`minTimeout, this`refcnt
      ensures natId == id && this.addr == addr && this.lanId == lanId && wanId == id.netId && this.protocol == protocol
      ensures refcnt == 2 && (minTimeout <==> protocol == ICMP || protocol == TCP)
    {
      refcnt := 2;
      natId, this.lanId, wanId, this.protocol, this.addr := id, lanId, id.netId, protocol, addr;
      minTimeout := protocol == ICMP || protocol == TCP;
    }

    ghost function Ends(): Ends
      reads this`addr, this`protocol, this`lanId, this`wanId
    {
      Between(addr, protocol, lanId, wanId)
    }

    ghost function Life(): Live
      reads this`addr, this`protocol, this`lanId, this`wanId, this`upTime, this`minTimeout
    {
      Live(Ends(), upTime, minTimeout)
    }

    function Timeout(): int
      reads this`minTimeout
    {
      if minTimeout then MIN_TIMEOUT else TIMEOUT
    }
  }

  class Table {
    const lan2wan: TrieMap.Map<Session>
    const wan2lan: TrieMap.Map<Session>
    const icmpSet: NatIds.IdSet
    const tcpSet: NatIds.IdSet
    const udpSet: NatIds.IdSet
    const wheel: TimeWheel.Wheel<Session>

    // the live sessions, and which of them holds an ID
    ghost var sessions: set<Session>
    ghost var held: map<NatIds.NatId, Session>

    /** The live sessions and what they translate between. */
    ghost function View(): (v: map<Session, Live>)
      reads this`sessions, sessions`addr, sessions`protocol, sessions`lanId, sessions`wanId, sessions`upTime,
            sessions`minTimeout
      ensures v.Keys == sessions
    {
      map s | s in sessions :: s.Life()
    }

    function SetOf(protocol: Byte): NatIds.IdSet {
      if protocol == ICMP then icmpSet else if protocol == TCP then tcpSet else udpSet
    }

    // ---------- invariants ----------

    /** Both tries hold exactly the live sessions, each under its own keys, with reference count 2;
        the sessions in `half` have already lost their WAN entry. */
    ghost predicate Mirror(half: set<Session>)
      reads this, lan2wan`Contents, wan2lan`Contents, sessions`lanKey, sessions`wanKey, sessions`refcnt
    {
      && (forall s | s in sessions :: s.lanKey in lan2wan.Contents && lan2wan.Contents[s.lanKey] == s)
      && (forall k | k in lan2wan.Contents :: lan2wan.Contents[k] in sessions && lan2wan.Contents[k].lanKey == k)
      && (forall s | s in sessions && s !in half ::
        s.wanKey in wan2lan.Contents && wan2lan.Contents[s.wanKey] == s && s.refcnt == 2)
      && (forall s | s in half :: s in sessions && s.refcnt == 1)
      && (forall k | k in wan2lan.Contents ::
            wan2lan.Contents[k] in sessions && wan2lan.Contents[k] !in half && wan2lan.Contents[k].wanKey == k)
    }

    /** Each session holds one minted ID of its protocol's set; its keys say what it translates. */
    ghost predicate Holding()
      reads this, sessions`natId, sessions`protocol, sessions`lanKey, sessions`wanKey, sessions`addr,
            sessions`lanId, sessions`wanId, icmpSet`minted, tcpSet`minted, udpSet`minted
    {
      && (forall s | s in sessions ::
            && s.natId != null && s.natId in SetOf(s.protocol).minted && s.natId in held && held[s.natId] == s
            && Supported(s.protocol) && s.wanId == s.natId.netId
            && s.lanKey == LanKey(s.addr, s.protocol, s.lanId) && s.wanKey == WanKey(s.protocol, s.wanId))
      && (forall n | n in held :: held[n] in sessions && held[n].natId == n)
    }

    /** In every set an ID handed out by the counter is either free or held, never both, unless it is
        being set up (`limbo`). */
    ghost predicate Partition(ids: NatIds.IdSet, limbo: set<NatIds.NatId>)
      reads this`held, ids`free, ids`minted
    {
      && (forall n | n in ids.minted :: n in ids.free <==> n !in held && n !in limbo)
      && (forall n | n in ids.free :: n in ids.minted)
    }

    ghost predicate Partitions(limbo: set<NatIds.NatId>)
      reads this`held, icmpSet`free, icmpSet`minted, tcpSet`free, tcpSet`minted, udpSet`free, udpSet`minted
    {
      Partition(icmpSet, limbo) && Partition(tcpSet, limbo) && Partition(udpSet, limbo)
    }

    ghost function Repr(): set<object>
      reads this, lan2wan`nodes, wan2lan`nodes, icmpSet`minted, tcpSet`minted, udpSet`minted, wheel`entries
    {
      {this, lan2wan, wan2lan, icmpSet, tcpSet, udpSet, wheel} + lan2wan.nodes + wan2lan.nodes
      + AllMinted() + wheel.entries + sessions
    }

    /** The live entries of the wheel and the sessions own each other, except for the sessions in
        `firing`, whose entries have been taken off the wheel, and for entries of sessions being set
        up (`pending`). */
    ghost predicate Timed(firing: set<Session>, pending: set<TimeWheel.TimeData<Session>>)
      reads this, wheel`ticks, wheel`curTick, wheel`entries, wheel.entries, sessions`tdata
    {
      && wheel.curTick < |wheel.ticks|
      && (forall e | e in wheel.Armed() :: e in wheel.entries)
      && (forall s | s in sessions :: s.tdata != null && s.tdata in wheel.entries)
      && (forall s | s in sessions && s !in firing ::
            s.tdata in wheel.Armed() && !s.tdata.isDeleted && s.tdata.data == Some(s))
      && (forall s | s in sessions && s in firing :: s.tdata !in wheel.Armed())
      && (forall e | e in wheel.Armed() && !e.isDeleted && e !in pending ::
            e.data.Some? && e.data.value in sessions && e.data.value !in firing && e.data.value.tdata == e)
    }

    /** No session was already overdue when the wheel last moved. */
    ghost predicate Ages(firing: set<Session>)
      reads this, wheel`oldTime, sessions`upTime, sessions`minTimeout
    {
      forall s | s in sessions && s !in firing :: wheel.oldTime - s.upTime < s.Timeout()
    }

    ghost predicate SetsOk()
      reads icmpSet, icmpSet.free, tcpSet, tcpSet.free, udpSet, udpSet.free
    {
      && icmpSet.Valid() && tcpSet.Valid() && udpSet.Valid()
      && (forall n | n in icmpSet.minted :: n !in tcpSet.minted && n !in udpSet.minted)
      && (forall n | n in tcpSet.minted :: n !in udpSet.minted)
    }

    ghost predicate MapsOk()
      reads lan2wan, lan2wan.nodes, wan2lan, wan2lan.nodes
    {
      && lan2wan.nodes !! wan2lan.nodes
      && lan2wan.Valid() && lan2wan.length == 7 && wan2lan.Valid() && wan2lan.length == 3
    }

    /** Who holds which ID. */
    ghost predicate Ids(limbo: set<NatIds.NatId>)
      reads this, icmpSet, icmpSet.free, tcpSet, tcpSet.free, udpSet, udpSet.free,
            sessions`natId, sessions`protocol, sessions`lanKey, sessions`wanKey, sessions`addr, sessions`lanId,
              sessions`wanId
    {
      && lan2wan != wan2lan && icmpSet != tcpSet && icmpSet != udpSet && tcpSet != udpSet
      && SetsOk() && Holding() && Partitions(limbo)
    }

    /** Everything that does not look at the tries. */
    ghost predicate Rest(firing: set<Session>)
      reads this, icmpSet, icmpSet.free, tcpSet, tcpSet.free, udpSet, udpSet.free, wheel, wheel.entries,
            sessions`natId, sessions`protocol, sessions`lanKey, sessions`wanKey, sessions`addr, sessions`lanId,
            sessions`wanId, sessions`tdata, sessions`upTime, sessions`minTimeout
    {
      && Ids({})
      && wheel.Valid() && wheel.tickTimeout == IO_WAIT_TIMEOUT && Timed(firing, {}) && Ages(firing)
    }

    ghost predicate Valid()
      reads this, lan2wan, lan2wan.nodes, wan2lan, wan2lan.nodes,
            icmpSet, icmpSet.free, tcpSet, tcpSet.free, udpSet, udpSet.free, wheel, wheel.entries, sessions
    {
      MapsOk() && Mirror({}) && Rest({})
    }

    constructor (idMin: Word, idMax: Word, now: int)
      requires 0 < idMin < idMax < 0xffff
      ensures Valid() && sessions == {} && wheel.oldTime == now && wheel.size == WheelTicks() + 1
      ensures forall p | p in {1, 6, 17} :: SetOf(p).idMin == idMin && SetOf(p).idMax == idMax
    {
      hide *;
      lan2wan := new TrieMap.Map<Session>(7);
      wan2lan := new TrieMap.Map<Session>(3);
      icmpSet := new NatIds.IdSet(idMin, idMax);
      tcpSet := new NatIds.IdSet(idMin, idMax);
      udpSet := new NatIds.IdSet(idMin, idMax);
      wheel := new TimeWheel.Wheel<Session>(WheelTicks(), TickTimeout(), 2048, now);
      sessions, held := {}, map[];
      new;
      StartsValid();
      SetsAre();
    }

    lemma SetsAre()
      ensures forall p: Byte :: SetOf(p) == icmpSet || SetOf(p) == tcpSet || SetOf(p) == udpSet
    {
    }

    lemma StartsValid()
      requires sessions == {} && held == map[]
      requires lan2wan != wan2lan && lan2wan.nodes !! wan2lan.nodes && icmpSet != tcpSet && icmpSet != udpSet
        && tcpSet != udpSet
      requires lan2wan.Valid() && lan2wan.length == 7 && wan2lan.Valid() && wan2lan.length == 3
      requires lan2wan.Contents == map[] && wan2lan.Contents == map[]
      requires icmpSet.Valid() && tcpSet.Valid() && udpSet.Valid()
      requires icmpSet.minted == [] && tcpSet.minted == [] && udpSet.minted == []
      requires icmpSet.free == [] && tcpSet.free == [] && udpSet.free == []
      requires wheel.Valid() && wheel.tickTimeout == IO_WAIT_TIMEOUT && wheel.Armed() == []
      ensures Valid()
    {
      hide lan2wan.Valid, icmpSet.Valid;
    }

    /** In no list of the wheel. */
    ghost predicate Loose(e: TimeWheel.TimeData<Session>)
      reads wheel
    {
      wheel.curTick < |wheel.ticks| && e in wheel.entries && e !in wheel.emptyData && e !in wheel.Armed()
    }

    /** Every ID the counters have handed out. */
    ghost function AllMinted(): set<NatIds.NatId>
      reads icmpSet`minted, tcpSet`minted, udpSet`minted
    {
      (set n | n in icmpSet.minted) + (set n | n in tcpSet.minted) + (set n | n in udpSet.minted)
    }

    // ---------- the end of a session ----------

    /** `ixc_nat_del_cb`, called once per trie entry removed: at the second call the ID goes back
        to its set, the wheel entry is marked, and the session is gone. */
    method DelCb(s: Session)
      requires s in sessions && s.refcnt > 0 && s.natId != null && s.tdata != null
      requires SetOf(s.protocol).Valid() && SetOf(s.protocol).Minted(s.natId) && s.natId !in SetOf(s.protocol).free
      modifies s`refcnt, if s.refcnt == 1 then {this, SetOf(s.protocol), s.natId, s.tdata} else {}
      ensures s.refcnt == old(s.refcnt) - 1
      ensures s.refcnt == 0 ==>
        && SetOf(s.protocol).Valid() && SetOf(s.protocol).minted == old(SetOf(s.protocol).minted)
        && SetOf(s.protocol).free == old(SetOf(s.protocol).free) + [s.natId]
        && sessions == old(sessions) - {s} && held == old(held) - {s.natId} && s.tdata.isDeleted
    {
      s.refcnt := s.refcnt - 1;
      if s.refcnt != 0 { return; }
      SetOf(s.protocol).Put(s.natId);
      s.tdata.isDeleted := true;
      sessions := sessions - {s};
      held := held - {s.natId};
    }

    /** What is known of one session. */
    lemma Known(s: Session, firing: set<Session>)
      requires Rest(firing) && s in sessions
      ensures s.natId != null && SetOf(s.protocol).Valid() && SetOf(s.protocol).Minted(s.natId)
      ensures s.natId !in SetOf(s.protocol).free && s.tdata != null && |s.lanKey| == 7 && |s.wanKey| == 3
      ensures icmpSet != tcpSet && icmpSet != udpSet && tcpSet != udpSet
      ensures icmpSet.Valid() && tcpSet.Valid() && udpSet.Valid() && wheel.Valid()
      ensures icmpSet != SetOf(s.protocol) ==> s.natId !in icmpSet.free
      ensures tcpSet != SetOf(s.protocol) ==> s.natId !in tcpSet.free
      ensures udpSet != SetOf(s.protocol) ==> s.natId !in udpSet.free
    {
      var ids := SetOf(s.protocol);
      assert s.natId in ids.minted;
    }

    lemma MapsElim()
      requires MapsOk()
      ensures lan2wan.nodes !! wan2lan.nodes
      ensures lan2wan.Valid() && lan2wan.length == 7 && wan2lan.Valid() && wan2lan.length == 3
    {
    }

    lemma MapsIntro()
      requires lan2wan.nodes !! wan2lan.nodes
      requires lan2wan.Valid() && lan2wan.length == 7 && wan2lan.Valid() && wan2lan.length == 3
      ensures MapsOk()
    {
    }

    /** Removing a key from the WAN trie leaves everything but that trie alone. */
    method DelWan(key: Key, ghost firing: set<Session>) returns (r: Option<Session>)
      requires MapsOk() && Rest(firing) && |key| == 3
      modifies wan2lan, wan2lan.nodes
      ensures MapsOk() && Rest(firing)
      ensures wan2lan.Contents == old(wan2lan.Contents) - {key} && wan2lan.nodes <= old(wan2lan.nodes)
      ensures r == if key in old(wan2lan.Contents) then Some(old(wan2lan.Contents)[key]) else None
      ensures lan2wan.Contents == old(lan2wan.Contents)
    {
      hide *;
      MapsElim();
      RestApart(firing);
      r := wan2lan.Del(key);
      MapsIntro();
    }

    lemma RestApart(firing: set<Session>)
      requires Rest(firing)
      ensures lan2wan != wan2lan
    {
    }

    method DelLan(key: Key, ghost firing: set<Session>) returns (r: Option<Session>)
      requires MapsOk() && Rest(firing) && |key| == 7
      modifies lan2wan, lan2wan.nodes
      ensures MapsOk() && Rest(firing)
      ensures lan2wan.Contents == old(lan2wan.Contents) - {key} && lan2wan.nodes <= old(lan2wan.nodes)
      ensures r == if key in old(lan2wan.Contents) then Some(old(lan2wan.Contents)[key]) else None
      ensures wan2lan.Contents == old(wan2lan.Contents)
    {
      hide *;
      MapsElim();
      RestApart(firing);
      r := lan2wan.Del(key);
      MapsIntro();
    }

    /** The first half: the WAN entry goes. */
    method UnmapWan(s: Session, ghost firing: set<Session>)
      requires MapsOk() && Mirror({}) && Rest(firing) && s in sessions
      modifies wan2lan, wan2lan.nodes, s`refcnt
      ensures MapsOk() && Mirror({s}) && Rest(firing) && sessions == old(sessions)
      ensures wan2lan.nodes <= old(wan2lan.nodes) && s.refcnt == 1 && AllMinted() == old(AllMinted())
    {
      hide *;
      Known(s, firing);
      Mirrored(s);
      var r := DelWan(s.wanKey, firing);
      Known(s, firing);
      DelCb(s);
      HalfMirror(s);
    }

    lemma Mirrored(s: Session)
      requires Mirror({}) && s in sessions
      ensures s.refcnt == 2 && s.lanKey in lan2wan.Contents && lan2wan.Contents[s.lanKey] == s
      ensures s.wanKey in wan2lan.Contents && wan2lan.Contents[s.wanKey] == s
    {
    }

    twostate lemma HalfMirror(s: Session)
      requires old(Mirror({})) && s in sessions && sessions == old(sessions) && s.refcnt == 1
      requires lan2wan.Contents == old(lan2wan.Contents)
      requires wan2lan.Contents == old(wan2lan.Contents) - {s.wanKey}
      requires forall t | t in sessions :: t.lanKey == old(t.lanKey) && t.wanKey == old(t.wanKey)
      requires forall t | t in sessions && t != s :: t.refcnt == old(t.refcnt)
      ensures Mirror({s})
    {
    }

    /** The second half: the LAN entry goes, and the session with it. */
    method UnmapLan(s: Session, ghost firing: set<Session>)
      requires MapsOk() && Mirror({s}) && Rest(firing) && s in sessions && s.refcnt == 1
      requires s.natId != null && s.tdata != null
      modifies lan2wan, lan2wan.nodes, s`refcnt, this, SetOf(s.protocol), s.natId, s.tdata
      ensures MapsOk() && Mirror({}) && Rest(firing) && sessions == old(sessions) - {s}
      ensures lan2wan.nodes <= old(lan2wan.nodes) && AllMinted() == old(AllMinted())
    {
      hide *;
      Known(s, firing);
      HalfMirrored(s);
      var r := DelLan(s.lanKey, firing);
      Known(s, firing);
      label Gone:
      ReleaseId(s);
      FullMirror(s);
      RestLess@Gone(s, firing);
    }

    /** The callback for the last entry, seen from all three sets. */
    method ReleaseId(s: Session)
      requires s in sessions && s.refcnt == 1 && s.natId != null && s.tdata != null
      requires SetOf(s.protocol).Minted(s.natId) && s.natId !in SetOf(s.protocol).free
      requires icmpSet != tcpSet && icmpSet != udpSet && tcpSet != udpSet
      requires icmpSet.Valid() && tcpSet.Valid() && udpSet.Valid()
      requires icmpSet != SetOf(s.protocol) ==> s.natId !in icmpSet.free
      requires tcpSet != SetOf(s.protocol) ==> s.natId !in tcpSet.free
      requires udpSet != SetOf(s.protocol) ==> s.natId !in udpSet.free
      modifies s`refcnt, this, SetOf(s.protocol), s.natId, s.tdata
      ensures GotBack(SetOf(s.protocol), s.natId) && AllMinted() == old(AllMinted())
      ensures sessions == old(sessions) - {s} && held == old(held) - {s.natId} && s.tdata.isDeleted
    {
      hide icmpSet.Valid, icmpSet.Minted;
      DelCb(s);
    }

    lemma HalfMirrored(s: Session)
      requires Mirror({s}) && s in sessions
      ensures s.lanKey in lan2wan.Contents && lan2wan.Contents[s.lanKey] == s
    {
    }

    twostate lemma FullMirror(s: Session)
      requires old(Mirror({s})) && s in old(sessions) && sessions == old(sessions) - {s}
      requires lan2wan.Contents == old(lan2wan.Contents) - {old(s.lanKey)}
      requires wan2lan.Contents == old(wan2lan.Contents)
      requires forall t | t in sessions ::
        t.lanKey == old(t.lanKey) && t.wanKey == old(t.wanKey) && t.refcnt == old(t.refcnt)
      ensures Mirror({})
    {
    }

    /** Two sets and what they minted are as they were; the third got one ID back. */
    twostate predicate GotBack(ids: NatIds.IdSet, n: NatIds.NatId)
      reads icmpSet, icmpSet.free, tcpSet, tcpSet.free, udpSet, udpSet.free
    {
      && icmpSet.Valid() && icmpSet.minted == old(icmpSet.minted)
      && tcpSet.Valid() && tcpSet.minted == old(tcpSet.minted)
      && udpSet.Valid() && udpSet.minted == old(udpSet.minted)
      && icmpSet.free == old(icmpSet.free) + (if ids == icmpSet then [n] else [])
      && tcpSet.free == old(tcpSet.free) + (if ids == tcpSet then [n] else [])
      && udpSet.free == old(udpSet.free) + (if ids == udpSet then [n] else [])
    }

    /** Taking a session out keeps what does not look at the tries. */
    twostate lemma RestLess(s: Session, new firing: set<Session>)
      requires old(allocated(firing)) && old(Rest(firing)) && s in old(sessions) && sessions == old(sessions) - {s}
      requires old(s.natId) != null && held == old(held) - {old(s.natId)}
        && GotBack(SetOf(old(s.protocol)), old(s.natId))
      requires forall t | t in sessions :: unchanged(t)
      requires unchanged(wheel) && old(s.tdata) != null && old(s.tdata).isDeleted
      requires forall e | e in wheel.entries && e != old(s.tdata) :: unchanged(e)
      ensures Rest(firing)
    {
      hide *;
      RestElim2(firing);
      LessHolding(s);
      LessPartitions(s);
      LessTimed(s, firing);
      LessAges(firing);
      RestIntro(firing);
    }

    twostate lemma RestElim2(firing: set<Session>)
      requires old(Rest(firing))
      ensures lan2wan != wan2lan && icmpSet != tcpSet && icmpSet != udpSet && tcpSet != udpSet
      ensures old(SetsOk()) && old(Holding()) && old(Partitions({}))
      ensures old(wheel.Valid()) && wheel.tickTimeout == IO_WAIT_TIMEOUT && old(Timed(firing, {})) && old(Ages(firing))
    {
    }

    lemma RestIntro(firing: set<Session>)
      requires Ids({}) && wheel.Valid() && wheel.tickTimeout == IO_WAIT_TIMEOUT && Timed(firing, {}) && Ages(firing)
      ensures Rest(firing)
    {
    }

    twostate lemma LessHolding(s: Session)
      requires old(Holding()) && s in old(sessions) && sessions == old(sessions) - {s}
      requires old(s.natId) != null && held == old(held) - {old(s.natId)}
        && GotBack(SetOf(old(s.protocol)), old(s.natId))
      requires forall t | t in sessions :: unchanged(t)
      ensures Holding()
    {
      hide icmpSet.Valid;
    }

    twostate lemma LessPartitions(s: Session)
      requires old(SetsOk()) && old(Holding()) && old(Partitions({})) && s in old(sessions)
      requires icmpSet != tcpSet && icmpSet != udpSet && tcpSet != udpSet
      requires old(s.natId) != null && held == old(held) - {old(s.natId)}
        && GotBack(SetOf(old(s.protocol)), old(s.natId))
      requires Holding() && lan2wan != wan2lan
      ensures Ids({})
    {
      hide icmpSet.Valid;
    }

    twostate lemma LessTimed(s: Session, new firing: set<Session>)
      requires old(allocated(firing)) && old(Timed(firing, {})) && s in old(sessions) && sessions == old(sessions) - {s}
      requires forall t | t in sessions :: unchanged(t)
      requires unchanged(wheel) && old(s.tdata) != null && old(s.tdata).isDeleted
      requires forall e | e in wheel.entries && e != old(s.tdata) :: unchanged(e)
      ensures Timed(firing, {})
    {
    }

    twostate lemma LessAges(firing: set<Session>)
      requires old(Ages(firing)) && sessions <= old(sessions) && unchanged(wheel)
      requires forall t | t in sessions :: unchanged(t)
      ensures Ages(firing)
    {
    }

    /** Take a session out: first its WAN entry, then its LAN entry. */
    method End(s: Session, ghost firing: set<Session>)
      requires MapsOk() && Mirror({}) && Rest(firing) && s in sessions && s.natId != null && s.tdata != null
      modifies wan2lan, wan2lan.nodes, lan2wan, lan2wan.nodes, s`refcnt, this, SetOf(s.protocol), s.natId, s.tdata
      ensures MapsOk() && Mirror({}) && Rest(firing) && sessions == old(sessions) - {s}
      ensures lan2wan.nodes <= old(lan2wan.nodes) && wan2lan.nodes <= old(wan2lan.nodes)
        && AllMinted() == old(AllMinted())
    {
      hide *;
      UnmapWan(s, firing);
      UnmapLan(s, firing);
    }

    // ---------- the start of a session ----------

    /** What does not look at the tries, while an ID (`limbo`) and a wheel entry (`pending`) are
        being set up. */
    ghost predicate Setup(limbo: set<NatIds.NatId>, pending: set<TimeWheel.TimeData<Session>>)
      reads this, icmpSet, icmpSet.free, tcpSet, tcpSet.free, udpSet, udpSet.free, wheel, wheel.entries,
            sessions`natId, sessions`protocol, sessions`lanKey, sessions`wanKey, sessions`addr, sessions`lanId,
            sessions`wanId, sessions`tdata
    {
      Ids(limbo) && wheel.Valid() && wheel.tickTimeout == IO_WAIT_TIMEOUT && Timed({}, pending)
    }

    /** An ID of this protocol's set that nobody holds and that is not free either. */
    ghost predicate Spare(protocol: Byte, id: NatIds.NatId)
      reads this`held, icmpSet, icmpSet.free, tcpSet, tcpSet.free, udpSet, udpSet.free
    {
      && Supported(protocol) && id !in held
      && SetOf(protocol).Minted(id) && id in SetOf(protocol).minted && id !in SetOf(protocol).free
    }

    /** When `ixc_nat_id_get` finds an ID. */
    static ghost predicate CanGet(ids: NatIds.IdSet, mapped: Word -> bool, grant: bool)
      reads ids
    {
      NatIds.Usable(ids.free, |ids.free|, mapped) >= 0 || (ids.curId <= ids.idMax as int && grant)
    }

    /** `ids` gave `id` away and no other set changed. */
    twostate predicate Took(ids: NatIds.IdSet, new id: NatIds.NatId)
      reads icmpSet, icmpSet.free, tcpSet, tcpSet.free, udpSet, udpSet.free
    {
      && (ids == icmpSet || ids == tcpSet || ids == udpSet)
      && (if ids == icmpSet then icmpSet.Gave(id) else Kept(icmpSet))
      && (if ids == tcpSet then tcpSet.Gave(id) else Kept(tcpSet))
      && (if ids == udpSet then udpSet.Gave(id) else Kept(udpSet))
    }

    static twostate predicate Kept(ids: NatIds.IdSet)
      reads ids, ids.free
    {
      ids.Valid() && ids.free == old(ids.free) && ids.minted == old(ids.minted)
    }

    /** The call into one set, seen from all three. */
    static method TakeFrom(ids: NatIds.IdSet, mapped: Word -> bool, grant: bool,
                           ghost other: NatIds.IdSet, ghost third: NatIds.IdSet) returns (id: NatIds.NatId?)
      requires ids.Valid() && other.Valid() && third.Valid() && ids != other && ids != third
      requires Disjoint(other.free, ids.free) && Disjoint(third.free, ids.free)
      modifies ids, ids.free`next
      ensures Kept(other) && Kept(third)
      ensures if id == null then Kept(ids) else ids.Gave(id) && (id in old(ids.free) || fresh(id))
      ensures id != null <==> old(CanGet(ids, mapped, grant))
    {
      hide ids.Valid, ids.Gave;
      id := ids.Get(mapped, grant);
    }

    method TakeId(protocol: Byte, mapped: Word -> bool, grant: bool) returns (id: NatIds.NatId?)
      requires icmpSet.Valid() && tcpSet.Valid() && udpSet.Valid() && Apart()
      modifies SetOf(protocol), SetOf(protocol).free`next
      ensures id == null ==> Kept(icmpSet) && Kept(tcpSet) && Kept(udpSet)
      ensures id != null ==> Took(SetOf(protocol), id) && (id in old(SetOf(protocol).free) || fresh(id))
      ensures id != null <==> old(CanGet(SetOf(protocol), mapped, grant))
    {
      hide icmpSet.Valid, icmpSet.Gave, Kept, CanGet;
      if protocol == ICMP {
        id := TakeFrom(icmpSet, mapped, grant, tcpSet, udpSet);
      } else if protocol == TCP {
        id := TakeFrom(tcpSet, mapped, grant, icmpSet, udpSet);
      } else {
        id := TakeFrom(udpSet, mapped, grant, icmpSet, tcpSet);
      }
    }

    /** No ID is free in two sets. */
    ghost predicate Apart()
      reads icmpSet`free, tcpSet`free, udpSet`free
    {
      && icmpSet != tcpSet && icmpSet != udpSet && tcpSet != udpSet
      && Disjoint(icmpSet.free, tcpSet.free) && Disjoint(icmpSet.free, udpSet.free)
        && Disjoint(tcpSet.free, udpSet.free)
    }

    static ghost predicate Disjoint(a: seq<NatIds.NatId>, b: seq<NatIds.NatId>) {
      forall i, j | 0 <= i < |a| && 0 <= j < |b| :: a[i] != b[j]
    }

    method GetId(protocol: Byte, mapped: Word -> bool, grant: bool) returns (id: NatIds.NatId?)
      requires Setup({}, {}) && Supported(protocol)
      modifies SetOf(protocol), SetOf(protocol).free`next
      ensures id == null ==> Setup({}, {})
      ensures id != null ==> Setup({id}, {}) && Spare(protocol, id) && (id in old(SetOf(protocol).free) || fresh(id))
      ensures id != null <==> old(CanGet(SetOf(protocol), mapped, grant))
      ensures forall o | o in Repr() :: o in old(Repr()) || !old(allocated(o))
    {
      hide *;
      SetupElim({}, {});
      FreeApart();
      id := TakeId(protocol, mapped, grant);
      if id == null {
        TookNone();
        SetupIntro({}, {});
      } else {
        TookIds(protocol, id);
        SetupIntro({id}, {});
      }
      Grows();
    }

    lemma SetupElim(limbo: set<NatIds.NatId>, pending: set<TimeWheel.TimeData<Session>>)
      requires Setup(limbo, pending)
      ensures Ids(limbo) && wheel.Valid() && wheel.tickTimeout == IO_WAIT_TIMEOUT && Timed({}, pending)
      ensures icmpSet.Valid() && tcpSet.Valid() && udpSet.Valid() && icmpSet != tcpSet && icmpSet != udpSet
        && tcpSet != udpSet
      ensures lan2wan != wan2lan
    {
    }

    lemma SetupIntro(limbo: set<NatIds.NatId>, pending: set<TimeWheel.TimeData<Session>>)
      requires Ids(limbo) && wheel.Valid() && wheel.tickTimeout == IO_WAIT_TIMEOUT && Timed({}, pending)
      ensures Setup(limbo, pending)
    {
    }

    lemma FreeApart()
      requires Ids({})
      ensures Apart()
    {
      hide icmpSet.Valid, Holding;
      assert forall i | 0 <= i < |icmpSet.free| :: icmpSet.free[i] in icmpSet.free;
      assert forall i | 0 <= i < |tcpSet.free| :: tcpSet.free[i] in tcpSet.free;
      assert forall i | 0 <= i < |udpSet.free| :: udpSet.free[i] in udpSet.free;
    }

    twostate lemma Grows()
      requires sessions <= old(sessions)
      requires forall o | o in lan2wan.nodes :: o in old(lan2wan.nodes) || !old(allocated(o))
      requires forall o | o in wan2lan.nodes :: o in old(wan2lan.nodes) || !old(allocated(o))
      requires forall o | o in AllMinted() :: o in old(AllMinted()) || !old(allocated(o))
      requires forall o | o in wheel.entries :: o in old(wheel.entries) || !old(allocated(o))
      ensures forall o | o in Repr() :: o in old(Repr()) || !old(allocated(o))
    {
      hide AllMinted;
    }

    twostate lemma TookNone()
      requires old(Ids({})) && sessions == old(sessions) && held == old(held)
      requires Kept(icmpSet) && Kept(tcpSet) && Kept(udpSet)
      requires forall t | t in sessions :: unchanged(t)
      ensures Ids({}) && AllMinted() == old(AllMinted())
    {
      hide icmpSet.Valid;
    }

    /** Taking an ID leaves exactly that ID neither free nor held. */
    twostate lemma TookIds(protocol: Byte, new id: NatIds.NatId)
      requires old(Ids({})) && Took(SetOf(protocol), id) && Supported(protocol) && sessions == old(sessions)
        && held == old(held)
      requires forall t | t in sessions :: unchanged(t)
      ensures Ids({id}) && Spare(protocol, id)
      ensures forall n | n in AllMinted() :: n in old(AllMinted()) || !old(allocated(n))
    {
      hide icmpSet.Valid;
    }

    /** `ixc_nat_id_put` for an ID that no session got to hold. */
    method PutId(protocol: Byte, id: NatIds.NatId, ghost pending: set<TimeWheel.TimeData<Session>>)
      requires Setup({id}, pending) && Spare(protocol, id)
      modifies SetOf(protocol), id`next
      ensures Setup({}, pending)
      ensures forall o | o in Repr() :: o in old(Repr()) || !old(allocated(o))
    {
      hide *;
      SetupElim({id}, pending);
      SpareApart(protocol, id);
      PutBack(protocol, id);
      PutIds(protocol, id);
      SetupIntro({}, pending);
      Grows();
    }

    lemma SpareApart(protocol: Byte, id: NatIds.NatId)
      requires Ids({id}) && Spare(protocol, id)
      ensures SetOf(protocol).Minted(id) && id !in icmpSet.free && id !in tcpSet.free && id !in udpSet.free
    {
    }

    method PutBack(protocol: Byte, id: NatIds.NatId)
      requires icmpSet != tcpSet && icmpSet != udpSet && tcpSet != udpSet
      requires icmpSet.Valid() && tcpSet.Valid() && udpSet.Valid()
      requires SetOf(protocol).Minted(id) && id !in icmpSet.free && id !in tcpSet.free && id !in udpSet.free
      modifies SetOf(protocol), id`next
      ensures GotBack(SetOf(protocol), id) && AllMinted() == old(AllMinted())
    {
      hide icmpSet.Valid, icmpSet.Minted;
      SetOf(protocol).Put(id);
    }

    twostate lemma PutIds(protocol: Byte, new id: NatIds.NatId)
      requires old(allocated(id)) && old(Ids({id})) && old(Spare(protocol, id)) && GotBack(SetOf(protocol), id)
      requires sessions == old(sessions) && held == old(held) && forall t | t in sessions :: unchanged(t)
      ensures Ids({})
    {
      hide icmpSet.Valid;
    }

    /** Arm the wheel for a session that is not yet live. */
    method Arm(s: Session, grant: bool, ghost limbo: set<NatIds.NatId>) returns (tdata: TimeWheel.TimeData?<Session>)
      requires Setup(limbo, {}) && s !in sessions
      modifies wheel, wheel.emptyData
      ensures wheel.oldTime == old(wheel.oldTime)
      ensures forall o | o in Repr() :: o in old(Repr()) || !old(allocated(o))
      ensures tdata == null <==> old(wheel.emptyData) == [] && !grant
      ensures if tdata == null then Setup(limbo, {}) else Setup(limbo, {tdata}) && Awaits(tdata, s)
      ensures tdata != null ==> tdata in old(wheel.emptyData) || fresh(tdata)
    {
      hide *;
      SetupElim(limbo, {});
      IoWait();
      PoolOwned();
      tdata := wheel.Add(s, TickTimeout(), grant);
      assert Ids(limbo);
      if tdata == null {
        SetupIntro(limbo, {});
      } else {
        ArmTimed(s, tdata);
        SetupIntro(limbo, {tdata});
      }
      Grows();
    }

    /** The entry is armed for the session. */
    ghost predicate Awaits(tdata: TimeWheel.TimeData<Session>, s: Session)
      reads wheel, tdata
    {
      wheel.curTick < |wheel.ticks| && tdata in wheel.Armed() && tdata in wheel.entries
      && !tdata.isDeleted && tdata.data == Some(s)
    }

    lemma PoolOwned()
      requires wheel.Valid()
      ensures forall e | e in wheel.emptyData :: e in wheel.entries
    {
    }

    lemma IoWait()
      ensures IO_WAIT_TIMEOUT > 0
    {
    }

    twostate lemma ArmTimed(s: Session, new tdata: TimeWheel.TimeData<Session>)
      requires old(wheel.Valid()) && old(Timed({}, {})) && sessions == old(sessions)
      requires forall t | t in sessions :: t.tdata == old(t.tdata)
      requires wheel.Added(tdata, s)
      ensures wheel.Valid() && Timed({}, {tdata}) && Awaits(tdata, s) && (tdata in old(wheel.emptyData) || fresh(tdata))
      ensures wheel.entries == old(wheel.entries) + {tdata}
    {
    }

    /** A trie entry for a session that is not yet live. */
    method AddLan(key: Key, s: Session, avail: nat, ghost limbo: set<NatIds.NatId>,
      ghost pending: set<TimeWheel.TimeData<Session>>)
      returns (rs: int)
      requires MapsOk() && Setup(limbo, pending) && |key| == 7
      modifies lan2wan, lan2wan.nodes
      ensures MapsOk() && Setup(limbo, pending)
      ensures forall o | o in Repr() :: o in old(Repr()) || !old(allocated(o))
      ensures forall o | o in lan2wan.nodes :: o in old(lan2wan.nodes) || !old(allocated(o))
      ensures lan2wan.Contents == if rs == 0 then old(lan2wan.Contents)[key := s] else old(lan2wan.Contents)
      ensures rs == 0 ==> key !in old(lan2wan.Contents)
      ensures key !in old(lan2wan.Contents) && avail >= 7 ==> rs == 0
      ensures wan2lan.Contents == old(wan2lan.Contents)
    {
      hide *;
      MapsElim();
      SetupElim(limbo, pending);
      TrieMap.MissingBound(lan2wan.tree, key, 0);
      rs := lan2wan.Add(key, s, avail);
      MapsIntro();
      Grows();
    }

    method AddWan(key: Key, s: Session, avail: nat, ghost limbo: set<NatIds.NatId>,
      ghost pending: set<TimeWheel.TimeData<Session>>)
      returns (rs: int)
      requires MapsOk() && Setup(limbo, pending) && |key| == 3
      modifies wan2lan, wan2lan.nodes
      ensures MapsOk() && Setup(limbo, pending)
      ensures forall o | o in Repr() :: o in old(Repr()) || !old(allocated(o))
      ensures wan2lan.Contents == if rs == 0 then old(wan2lan.Contents)[key := s] else old(wan2lan.Contents)
      ensures rs == 0 ==> key !in old(wan2lan.Contents)
      ensures key !in old(wan2lan.Contents) && avail >= 3 ==> rs == 0
      ensures lan2wan.Contents == old(lan2wan.Contents) && lan2wan.nodes == old(lan2wan.nodes)
    {
      hide *;
      MapsElim();
      SetupElim(limbo, pending);
      TrieMap.MissingBound(wan2lan.tree, key, 0);
      rs := wan2lan.Add(key, s, avail);
      MapsIntro();
      Grows();
    }

    /** The LAN entry of a session whose WAN entry could not be made goes again. */
    method TakeBack(key: Key, ghost limbo: set<NatIds.NatId>, ghost pending: set<TimeWheel.TimeData<Session>>)
      requires MapsOk() && Setup(limbo, pending) && |key| == 7
      modifies lan2wan, lan2wan.nodes
      ensures MapsOk() && Setup(limbo, pending)
      ensures forall o | o in Repr() :: o in old(Repr()) || !old(allocated(o))
      ensures lan2wan.Contents == old(lan2wan.Contents) - {key} && wan2lan.Contents == old(wan2lan.Contents)
    {
      hide *;
      MapsElim();
      SetupElim(limbo, pending);
      var _ := lan2wan.Del(key);
      MapsIntro();
      Grows();
    }

    /** Mark the entry of a session that does not come to life. */
    method Abandon(tdata: TimeWheel.TimeData<Session>, s: Session, ghost limbo: set<NatIds.NatId>)
      requires Setup(limbo, {tdata}) && Awaits(tdata, s) && s !in sessions
      modifies tdata
      ensures Setup(limbo, {})
    {
      hide *;
      SetupElim(limbo, {tdata});
      tdata.isDeleted := true;
      AbandonTimed(tdata, s);
      SetupIntro(limbo, {});
    }

    twostate lemma AbandonTimed(tdata: TimeWheel.TimeData<Session>, new s: Session)
      requires old(allocated(s)) && old(Timed({}, {tdata})) && old(Awaits(tdata, s)) && s !in sessions
        && sessions == old(sessions)
      requires unchanged(wheel) && tdata.isDeleted && forall e | e in wheel.entries && e != tdata :: unchanged(e)
      requires forall t | t in sessions :: unchanged(t)
      ensures Timed({}, {})
    {
    }

    /** What the allocator and the port map do for one new session. */
    static predicate Ample(g: Grants) {
      g.id && g.session && g.entry && g.lanNodes >= 7 && g.wanNodes >= 3
    }

    /** The part of `ixc_nat_do` that makes a session for a packet from the LAN, with each of its
        error exits. Given memory it fails only for lack of IDs. */
    method Create(addr: (Word, Word), protocol: Byte, lanId: Word, mapped: Word -> bool, g: Grants)
      returns (s: Session?)
      requires MapsOk() && Mirror({}) && Setup({}, {}) && Supported(protocol)
      requires LanKey(addr, protocol, lanId) !in lan2wan.Contents
      modifies this, SetOf(protocol), SetOf(protocol).free`next, wheel, wheel.emptyData,
               lan2wan, lan2wan.nodes, wan2lan, wan2lan.nodes
      ensures MapsOk() && Mirror({}) && Setup({}, {}) && wheel.oldTime == old(wheel.oldTime)
      ensures forall o | o in Repr() :: o in old(Repr()) || !old(allocated(o))
      ensures if s == null then sessions == old(sessions) else fresh(s) && sessions == old(sessions) + {s}
      ensures s != null ==>
        Describes(s, addr, protocol, lanId) && (s.minTimeout <==> protocol == ICMP || protocol == TCP)
      ensures s != null ==> old(CanGet(SetOf(protocol), mapped, g.id))
      ensures Ample(g) && old(CanGet(SetOf(protocol), mapped, true)) ==> s != null
    {
      hide *;
      var id := GetId(protocol, mapped, g.id);
      if Ample(g) {
        AmpleElim(g);
      }
      if id == null { return null; }
      s := Start(addr, protocol, lanId, id, g);
      if s == null {
        PutId(protocol, id, {});
      }
    }

    /** What a session translates. */
    ghost predicate Describes(s: Session, addr: (Word, Word), protocol: Byte, lanId: Word)
      reads s`addr, s`protocol, s`lanId
    {
      s.addr == addr && s.protocol == protocol && s.lanId == lanId
    }

    /** The same once the ID is there; on failure the caller still has the ID to give back. */
    method Start(addr: (Word, Word), protocol: Byte, lanId: Word, id: NatIds.NatId, g: Grants) returns (s: Session?)
      requires MapsOk() && Mirror({}) && Setup({id}, {}) && Spare(protocol, id)
      requires LanKey(addr, protocol, lanId) !in lan2wan.Contents
      modifies this, wheel, wheel.emptyData, lan2wan, lan2wan.nodes, wan2lan, wan2lan.nodes
      ensures MapsOk() && Mirror({}) && wheel.oldTime == old(wheel.oldTime)
      ensures forall o | o in Repr() :: o in old(Repr()) || !old(allocated(o))
      ensures if s == null then Setup({id}, {}) && Spare(protocol, id) && sessions == old(sessions)
              else Setup({}, {}) && fresh(s) && sessions == old(sessions) + {s}
      ensures s != null ==>
        Describes(s, addr, protocol, lanId) && (s.minTimeout <==> protocol == ICMP || protocol == TCP)
      ensures Ample(g) ==> s != null
    {
      hide *;
      if Ample(g) {
        AmpleElim(g);
      }
      if !g.session { return null; }
      s := new Session();
      var tdata := Arm(s, g.entry, {id});
      if tdata == null { return null; }
      var ok := Bring(s, tdata, addr, protocol, lanId, id, g);
      if !ok { return null; }
    }

    /** From the armed entry on. */
    method Bring(s: Session, tdata: TimeWheel.TimeData<Session>, addr: (Word, Word), protocol: Byte, lanId: Word,
      id: NatIds.NatId, g: Grants)
      returns (ok: bool)
      requires MapsOk() && Mirror({}) && Setup({id}, {tdata}) && Spare(protocol, id) && Awaits(tdata, s)
        && s !in sessions
      requires LanKey(addr, protocol, lanId) !in lan2wan.Contents
      modifies this`sessions, this`held, s, tdata, lan2wan, lan2wan.nodes, wan2lan, wan2lan.nodes
      ensures MapsOk() && Mirror({})
      ensures forall o | o in Repr() :: o in old(Repr()) || o == s || !old(allocated(o))
      ensures if ok then Setup({}, {}) && sessions == old(sessions) + {s}
              else Setup({id}, {}) && Spare(protocol, id) && sessions == old(sessions)
      ensures ok ==> Describes(s, addr, protocol, lanId) && (s.minTimeout <==> protocol == ICMP || protocol == TCP)
      ensures g.lanNodes >= 7 && g.wanNodes >= 3 ==> ok
    {
      hide *;
      s.tdata := tdata;
      s.lanKey := LanKey(addr, protocol, lanId);
      ok := Publish(s, tdata, protocol, id, g);
      if ok {
        Enliven(s, tdata, addr, protocol, lanId, id);
      } else {
        Abandon(tdata, s, {id});
      }
    }

    /** Fill in a session that both tries already hold. */
    method Enliven(s: Session, ghost tdata: TimeWheel.TimeData<Session>, addr: (Word, Word), protocol: Byte,
      lanId: Word, id: NatIds.NatId)
      requires Setup({id}, {tdata}) && Spare(protocol, id) && Awaits(tdata, s) && NearMirror(s, true)
      requires s !in sessions && s.tdata == tdata && s.lanKey == LanKey(addr, protocol, lanId)
        && s.wanKey == WanKey(protocol, id.netId)
      modifies this`sessions, this`held, s
      ensures Setup({}, {}) && Mirror({}) && sessions == old(sessions) + {s} && Describes(s, addr, protocol, lanId)
      ensures forall o | o in Repr() :: o in old(Repr()) || o == s || !old(allocated(o))
      ensures s.minTimeout <==> protocol == ICMP || protocol == TCP
    {
      hide *;
      s.Fill(id, addr, protocol, lanId);
      DescribesIntro(s);
      GoLive(s, tdata, id);
    }

    /** From here on the session counts. */
    ghost method GoLive(s: Session, tdata: TimeWheel.TimeData<Session>, id: NatIds.NatId)
      requires Setup({id}, {tdata}) && Spare(s.protocol, id) && Awaits(tdata, s) && NearMirror(s, true)
      requires s !in sessions && s.tdata == tdata && s.natId == id && s.wanId == id.netId && s.refcnt == 2
      requires s.lanKey == LanKey(s.addr, s.protocol, s.lanId) && s.wanKey == WanKey(s.protocol, s.wanId)
      modifies this`sessions, this`held
      ensures Setup({}, {}) && Mirror({}) && sessions == old(sessions) + {s}
      ensures forall o | o in Repr() :: o in old(Repr()) || o == s || !old(allocated(o))
    {
      hide *;
      SetupElim({id}, {tdata});
      IdsElim({id});
      sessions, held := sessions + {s}, held[id := s];
      LiveMirror(s);
      LiveIds(s, id);
      LiveTimed(s, tdata);
      SetupIntro({}, {});
      OneMore(s);
    }

    lemma IdsElim(limbo: set<NatIds.NatId>)
      requires Ids(limbo)
      ensures SetsOk()
    {
    }

    lemma DescribesIntro(s: Session)
      ensures Describes(s, s.addr, s.protocol, s.lanId)
    {
    }

    /** The tries mirror each other once `s` counts as a session, and, unless `wan`, has its WAN entry. */
    ghost predicate NearMirror(s: Session, wan: bool)
      reads this, lan2wan`Contents, wan2lan`Contents, sessions`lanKey, sessions`wanKey, sessions`refcnt, s`lanKey,
        s`wanKey
    {
      && (forall t | t in sessions + {s} :: t.lanKey in lan2wan.Contents && lan2wan.Contents[t.lanKey] == t)
      && (forall k | k in lan2wan.Contents :: lan2wan.Contents[k] in sessions + {s} && lan2wan.Contents[k].lanKey == k)
      && (forall t | t in sessions + (if wan then {s} else {}) ::
        t.wanKey in wan2lan.Contents && wan2lan.Contents[t.wanKey] == t)
      && (forall k | k in wan2lan.Contents ::
            wan2lan.Contents[k] in sessions + (if wan then {s} else {}) && wan2lan.Contents[k].wanKey == k)
      && (forall t | t in sessions && t != s :: t.refcnt == 2)
    }

    lemma AmpleElim(g: Grants)
      requires Ample(g)
      ensures g.id && g.session && g.entry && g.lanNodes >= 7 && g.wanNodes >= 3
    {
    }

    twostate lemma OneMore(s: Session)
      requires sessions == old(sessions) + {s} && lan2wan.nodes == old(lan2wan.nodes)
        && wan2lan.nodes == old(wan2lan.nodes)
      requires AllMinted() == old(AllMinted()) && wheel.entries == old(wheel.entries)
      ensures forall o | o in Repr() :: o in old(Repr()) || o == s || !old(allocated(o))
    {
      hide AllMinted;
    }

    twostate lemma LiveMirror(s: Session)
      requires old(NearMirror(s, true)) && s !in old(sessions) && sessions == old(sessions) + {s} && s.refcnt == 2
      requires s.lanKey == old(s.lanKey) && s.wanKey == old(s.wanKey)
      requires lan2wan.Contents == old(lan2wan.Contents) && wan2lan.Contents == old(wan2lan.Contents)
      requires forall t | t in old(sessions) ::
        t.lanKey == old(t.lanKey) && t.wanKey == old(t.wanKey) && t.refcnt == old(t.refcnt)
      ensures Mirror({})
    {
    }

    twostate lemma LanDone(s: Session)
      requires old(Mirror({})) && sessions == old(sessions) && s !in sessions && s.lanKey == old(s.lanKey)
      requires s.lanKey !in old(lan2wan.Contents) && lan2wan.Contents == old(lan2wan.Contents)[s.lanKey := s]
      requires wan2lan.Contents == old(wan2lan.Contents)
      requires forall t | t in sessions ::
        t.lanKey == old(t.lanKey) && t.wanKey == old(t.wanKey) && t.refcnt == old(t.refcnt)
      ensures NearMirror(s, false)
    {
    }

    twostate lemma WanDone(s: Session)
      requires old(NearMirror(s, false)) && sessions == old(sessions) && unchanged(s) && s !in sessions
      requires lan2wan.Contents == old(lan2wan.Contents)
      requires s.wanKey !in old(wan2lan.Contents) && wan2lan.Contents == old(wan2lan.Contents)[s.wanKey := s]
      requires forall t | t in sessions :: unchanged(t)
      ensures NearMirror(s, true)
    {
    }

    twostate lemma LanUndone(s: Session)
      requires old(NearMirror(s, false)) && sessions == old(sessions) && unchanged(s) && s !in sessions
      requires lan2wan.Contents == old(lan2wan.Contents) - {s.lanKey} && wan2lan.Contents == old(wan2lan.Contents)
      requires forall t | t in sessions :: unchanged(t)
      ensures Mirror({})
    {
    }

    twostate lemma LiveIds(s: Session, new id: NatIds.NatId)
      requires old(allocated(id)) && old(Ids({id})) && old(Spare(s.protocol, id)) && s !in old(sessions) && unchanged(s)
      requires sessions == old(sessions) + {s} && held == old(held)[id := s]
      requires s.natId == id && s.wanId == id.netId
      requires s.lanKey == LanKey(s.addr, s.protocol, s.lanId) && s.wanKey == WanKey(s.protocol, s.wanId)
      requires SetsOk() && forall t | t in old(sessions) :: unchanged(t)
      requires icmpSet.free == old(icmpSet.free) && icmpSet.minted == old(icmpSet.minted)
      requires tcpSet.free == old(tcpSet.free) && tcpSet.minted == old(tcpSet.minted)
      requires udpSet.free == old(udpSet.free) && udpSet.minted == old(udpSet.minted)
      ensures Ids({})
    {
      hide SetsOk, Holding, Partitions, Spare;
      LiveHolding(s, id);
      LivePartitions(s, id);
    }

    twostate lemma LiveHolding(s: Session, new id: NatIds.NatId)
      requires old(allocated(id)) && old(Holding()) && old(Spare(s.protocol, id)) && s !in old(sessions) && unchanged(s)
      requires sessions == old(sessions) + {s} && held == old(held)[id := s]
      requires s.natId == id && s.wanId == id.netId
      requires s.lanKey == LanKey(s.addr, s.protocol, s.lanId) && s.wanKey == WanKey(s.protocol, s.wanId)
      requires forall t | t in old(sessions) :: unchanged(t)
      requires icmpSet.minted == old(icmpSet.minted) && tcpSet.minted == old(tcpSet.minted)
        && udpSet.minted == old(udpSet.minted)
      ensures Holding()
    {
      hide icmpSet.Minted;
    }

    twostate lemma LivePartitions(s: Session, new id: NatIds.NatId)
      requires old(allocated(id)) && old(Partitions({id})) && held == old(held)[id := s]
      requires icmpSet.free == old(icmpSet.free) && icmpSet.minted == old(icmpSet.minted)
      requires tcpSet.free == old(tcpSet.free) && tcpSet.minted == old(tcpSet.minted)
      requires udpSet.free == old(udpSet.free) && udpSet.minted == old(udpSet.minted)
      ensures Partitions({})
    {
    }

    twostate lemma LiveTimed(s: Session, new tdata: TimeWheel.TimeData<Session>)
      requires old(allocated(tdata)) && old(Timed({}, {tdata})) && old(Awaits(tdata, s)) && s.tdata == tdata
      requires s !in old(sessions) && sessions == old(sessions) + {s}
      requires unchanged(wheel) && forall e | e in wheel.entries :: unchanged(e)
      requires forall t | t in old(sessions) :: unchanged(t)
      ensures Timed({}, {})
    {
    }

    /** Both trie entries, or none. */
    method Publish(s: Session, tdata: TimeWheel.TimeData<Session>, protocol: Byte, id: NatIds.NatId, g: Grants)
      returns (ok: bool)
      requires MapsOk() && Mirror({}) && Setup({id}, {tdata}) && Spare(protocol, id) && s !in sessions
      requires |s.lanKey| == 7 && s.lanKey !in lan2wan.Contents
      modifies s`wanKey, lan2wan, lan2wan.nodes, wan2lan, wan2lan.nodes
      ensures MapsOk() && Setup({id}, {tdata})
      ensures !ok ==> Mirror({})
      ensures forall o | o in Repr() :: o in old(Repr()) || !old(allocated(o))
      ensures ok ==> s.wanKey == WanKey(protocol, id.netId) && NearMirror(s, true)
      ensures g.lanNodes >= 7 && g.wanNodes >= 3 ==> ok
    {
      hide *;
      WanFree(protocol, id, {tdata});
      var rs := AddLan(s.lanKey, s, g.lanNodes, {id}, {tdata});
      if rs != 0 {
        MirrorKept();
        return false;
      }
      s.wanKey := WanKey(protocol, id.netId);
      LanDone(s);
      ok := PublishWan(s, tdata, id, g);
    }

    /** The WAN entry, or neither. */
    method PublishWan(s: Session, ghost tdata: TimeWheel.TimeData<Session>, ghost id: NatIds.NatId, g: Grants)
      returns (ok: bool)
      requires MapsOk() && NearMirror(s, false) && Setup({id}, {tdata}) && s !in sessions && |s.lanKey| == 7
        && |s.wanKey| == 3
      requires s.wanKey !in wan2lan.Contents
      modifies lan2wan, lan2wan.nodes, wan2lan, wan2lan.nodes
      ensures MapsOk() && Setup({id}, {tdata})
      ensures forall o | o in Repr() :: o in old(Repr()) || !old(allocated(o))
      ensures if ok then NearMirror(s, true) else Mirror({})
      ensures g.wanNodes >= 3 ==> ok
    {
      hide *;
      var rs := AddWan(s.wanKey, s, g.wanNodes, {id}, {tdata});
      if rs != 0 {
        TakeBack(s.lanKey, {id}, {tdata});
        LanUndone(s);
        return false;
      }
      WanDone(s);
      ok := true;
    }

    twostate lemma MirrorKept()
      requires old(Mirror({})) && sessions == old(sessions)
      requires lan2wan.Contents == old(lan2wan.Contents) && wan2lan.Contents == old(wan2lan.Contents)
      requires forall t | t in sessions ::
        t.lanKey == old(t.lanKey) && t.wanKey == old(t.wanKey) && t.refcnt == old(t.refcnt)
      ensures Mirror({})
    {
    }

    /** A spare ID is in no WAN key. */
    lemma WanFree(protocol: Byte, id: NatIds.NatId, pending: set<TimeWheel.TimeData<Session>>)
      requires Mirror({}) && Setup({id}, pending) && Spare(protocol, id)
      ensures WanKey(protocol, id.netId) !in wan2lan.Contents
    {
      hide *;
      SetupElim({id}, pending);
      SpareElim(protocol, id);
      if WanKey(protocol, id.netId) in wan2lan.Contents {
        var n := HolderOf(protocol, id.netId, {id});
        SameId(SetOf(protocol), n, id);
      }
    }

    lemma SpareElim(protocol: Byte, id: NatIds.NatId)
      requires Spare(protocol, id)
      ensures id !in held && SetOf(protocol).Minted(id)
    {
    }

    /** Whoever is found under a WAN key holds an ID of that name. */
    lemma HolderOf(protocol: Byte, wanId: Word, limbo: set<NatIds.NatId>) returns (n: NatIds.NatId)
      requires Mirror({}) && Ids(limbo) && WanKey(protocol, wanId) in wan2lan.Contents
      ensures n in held && n in SetOf(protocol).minted && n.netId == wanId && SetOf(protocol).Valid()
    {
      hide icmpSet.Valid, Partitions;
      var t := wan2lan.Contents[WanKey(protocol, wanId)];
      WanKeyInjective(t.protocol, t.wanId, protocol, wanId);
      n := t.natId;
    }

    /** No two IDs of a set have the same name. */
    static lemma SameId(ids: NatIds.IdSet, n: NatIds.NatId, m: NatIds.NatId)
      requires ids.Valid() && n in ids.minted && ids.Minted(m) && n.netId == m.netId
      ensures n == m
    {
      SwapInjective(n.id, m.id);
    }

    // ---------- lookups ----------

    /** One session per LAN endpoint and one per WAN endpoint, so a translation is a bijection. */
    lemma OneSession(s: Session, t: Session)
      requires Valid() && s in sessions && t in sessions && s.protocol == t.protocol
      ensures s.addr == t.addr && s.lanId == t.lanId <==> s == t
      ensures s.wanId == t.wanId <==> s == t
    {
      hide lan2wan.Valid, icmpSet.Valid, wheel.Valid, Timed, Ages, Partitions;
    }

    ghost predicate Has(addr: (Word, Word), protocol: Byte, lanId: Word)
      reads this, sessions`addr, sessions`protocol, sessions`lanId
    {
      exists s :: s in sessions && Describes(s, addr, protocol, lanId)
    }

    lemma HasKey(addr: (Word, Word), protocol: Byte, lanId: Word)
      requires Mirror({}) && Ids({})
      ensures Has(addr, protocol, lanId) <==> LanKey(addr, protocol, lanId) in lan2wan.Contents
      ensures Has(addr, protocol, lanId) ==>
        var s := lan2wan.Contents[LanKey(addr, protocol, lanId)]; s in sessions && Describes(s, addr, protocol, lanId)
    {
      hide icmpSet.Valid;
      var key := LanKey(addr, protocol, lanId);
      if key in lan2wan.Contents {
        var s := lan2wan.Contents[key];
        LanKeyInjective(s.addr, s.protocol, s.lanId, addr, protocol, lanId);
      }
    }

    /** The session behind a packet from the LAN: the one there is, else a new one; a TCP packet must
        carry SYN to make one. */
    twostate predicate Found(new s: Session?, addr: (Word, Word), new protocol: Byte, new lanId: Word, new syn: bool)
      reads this`sessions, sessions`addr, sessions`protocol, sessions`lanId
    {
      if s == null then sessions == old(sessions) && !old(Has(addr, protocol, lanId))
      else
        && s in sessions && Describes(s, addr, protocol, lanId)
        && if old(Has(addr, protocol, lanId)) then s in old(sessions) && sessions == old(sessions)
           else !old(allocated(s)) && sessions == old(sessions) + {s} && (protocol == TCP ==> syn)
    }

    /** Every session there was is still there and translates what it did. */
    twostate predicate EndsKept()
      reads this`sessions, sessions`addr, sessions`protocol, sessions`lanId, sessions`wanId
    {
      old(sessions) <= sessions && forall t | t in old(sessions) :: t.Ends() == old(t.Ends())
    }

    twostate predicate SameFlag(new s: Session?)
      reads this`sessions, sessions`minTimeout
    {
      s in old(sessions) && s in sessions ==> s.minTimeout == old(s.minTimeout)
    }

    twostate lemma FlagElim(new s: Session)
      requires SameFlag(s) && s in sessions
      ensures s in old(sessions) ==> s.minTimeout == old(s.minTimeout)
    {
    }

    /** All of them but one are as young as they were. */
    twostate predicate OthersKept(new s: Session?)
      reads this`sessions, (sessions - {s})`upTime, (sessions - {s})`minTimeout
    {
      forall t | t in old(sessions) && t in sessions && t != s ::
        t.upTime == old(t.upTime) && t.minTimeout == old(t.minTimeout)
    }

    /** Given memory a packet of this protocol can be given a session. */
    ghost predicate Servable(protocol: Byte, mapped: Word -> bool, syn: bool)
      reads icmpSet, icmpSet.free, tcpSet, tcpSet.free, udpSet, udpSet.free
    {
      CanGet(SetOf(protocol), mapped, true) && (protocol == TCP ==> syn)
    }

    lemma ServableElim(protocol: Byte, mapped: Word -> bool, syn: bool)
      ensures Servable(protocol, mapped, syn) <==> CanGet(SetOf(protocol), mapped, true) && (protocol == TCP ==> syn)
    {
    }

    method Lookup(addr: (Word, Word), protocol: Byte, lanId: Word, syn: bool, mapped: Word -> bool, g: Grants)
      returns (s: Session?)
      requires MapsOk() && Mirror({}) && Setup({}, {}) && Supported(protocol)
      modifies this, SetOf(protocol), SetOf(protocol).free`next, wheel, wheel.emptyData,
               lan2wan, lan2wan.nodes, wan2lan, wan2lan.nodes
      ensures MapsOk() && Mirror({}) && Setup({}, {}) && wheel.oldTime == old(wheel.oldTime)
      ensures forall o | o in Repr() :: o in old(Repr()) || !old(allocated(o))
      ensures s != null ==> s in sessions && Describes(s, addr, protocol, lanId)
      ensures old(Has(addr, protocol, lanId)) ==> s != null && s in old(sessions) && sessions == old(sessions)
      ensures !old(Has(addr, protocol, lanId)) && s != null ==>
        && fresh(s) && sessions == old(sessions) + {s} && (protocol == TCP ==> syn)
        && (s.minTimeout <==> protocol == ICMP || protocol == TCP)
      ensures s == null ==> sessions == old(sessions)
      ensures Ample(g) && old(CanGet(SetOf(protocol), mapped, true)) && (protocol == TCP ==> syn) ==> s != null
    {
      hide *;
      MapsElim();
      SetupElim({}, {});
      HasKey(addr, protocol, lanId);
      var found, isFound := lan2wan.Find(LanKey(addr, protocol, lanId));
      if isFound { return found.value; }
      if protocol == TCP && !syn { return null; }
      assert SetOf(protocol).free == old(SetOf(protocol).free);
      s := Create(addr, protocol, lanId, mapped, g);
    }

    /** A packet from the LAN: its session, made if need be, is as young as can be afterwards, and a
        TCP packet other than SYN gives it the long timeout. Every other session is as it was. */
    method Outbound(addr: (Word, Word), protocol: Byte, lanId: Word, syn: bool, now: int, mapped: Word -> bool,
      g: Grants)
      returns (s: Session?)
      requires Valid() && Supported(protocol) && wheel.oldTime <= now
      modifies Repr()
      ensures Valid() && wheel.oldTime == old(wheel.oldTime)
      ensures forall o | o in Repr() :: o in old(Repr()) || !old(allocated(o))
      ensures Found(s, addr, protocol, lanId, syn) && EndsKept() && OthersKept(s)
      ensures s != null ==> s.upTime == now
      ensures s != null && s in old(sessions) ==> s.minTimeout == (old(s.minTimeout) && !(protocol == TCP && !syn))
      ensures s != null && s !in old(sessions) ==> (s.minTimeout <==> protocol == ICMP || protocol == TCP)
      ensures Ample(g) && old(Servable(protocol, mapped, syn)) ==> s != null
    {
      hide *;
      ValidElim();
      OwnParts();
      OwnSet(protocol);
      s := Reach(addr, protocol, lanId, syn, now, mapped, g);
    }

    method Reach(addr: (Word, Word), protocol: Byte, lanId: Word, syn: bool, now: int, mapped: Word -> bool, g: Grants)
      returns (s: Session?)
      requires Valid() && Supported(protocol) && wheel.oldTime <= now
      modifies this, SetOf(protocol), SetOf(protocol).free`next, wheel, wheel.emptyData,
               lan2wan, lan2wan.nodes, wan2lan, wan2lan.nodes, sessions`upTime, sessions`minTimeout
      ensures Valid() && wheel.oldTime == old(wheel.oldTime)
      ensures forall o | o in Repr() :: o in old(Repr()) || !old(allocated(o))
      ensures Found(s, addr, protocol, lanId, syn) && EndsKept() && OthersKept(s)
      ensures s != null ==> s.upTime == now
      ensures s != null && s in old(sessions) ==> s.minTimeout == (old(s.minTimeout) && !(protocol == TCP && !syn))
      ensures s != null && s !in old(sessions) ==> (s.minTimeout <==> protocol == ICMP || protocol == TCP)
      ensures Ample(g) && old(Servable(protocol, mapped, syn)) ==> s != null
    {
      hide *;
      ValidElim();
      OwnSet(protocol);
      s := Join(addr, protocol, lanId, syn, mapped, g);
      if s == null {
        ValidIntro();
      } else {
        FlagElim(s);
        Refresh(s, now, protocol == TCP && !syn);
      }
    }

    method Join(addr: (Word, Word), protocol: Byte, lanId: Word, syn: bool, mapped: Word -> bool, g: Grants)
      returns (s: Session?)
      requires MapsOk() && Mirror({}) && Setup({}, {}) && Ages({}) && Supported(protocol)
      modifies this, SetOf(protocol), SetOf(protocol).free`next, wheel, wheel.emptyData,
               lan2wan, lan2wan.nodes, wan2lan, wan2lan.nodes
      ensures MapsOk() && Mirror({}) && Setup({}, {}) && wheel.oldTime == old(wheel.oldTime)
      ensures Ages(if s == null then {} else {s}) && (s != null ==> s in sessions)
      ensures forall o | o in Repr() :: o in old(Repr()) || !old(allocated(o))
      ensures Found(s, addr, protocol, lanId, syn) && EndsKept() && OthersKept(s)
      ensures s != null && s !in old(sessions) ==>
        !old(allocated(s)) && (protocol == TCP ==> syn) && (s.minTimeout <==> protocol == ICMP || protocol == TCP)
      ensures SameFlag(s)
      ensures Ample(g) && old(Servable(protocol, mapped, syn)) ==> s != null
    {
      hide *;
      ServableElim(protocol, mapped, syn);
      s := Lookup(addr, protocol, lanId, syn, mapped, g);
      AgesKept(if s == null then {} else {s});
      KeptIntro(s);
      FoundIntro(s, addr, protocol, lanId, syn);
    }

    twostate lemma FoundIntro(new s: Session?, addr: (Word, Word), new protocol: Byte, new lanId: Word, new syn: bool)
      requires s == null ==> sessions == old(sessions) && !old(Has(addr, protocol, lanId))
      requires s != null ==> s in sessions && Describes(s, addr, protocol, lanId)
      requires s != null && old(Has(addr, protocol, lanId)) ==> s in old(sessions) && sessions == old(sessions)
      requires s != null && !old(Has(addr, protocol, lanId)) ==>
        !old(allocated(s)) && sessions == old(sessions) + {s} && (protocol == TCP ==> syn)
      ensures Found(s, addr, protocol, lanId, syn)
    {
    }

    twostate lemma KeptIntro(new s: Session?)
      requires old(sessions) <= sessions && forall t | t in old(sessions) :: unchanged(t)
      ensures EndsKept() && OthersKept(s) && SameFlag(s)
    {
    }

    /** A packet from the LAN makes its session young; a TCP packet other than SYN lengthens its timeout. */
    method Refresh(s: Session, now: int, established: bool)
      requires MapsOk() && Mirror({}) && Setup({}, {}) && Ages({s}) && s in sessions && wheel.oldTime <= now
      modifies s`upTime, s`minTimeout
      ensures Valid() && s.upTime == now && s.minTimeout == (old(s.minTimeout) && !established)
    {
      hide *;
      s.upTime := now;
      if established {
        s.minTimeout := false;
      }
      Young(s);
      ValidIntro();
    }

    lemma OwnSet(protocol: Byte)
      requires Rest({})
      ensures Setup({}, {}) && Ages({}) && SetOf(protocol) in Repr()
      ensures forall i | 0 <= i < |SetOf(protocol).free| :: SetOf(protocol).free[i] in Repr()
      ensures forall e | e in wheel.emptyData :: e in Repr()
    {
      hide *;
      RestElim({});
      SetupIntro({}, {});
      PartitionOf(protocol);
      PoolOwned();
      OwnParts();
      OwnFree(protocol);
    }

    lemma OwnFree(protocol: Byte)
      requires Partition(SetOf(protocol), {})
      ensures SetOf(protocol) in Repr()
      ensures forall i | 0 <= i < |SetOf(protocol).free| :: SetOf(protocol).free[i] in Repr()
    {
      var ids := SetOf(protocol);
      forall i | 0 <= i < |ids.free|
        ensures ids.free[i] in AllMinted()
      {
        assert ids.free[i] in ids.free;
      }
    }

    lemma ValidIntro()
      requires MapsOk() && Mirror({}) && Setup({}, {}) && Ages({})
      ensures Valid()
    {
    }

    twostate lemma AgesKept(new firing: set<Session>)
      requires old(Ages({})) && wheel.oldTime == old(wheel.oldTime) && sessions <= old(sessions) + firing
      requires forall t | t in old(sessions) :: t.upTime == old(t.upTime) && t.minTimeout == old(t.minTimeout)
      ensures Ages(firing)
    {
    }

    twostate lemma Young(s: Session)
      requires old(Ages({s})) && wheel.oldTime == old(wheel.oldTime) && wheel.oldTime <= s.upTime
        && sessions == old(sessions)
      requires forall t | t in sessions && t != s :: t.upTime == old(t.upTime) && t.minTimeout == old(t.minTimeout)
      ensures Ages({})
    {
    }

    /** A packet from the WAN finds exactly the session its ID was given to. */
    method Inbound(protocol: Byte, wanId: Word) returns (s: Session?)
      requires Valid()
      ensures s != null ==> s in sessions && s.protocol == protocol && s.wanId == wanId
      ensures s == null ==> forall t | t in sessions :: !(t.protocol == protocol && t.wanId == wanId)
    {
      hide *;
      ValidElim();
      MapsElim();
      WanElim(protocol, wanId);
      var found, isFound := wan2lan.Find(WanKey(protocol, wanId));
      s := if isFound then found.value else null;
    }

    lemma WanElim(protocol: Byte, wanId: Word)
      requires Mirror({}) && Rest({})
      ensures var key := WanKey(protocol, wanId);
        if key in wan2lan.Contents
        then var s := wan2lan.Contents[key]; s in sessions && s.protocol == protocol && s.wanId == wanId
        else forall t | t in sessions :: !(t.protocol == protocol && t.wanId == wanId)
    {
      hide icmpSet.Valid, wheel.Valid, Timed, Ages, Partitions;
      var key := WanKey(protocol, wanId);
      if key in wan2lan.Contents {
        var s := wan2lan.Contents[key];
        WanKeyInjective(s.protocol, s.wanId, protocol, wanId);
      }
    }

    /** The two protocols take their IDs from one set: UDP and UDP-Lite share theirs. */
    static predicate Alike(p: Byte, q: Byte) {
      p == q || (p in {17, 136} && q in {17, 136})
    }

    /** A live session has the number. */
    ghost predicate Carried(protocol: Byte, w: Word)
      reads this`sessions, sessions`protocol, sessions`wanId
    {
      exists s :: s in sessions && Alike(s.protocol, protocol) && s.wanId == Swap(w)
    }

    /** Given memory an ID can be had unless each number of the range is that of a live session, or has
        been handed out before and is claimed by the port map. */
    lemma Exhausted(protocol: Byte, mapped: Word -> bool)
      requires Valid() && Supported(protocol)
      ensures !CanGet(SetOf(protocol), mapped, true) <==>
        forall w: Word | SetOf(protocol).idMin <= w <= SetOf(protocol).idMax ::
          Carried(protocol, w) || (w < SetOf(protocol).curId && mapped(w))
    {
      hide *;
      ValidElim();
      PartitionOf(protocol);
      forall w: Word
        ensures Named(protocol, w)
      {
        HeldIs(protocol, w);
      }
      ExhaustedSet(protocol, mapped);
    }

    lemma PartitionOf(protocol: Byte)
      requires Rest({})
      ensures Partition(SetOf(protocol), {}) && SetOf(protocol).Valid()
    {
      hide icmpSet.Valid, wheel.Valid, Timed, Ages, Holding, Partition;
    }

    /** A number is a live session's exactly when the ID of that number is held. */
    ghost predicate Named(protocol: Byte, w: Word)
      reads this, sessions`protocol, sessions`wanId, SetOf(protocol)
    {
      var ids := SetOf(protocol);
      if ids.idMin <= w && w - ids.idMin < |ids.minted|
      then ids.minted[w - ids.idMin].id == w && (ids.minted[w - ids.idMin] in held <==> Carried(protocol, w))
      else !Carried(protocol, w)
    }

    lemma HeldIs(protocol: Byte, w: Word)
      requires Rest({}) && Supported(protocol)
      ensures Named(protocol, w)
    {
      hide wheel.Valid, Timed, Ages, Partitions;
      var ids := SetOf(protocol);
      assert ids.Valid();
      if Carried(protocol, w) {
        var s :| s in sessions && Alike(s.protocol, protocol) && s.wanId == Swap(w);
        assert SetOf(s.protocol) == ids;
        SwapInjective(s.natId.id, w);
      }
    }

    lemma ExhaustedSet(protocol: Byte, mapped: Word -> bool)
      requires Partition(SetOf(protocol), {}) && SetOf(protocol).Valid() && forall w: Word :: Named(protocol, w)
      ensures !CanGet(SetOf(protocol), mapped, true) <==>
        forall w: Word | SetOf(protocol).idMin <= w <= SetOf(protocol).idMax ::
          Carried(protocol, w) || (w < SetOf(protocol).curId && mapped(w))
    {
      var ids := SetOf(protocol);
      if !CanGet(ids, mapped, true) {
        forall w: Word | ids.idMin <= w <= ids.idMax
          ensures Carried(protocol, w) || (w < ids.curId && mapped(w))
        {
          assert Named(protocol, w);
          var n := ids.minted[w - ids.idMin];
          assert n in ids.free ==> mapped(n.id);
        }
      } else if ids.curId <= ids.idMax as int {
        assert Named(protocol, ids.curId);
      } else {
        var n := ids.free[NatIds.Usable(ids.free, |ids.free|, mapped)];
        assert n in ids.free && !mapped(n.id);
        assert Named(protocol, n.id);
      }
    }

    /** The port a session leaves under, read in network order, is one of the range. */
    lemma PortInRange(s: Session)
      requires Valid() && s in sessions
      ensures var port := s.wanId % 0x100 * 0x100 + s.wanId / 0x100;
        SetOf(s.protocol).idMin as int <= port <= SetOf(s.protocol).idMax as int
    {
      hide *;
      ValidElim();
      PartitionOf(s.protocol);
      var n := HasId(s);
      InRange(SetOf(s.protocol), n);
      SwapBack(n.id);
    }

    lemma HasId(s: Session) returns (n: NatIds.NatId)
      requires Rest({}) && s in sessions
      ensures n in SetOf(s.protocol).minted && s.wanId == Swap(n.id)
    {
      hide icmpSet.Valid, wheel.Valid, Timed, Ages, Partitions, Swap;
      n := s.natId;
    }

    static lemma InRange(ids: NatIds.IdSet, n: NatIds.NatId)
      requires ids.Valid() && n in ids.minted
      ensures ids.idMin <= n.id <= ids.idMax
    {
    }

    // ---------- the wheel ----------

    /** The entries `rest` have been taken off the wheel; `firing` are the sessions they stand for. */
    ghost predicate Firing(rest: seq<TimeWheel.TimeData<Session>>, firing: set<Session>)
      reads this, wheel, rest, sessions`tdata
    {
      && wheel.curTick < |wheel.ticks| && wheel.TakenOff(rest)
      && (forall e | e in rest && !e.isDeleted ::
            e.data.Some? && e.data.value in firing && e.data.value in sessions && e.data.value.tdata == e)
      && (forall s | s in firing ::
        s in sessions && s.tdata != null && s.tdata in rest && !s.tdata.isDeleted && s.tdata.data == Some(s))
    }

    /** `ixc_nat_timeout_cb`: an idle session ends, any other arms the wheel again; if that fails it ends too. */
    method TimeoutCb(s: Session, now: int, grant: bool, ghost rest: seq<TimeWheel.TimeData<Session>>,
      ghost firing: set<Session>)
      requires MapsOk() && Mirror({}) && Rest(firing + {s}) && Firing(rest, firing)
      requires s in sessions && s !in firing && s.tdata != null && s.natId != null && s.tdata !in rest
      requires wheel.oldTime <= now && Loose(s.tdata)
      modifies wan2lan, wan2lan.nodes, lan2wan, lan2wan.nodes, s`refcnt, s`tdata, this, SetOf(s.protocol), s.natId,
               s.tdata, wheel, wheel.emptyData
      ensures MapsOk() && Mirror({}) && Rest(firing) && Firing(rest, firing)
      ensures lan2wan.nodes <= old(lan2wan.nodes) && wan2lan.nodes <= old(wan2lan.nodes)
      ensures fresh(wheel.entries - old(wheel.entries)) && wheel.oldTime == old(wheel.oldTime)
      ensures Loose(old(s.tdata)) && AllMinted() == old(AllMinted())
      ensures sessions == old(sessions) || sessions == old(sessions) - {s}
      ensures s in sessions ==>
        now - s.upTime < s.Timeout() && s.upTime == old(s.upTime) && s.minTimeout == old(s.minTimeout)
      ensures s !in sessions ==> now - old(s.upTime) >= old(s.Timeout()) || (old(wheel.emptyData) == [] && !grant)
    {
      hide MapsOk, Mirror, Rest, Firing;
      if now - s.upTime >= s.Timeout() {
        EndFired(s, rest, firing);
        return;
      }
      var armed := Rearm(s, now, grant, rest, firing);
      if !armed {
        EndFired(s, rest, firing);
      }
    }

    method EndFired(s: Session, ghost rest: seq<TimeWheel.TimeData<Session>>, ghost firing: set<Session>)
      requires MapsOk() && Mirror({}) && Rest(firing + {s}) && Firing(rest, firing)
      requires s in sessions && s !in firing && s.tdata != null && s.natId != null && s.tdata !in rest
      modifies wan2lan, wan2lan.nodes, lan2wan, lan2wan.nodes, s`refcnt, this, SetOf(s.protocol), s.natId, s.tdata
      ensures MapsOk() && Mirror({}) && Rest(firing) && Firing(rest, firing)
      ensures lan2wan.nodes <= old(lan2wan.nodes) && wan2lan.nodes <= old(wan2lan.nodes)
        && AllMinted() == old(AllMinted())
      ensures sessions == old(sessions) - {s}
    {
      hide *;
      End(s, firing + {s});
      RestDrop(s, firing);
      FiringKept(s, rest, firing);
    }

    lemma RestDrop(s: Session, firing: set<Session>)
      requires Rest(firing + {s}) && s !in sessions
      ensures Rest(firing)
    {
      hide Ids, wheel.Valid;
    }

    twostate lemma FiringKept(s: Session, new rest: seq<TimeWheel.TimeData<Session>>, new firing: set<Session>)
      requires old(allocated(rest)) && old(allocated(firing)) && old(Firing(rest, firing))
      requires s !in firing && sessions == old(sessions) - {s} && unchanged(wheel)
      requires forall t | t in sessions :: t.tdata == old(t.tdata)
      requires forall e | e in rest :: unchanged(e)
      ensures Firing(rest, firing)
    {
    }

    /** The arming branch of the callback. */
    method Rearm(s: Session, now: int, grant: bool, ghost rest: seq<TimeWheel.TimeData<Session>>,
      ghost firing: set<Session>)
      returns (armed: bool)
      requires Rest(firing + {s}) && Firing(rest, firing)
      requires s in sessions && s !in firing && s.tdata != null && s.tdata !in rest
      requires wheel.oldTime <= now && now - s.upTime < s.Timeout() && Loose(s.tdata)
      modifies s`tdata, wheel, wheel.emptyData
      ensures armed <==> old(wheel.emptyData) != [] || grant
      ensures armed ==> Rest(firing) && Firing(rest, firing)
      ensures Loose(old(s.tdata)) && fresh(wheel.entries - old(wheel.entries)) && wheel.oldTime == old(wheel.oldTime)
      ensures !armed ==> unchanged(wheel) && unchanged(wheel.emptyData) && s.tdata == old(s.tdata)
    {
      hide *;
      RestElim(firing + {s});
      IoWait();
      PoolOwned();
      ghost var fired := s.tdata;
      var tdata := wheel.Add(s, TickTimeout(), grant);
      armed := tdata != null;
      assert Ids({});
      if armed {
        s.tdata := tdata;
        RearmTimed(s, tdata, rest, firing);
        RearmAges(s, firing);
        RestIntro(firing);
        StillLoose(s, tdata, fired);
      }
    }

    twostate lemma StillLoose(s: Session, new tdata: TimeWheel.TimeData<Session>, new e: TimeWheel.TimeData<Session>)
      requires old(allocated(e)) && old(Loose(e)) && old(wheel.Valid()) && wheel.Added(tdata, s)
      ensures Loose(e) && fresh(wheel.entries - old(wheel.entries)) && wheel.Valid()
    {
    }

    lemma RestElim(firing: set<Session>)
      requires Rest(firing)
      ensures Ids({}) && wheel.Valid() && wheel.tickTimeout == IO_WAIT_TIMEOUT && Timed(firing, {}) && Ages(firing)
    {
    }

    twostate lemma RearmTimed(s: Session, new tdata: TimeWheel.TimeData<Session>,
      new rest: seq<TimeWheel.TimeData<Session>>,
                              new firing: set<Session>)
      requires old(allocated(rest)) && old(allocated(firing))
      requires old(wheel.Valid()) && old(Timed(firing + {s}, {})) && old(Firing(rest, firing))
      requires s in sessions && s !in firing && sessions == old(sessions) && s.tdata == tdata
      requires forall t | t in sessions && t != s :: t.tdata == old(t.tdata)
      requires wheel.Added(tdata, s)
      ensures Timed(firing, {}) && Firing(rest, firing)
    {
    }

    twostate lemma RearmAges(s: Session, new firing: set<Session>)
      requires old(allocated(firing)) && old(Ages(firing + {s})) && sessions == old(sessions)
      requires wheel.oldTime == old(wheel.oldTime) && wheel.oldTime - s.upTime < s.Timeout()
      requires forall t | t in sessions :: t.upTime == old(t.upTime) && t.minTimeout == old(t.minTimeout)
      ensures Ages(firing)
    {
    }

    /** One turn of `time_wheel_timeout` with the NAT callback. */
    method FireNext(e: TimeWheel.TimeData<Session>, ghost rest: seq<TimeWheel.TimeData<Session>>,
                    ghost firing: set<Session>, clock: Session -> int, grant: Session -> bool)
      returns (ghost left: set<Session>)
      requires MapsOk() && Mirror({}) && Rest(firing) && Firing([e] + rest, firing)
      requires forall s | s in sessions :: wheel.oldTime <= clock(s)
      modifies Repr()
      ensures MapsOk() && Mirror({}) && Rest(left) && Firing(rest, left)
      ensures forall o | o in Repr() :: o in old(Repr()) || !old(allocated(o))
      ensures wheel.oldTime == old(wheel.oldTime) && left <= firing && left <= sessions <= old(sessions)
      ensures forall s | s in firing && s !in left && s in sessions :: clock(s) - s.upTime < s.Timeout()
      ensures forall s | s in old(sessions) && s !in sessions ::
        clock(s) - old(s.upTime) >= old(s.Timeout()) || !grant(s)
      ensures forall s | s in sessions ::
        s.upTime == old(s.upTime) && s.minTimeout == old(s.minTimeout) && s.Ends() == old(s.Ends())
    {
      hide *;
      HeadFacts(e, rest, firing);
      left := firing;
      OwnParts();
      if !e.isDeleted {
        var s := e.data.value;
        left := firing - {s};
        assert firing == left + {s};
        Known(s, firing);
        OwnSession(s, firing);
        TimeoutCb(s, clock(s), grant(s), rest, left);
      }
      assert fresh(wheel.entries - old(wheel.entries));
      Recycled(e, rest, left);
      assert fresh(wheel.entries - old(wheel.entries));
      NothingNew();
      FiringLive(rest, left);
      forall o | o in Repr() && o !in old(Repr())
        ensures !old(allocated(o))
      {
        assert o in Repr() - old(Repr());
      }
    }

    lemma OwnParts()
      ensures {this, lan2wan, wan2lan, icmpSet, tcpSet, udpSet, wheel} <= Repr()
      ensures lan2wan.nodes <= Repr() && wan2lan.nodes <= Repr() && wheel.entries <= Repr() && sessions <= Repr()
    {
    }

    twostate lemma NothingNew()
      requires lan2wan.nodes <= old(lan2wan.nodes) && wan2lan.nodes <= old(wan2lan.nodes)
      requires AllMinted() == old(AllMinted()) && sessions <= old(sessions)
      ensures Repr() - old(Repr()) <= wheel.entries - old(wheel.entries)
    {
      hide AllMinted;
    }

    lemma FiringLive(rest: seq<TimeWheel.TimeData<Session>>, firing: set<Session>)
      requires Firing(rest, firing)
      ensures firing <= sessions
    {
    }

    lemma OwnSession(s: Session, firing: set<Session>)
      requires Rest(firing) && s in sessions && s.natId != null && s.tdata != null
      ensures {s, SetOf(s.protocol), s.natId, s.tdata} <= Repr()
      ensures forall e | e in wheel.emptyData :: e in wheel.entries
    {
    }

    lemma HeadFacts(e: TimeWheel.TimeData<Session>, rest: seq<TimeWheel.TimeData<Session>>, firing: set<Session>)
      requires Rest(firing) && Firing([e] + rest, firing)
      ensures Loose(e) && e !in rest && e in wheel.entries
      ensures e.isDeleted ==> Firing(rest, firing)
      ensures !e.isDeleted ==>
        && e.data.Some? && e.data.value in firing && e.data.value in sessions && e.data.value.tdata == e
        && Firing(rest, firing - {e.data.value})
    {
      hide Ids, Timed, Ages;
      wheel.HeadTakenOff(e, rest);
      assert ([e] + rest)[0] == e;
      forall f | f in rest
        ensures f in [e] + rest && f != e
      {
      }
      forall f | f in [e] + rest
        ensures f == e || f in rest
      {
      }
    }

    /** A fired entry is marked and given back. */
    method Recycled(e: TimeWheel.TimeData<Session>, ghost rest: seq<TimeWheel.TimeData<Session>>,
      ghost left: set<Session>)
      requires Rest(left) && Firing(rest, left) && Loose(e) && e !in rest
      modifies wheel`emptyData, wheel`curDataNum, wheel`entries, e
      ensures Rest(left) && Firing(rest, left) && wheel.entries <= old(wheel.entries)
    {
      hide *;
      RestElim(left);
      FiringElim(e, rest, left);
      wheel.Recycle(e, rest);
      RecycledTimed(e, rest, left);
      RestIntro(left);
    }

    lemma FiringElim(e: TimeWheel.TimeData<Session>, rest: seq<TimeWheel.TimeData<Session>>, firing: set<Session>)
      requires Firing(rest, firing) && Loose(e)
      ensures wheel.curTick < |wheel.ticks| && wheel.TakenOff(rest)
      ensures e in wheel.entries && e !in wheel.emptyData && e !in wheel.Armed()
    {
    }

    twostate lemma RecycledTimed(e: TimeWheel.TimeData<Session>, new rest: seq<TimeWheel.TimeData<Session>>,
      new left: set<Session>)
      requires old(allocated(rest)) && old(allocated(left))
      requires old(Timed(left, {})) && old(Firing(rest, left)) && old(Loose(e)) && e !in rest
        && sessions == old(sessions)
      requires wheel.curTick == old(wheel.curTick) && wheel.ticks == old(wheel.ticks) && wheel.TakenOff(rest)
      requires old(wheel.entries) - {e} <= wheel.entries <= old(wheel.entries)
      requires forall f | f in old(wheel.entries) && f != e :: unchanged(f)
      requires forall t | t in sessions :: unchanged(t)
      ensures Timed(left, {}) && Firing(rest, left)
    {
    }

    /** `time_wheel_handle` on the NAT wheel, polled before a full turn has passed. `clock` is what each
        callback reads, `grant` whether it gets memory. Given memory a session stays whose last packet
        from the LAN is less than ten seconds ago, 180 seconds if the short timeout does not hold; none
        stays that is overdue by a tick of ten seconds, and what stays is as it was. */
    method Handle(now: int, clock: Session -> int, grant: Session -> bool)
      requires Valid() && wheel.TicksBy(now) < wheel.size
      requires forall s | s in sessions :: now <= clock(s)
      modifies Repr()
      ensures Valid() && sessions <= old(sessions)
      ensures forall o | o in Repr() :: o in old(Repr()) || !old(allocated(o))
      ensures forall s | s in old(sessions) && grant(s) ::
        clock(s) - old(s.upTime) < (if old(s.minTimeout) then 10 else 180) ==> s in sessions
      ensures forall s | s in sessions :: now - s.upTime < if s.minTimeout then 20 else 190
      ensures forall s | s in sessions ::
        s.upTime == old(s.upTime) && s.minTimeout == old(s.minTimeout) && s.Ends() == old(s.Ends())
      ensures now - old(wheel.oldTime) < 10 ==> sessions == old(sessions) && wheel.oldTime == old(wheel.oldTime)
      ensures now - old(wheel.oldTime) >= 10 ==>
        wheel.oldTime == now && forall s | s in sessions :: clock(s) - s.upTime < if s.minTimeout then 10 else 180
    {
      hide *;
      Limits();
      Ticks(now);
      Poll(now, clock, grant);
      Limits();
    }

    lemma Limits()
      ensures forall s: Session :: s.Timeout() == if s.minTimeout then 10 else 180
      ensures IO_WAIT_TIMEOUT == 10
    {
    }

    lemma Ticks(now: int)
      requires Valid()
      ensures 0 < wheel.tickTimeout && (wheel.TicksBy(now) == 0 <==> now - wheel.oldTime < 10)
    {
      hide Mirror, MapsOk, Ids, Timed, Ages;
    }

    /** The same by the names of the source. */
    method Poll(now: int, clock: Session -> int, grant: Session -> bool)
      requires Valid() && wheel.TicksBy(now) < wheel.size
      requires forall s | s in sessions :: now <= clock(s)
      modifies Repr()
      ensures Valid() && sessions <= old(sessions)
      ensures forall o | o in Repr() :: o in old(Repr()) || !old(allocated(o))
      ensures forall s | s in old(sessions) && s !in sessions ::
        clock(s) - old(s.upTime) >= old(s.Timeout()) || !grant(s)
      ensures forall s | s in sessions :: now - s.upTime < s.Timeout() + IO_WAIT_TIMEOUT
      ensures forall s | s in sessions ::
        s.upTime == old(s.upTime) && s.minTimeout == old(s.minTimeout) && s.Ends() == old(s.Ends())
      ensures old(wheel.TicksBy(now)) == 0 ==> sessions == old(sessions) && wheel.oldTime == old(wheel.oldTime)
      ensures old(wheel.TicksBy(now)) > 0 ==> wheel.oldTime == now
      ensures old(wheel.TicksBy(now)) > 0 ==> forall s | s in sessions :: clock(s) - s.upTime < s.Timeout()
    {
      hide *;
      ValidElim();
      OwnParts();
      ghost var ticks := wheel.TicksBy(now);
      var first;
      ghost var firing;
      first, firing := Take(now);
      var k := 0;
      assert first[0..] == first;
      while k < |first|
        invariant 0 <= k <= |first| && firing <= sessions <= old(sessions)
        invariant MapsOk() && Mirror({}) && Rest(firing) && Firing(first[k..], firing)
        invariant forall o | o in Repr() :: o in old(Repr()) || !old(allocated(o))
        invariant ticks > 0 ==> wheel.oldTime == now
        invariant ticks == 0 ==>
          first == [] && sessions == old(sessions) && Recent(now) && wheel.oldTime == old(wheel.oldTime)
        invariant forall s | s in sessions ::
          s.upTime == old(s.upTime) && s.minTimeout == old(s.minTimeout) && s.Ends() == old(s.Ends())
        invariant ticks > 0 ==> forall s | s in sessions && s !in firing :: clock(s) - s.upTime < s.Timeout()
        invariant forall s | s in old(sessions) && s !in sessions ::
          clock(s) - old(s.upTime) >= old(s.Timeout()) || !grant(s)
      {
        assert first[k..] == [first[k]] + first[k + 1..];
        firing := FireNext(first[k], first[k + 1..], firing, clock, grant);
        k := k + 1;
      }
      assert first[k..] == [];
      AllFired(firing);
      if ticks == 0 {
        RecentElim(now);
      }
    }

    /** Move the wheel and take what it leaves behind. */
    method Take(now: int) returns (first: seq<TimeWheel.TimeData<Session>>, ghost firing: set<Session>)
      requires Rest({}) && wheel.TicksBy(now) < wheel.size
      modifies wheel`oldTime, wheel`curTick, wheel`ticks
      ensures Rest(firing) && Firing(first, firing)
      ensures old(wheel.TicksBy(now)) == 0 ==>
        first == [] && firing == {} && Recent(now) && wheel.oldTime == old(wheel.oldTime)
      ensures old(wheel.TicksBy(now)) > 0 ==> firing == sessions && wheel.oldTime == now
    {
      hide Ids, wheel.Valid;
      first := wheel.Advance(now);
      firing := if old(wheel.TicksBy(now)) == 0 then {} else sessions;
      InTime(now);
    }

    /** A poll that comes soon enough is within one turn, and if no tick has passed it is within a tick. */
    lemma Timely(now: int)
      requires Valid() && now - wheel.oldTime < wheel.size * IO_WAIT_TIMEOUT
      ensures wheel.TicksBy(now) < wheel.size
      ensures wheel.TicksBy(now) == 0 ==> now - wheel.oldTime < IO_WAIT_TIMEOUT
    {
      hide Mirror, MapsOk, Ids, Timed, Ages;
    }

    /** Every session is within its timeout, give or take the tick the wheel has not passed yet. */
    ghost predicate Recent(now: int)
      reads this, sessions`upTime, sessions`minTimeout
    {
      forall s | s in sessions :: now - s.upTime < s.Timeout() + IO_WAIT_TIMEOUT
    }

    lemma InTime(now: int)
      requires wheel.tickTimeout == IO_WAIT_TIMEOUT
      ensures wheel.TicksBy(now) == 0 && Ages({}) ==> Recent(now)
    {
      if wheel.TicksBy(now) == 0 {
        assert now - wheel.oldTime < IO_WAIT_TIMEOUT;
      }
    }

    lemma RecentElim(now: int)
      requires Recent(now)
      ensures forall s | s in sessions :: now - s.upTime < s.Timeout() + IO_WAIT_TIMEOUT
    {
    }

    lemma AllFired(firing: set<Session>)
      requires MapsOk() && Mirror({}) && Rest(firing) && Firing([], firing)
      ensures Valid() && firing == {} && IO_WAIT_TIMEOUT > 0
    {
      assert firing == {};
    }

    lemma ValidElim()
      requires Valid()
      ensures MapsOk() && Mirror({}) && Rest({}) && 0 < wheel.tickTimeout
    {
    }
  }
}
