/** `ixc_nat_do`: a packet is translated by the session its addresses and ports belong to. */
module NatPackets {
  import opened Bytes
  import IpPacket
  import Nat
  import Netutils

  /** Offset of the transport checksum in the transport header, in words. */
  function CsumAt(protocol: nat): nat {
    if protocol == Nat.ICMP then 1 else if protocol == Nat.TCP then 8 else 3
  }

  /** Offset of the word that names the local end: the ICMP identifier, the source port of what
      leaves, the destination port of what comes in. */
  function IdAt(protocol: nat, isSrc: bool): nat {
    if protocol == Nat.ICMP then 2 else if isSrc then 0 else 1
  }

  function TransportWords(protocol: nat): nat {
    if protocol == Nat.TCP then 10 else 4
  }

  /** A whole IP header and, for what the table supports, a whole transport header. */
  ghost predicate Whole(p: seq<Word>) {
    && 10 <= |p| && 10 <= IpPacket.HeaderWords(p) <= |p|
    && (Nat.Supported(IpPacket.Protocol(p)) ==> IpPacket.HeaderWords(p) + TransportWords(IpPacket.Protocol(p)) <= |p|)
  }

  function Transport(p: seq<Word>, i: nat): Word
    requires 0 < |p| && IpPacket.HeaderWords(p) + i < |p|
  {
    p[IpPacket.HeaderWords(p) + i]
  }

  /** A packet of a kind that `ixc_nat_do` looks up: TCP, UDP, UDP-Lite, and ICMP echo requests and
      replies. */
  ghost predicate Translatable(p: seq<Word>) {
    && Whole(p) && p[4] / 0x100 in {1, 6, 17, 136}
    && var h := p[0] % 0x10 * 2; p[4] / 0x100 == 1 ==> p[h] % 0x100 == 0 || p[h] % 0x100 == 8
  }

  /** The ICMP errors that `ixc_nat_do` translates by the packet they carry. */
  ghost predicate CarriesError(p: seq<Word>) {
    && Whole(p) && p[4] / 0x100 == 1
    && var h := p[0] % 0x10 * 2; p[h] % 0x100 in {3, 4, 11, 12}
  }

  /** The SYN bit, 0x02 of the flags in byte 13 of the TCP header. */
  predicate Syn(p: seq<Word>)
    requires 0 < |p| && p[0] % 0x10 * 2 + 6 < |p|
  {
    p[p[0] % 0x10 * 2 + 6] / 0x100 / 2 % 2 == 1
  }

  /** The address of the local end: the source of what leaves, the destination of what comes in. */
  ghost function Addr(p: seq<Word>, isSrc: bool): (Word, Word)
    requires 10 <= |p|
  {
    if isSrc then (p[6], p[7]) else (p[8], p[9])
  }

  /** The port of the local end, or the identifier of an ICMP echo. */
  ghost function Id(p: seq<Word>, isSrc: bool): Word
    requires Whole(p) && Nat.Supported(IpPacket.Protocol(p))
  {
    var h := p[0] % 0x10 * 2;
    if p[4] / 0x100 == 1 then p[h + 2] else if isSrc then p[h] else p[h + 1]
  }

  /** The packet with its local end renamed and its checksums patched. */
  ghost function Translated(p: seq<Word>, isSrc: bool, addr: (Word, Word), id: Word): (q: seq<Word>)
    requires Whole(p) && Nat.Supported(IpPacket.Protocol(p))
    ensures |q| == |p| && Whole(q)
    ensures IpPacket.Protocol(q) == IpPacket.Protocol(p) && IpPacket.HeaderWords(q) == IpPacket.HeaderWords(p)
  {
    var protocol := IpPacket.Protocol(p);
    var at := if isSrc then IpPacket.SRC else IpPacket.DST;
    var r := IpPacket.Rewritten(p, at, addr.0, addr.1);
    IpPacket.RewrittenLayout(p, at, addr.0, addr.1);
    IpPacket.IdRewritten(r, IdAt(protocol, isSrc), CsumAt(protocol), id)
  }

  /** The translation word by word: the address and the port, or ICMP identifier, of the local end are
      the new ones; of the rest only the two checksums change, the IP header's in word 5 and that of the
      transport header. */
  lemma TranslatedFields(p: seq<Word>, isSrc: bool, addr: (Word, Word), id: Word)
    requires Whole(p) && Nat.Supported(IpPacket.Protocol(p))
    ensures var q, h, protocol := Translated(p, isSrc, addr, id), p[0] % 0x10 * 2, p[4] / 0x100;
      && (Translatable(p) <==> Translatable(q))
      && (q[6], q[7]) == (if isSrc then addr else (p[6], p[7]))
      && (q[8], q[9]) == (if isSrc then (p[8], p[9]) else addr)
      && (if protocol == 1 then q[h + 2] == id
          else if isSrc then q[h] == id && q[h + 1] == p[h + 1] else q[h] == p[h] && q[h + 1] == id)
      && forall i | 0 <= i < |p| && i != 5 && !(6 <= i < 10)
           && i != h + (if protocol == 1 then 2 else if isSrc then 0 else 1)
           && i != h + (if protocol == 1 then 1 else if protocol == 6 then 8 else 3) :: q[i] == p[i]
  {
    hide IpPacket.Rewritten, IpPacket.Patched, Netutils.CsumIncre;
    IpPacket.RewrittenWords(p, isSrc, addr.0, addr.1);
    IpPacket.RewrittenLayout(p, if isSrc then IpPacket.SRC else IpPacket.DST, addr.0, addr.1);
  }

  /** The ICMP checksum is the one a full computation would give. */
  ghost predicate MessageOk(p: seq<Word>)
    requires Whole(p) && IpPacket.Protocol(p) == Nat.ICMP
  {
    Transport(p, CsumAt(Nat.ICMP)) == 0xffff - Netutils.Fold(IpPacket.MessageSum(p, CsumAt(Nat.ICMP)))
  }

  /** Whatever the new address and port, the IP checksum stays exact, and so does the checksum of
      TCP and UDP in a packet that is not a later fragment. The checksum of an ICMP message, which has
      no pseudo header, stays exact if and only if the new message does not sum to zero. */
  lemma TranslatedChecksums(p: seq<Word>, isSrc: bool, addr: (Word, Word), id: Word, length: Word)
    requires Whole(p) && Nat.Supported(IpPacket.Protocol(p))
    ensures var q := Translated(p, isSrc, addr, id);
      && (IpPacket.HeaderOk(p) ==> IpPacket.HeaderOk(q))
      && (IpPacket.Patched(p) && IpPacket.SegmentOk(p, CsumAt(IpPacket.Protocol(p)), length) ==>
            IpPacket.SegmentOk(q, CsumAt(IpPacket.Protocol(p)), length))
      && (IpPacket.Protocol(p) == Nat.ICMP && MessageOk(p) ==>
            (MessageOk(q) <==> IpPacket.MessageSum(q, CsumAt(Nat.ICMP)) != 0))
  {
    hide IpPacket.Rewritten, Netutils.CsumIncre, Netutils.Fold;
    var protocol := IpPacket.Protocol(p);
    var at := if isSrc then IpPacket.SRC else IpPacket.DST;
    var r := IpPacket.Rewritten(p, at, addr.0, addr.1);
    var q := Translated(p, isSrc, addr, id);
    TranslatedFields(p, isSrc, addr, id);
    IpPacket.RewrittenLayout(p, at, addr.0, addr.1);
    if IpPacket.HeaderOk(p) {
      IpPacket.RewriteKeepsHeader(p, at, addr.0, addr.1);
      var h := IpPacket.HeaderWords(p);
      assert q[..h] == r[..h];
    }
    if IpPacket.Patched(p) && IpPacket.SegmentOk(p, CsumAt(protocol), length) {
      IpPacket.RewriteKeepsSegment(p, at, addr.0, addr.1, length);
      IpPacket.IdRewriteKeepsSegment(r, IdAt(protocol, isSrc), CsumAt(protocol), id, length);
    }
    if protocol == Nat.ICMP && MessageOk(p) {
      var h := IpPacket.HeaderWords(p);
      assert r[h..] == p[h..];
      IpPacket.IdRewriteOfEcho(r, IdAt(protocol, isSrc), CsumAt(protocol), id);
    }
  }

  // ---------- what one packet does ----------

  /** The packet comes from this LAN endpoint. */
  ghost predicate From(e: Nat.Ends, p: seq<Word>)
    requires Translatable(p)
  {
    e.protocol == p[4] / 0x100 && e.addr == Addr(p, true) && e.lanId == Id(p, true)
  }

  /** The packet is for this WAN ID. */
  ghost predicate For(e: Nat.Ends, p: seq<Word>)
    requires Translatable(p)
  {
    e.protocol == p[4] / 0x100 && e.wanId == Id(p, false)
  }

  /** A session's packet on its way out: source address and port are the WAN's, destination address and
      port as they were. */
  ghost predicate Leaves(e: Nat.Ends, p: seq<Word>, q: seq<Word>, wanAddr: (Word, Word)) {
    && Translatable(p) && From(e, p) && q == Translated(p, true, wanAddr, e.wanId)
    && var h := p[0] % 0x10 * 2;
    && (q[6], q[7]) == wanAddr && q[8] == p[8] && q[9] == p[9]
    && if e.protocol == 1 then q[h + 2] == e.wanId else q[h] == e.wanId && q[h + 1] == p[h + 1]
  }

  /** A packet that comes in for a session: destination address and port are the LAN's, source address
      and port as they were. */
  ghost predicate Arrives(e: Nat.Ends, p: seq<Word>, q: seq<Word>) {
    && Translatable(p) && For(e, p) && q == Translated(p, false, e.addr, e.lanId)
    && var h := p[0] % 0x10 * 2;
    && (q[8], q[9]) == e.addr && q[6] == p[6] && q[7] == p[7]
    && if e.protocol == 1 then q[h + 2] == e.lanId else q[h + 1] == e.lanId && q[h] == p[h]
  }

  /** The sessions of the table. */
  type View = map<Nat.Session, Nat.Live>

  /** A packet `p` that left as `q` or came in as `q`, by which session, or was dropped; or a poll of the
      wheel, with how late each callback comes and whether it gets memory. */
  datatype Event =
    | Out(p: seq<Word>, wanAddr: (Word, Word), now: int, q: seq<Word>, via: Nat.Session?)
    | In(p: seq<Word>, q: seq<Word>, via: Nat.Session?)
    | Poll(now: int, delay: Nat.Session -> nat, grant: Nat.Session -> bool)

  /** The packet gives its session the long timeout: TCP without SYN. */
  ghost predicate Established(p: seq<Word>) {
    Translatable(p) && p[4] / 0x100 == 6 && !Syn(p)
  }

  /** What an event does to the sessions. A packet from the LAN is dropped only if no session has its
      source, and makes its session young; a packet from the WAN is dropped only if none has its ID.
      Polls end sessions: given memory none within ten seconds of its last packet from the LAN, 180
      without the short timeout, and all that are a tick of ten seconds beyond that. */
  ghost predicate Step(v: View, e: Event, w: View) {
    match e
    case Poll(now, delay, grant) =>
      && w.Keys <= v.Keys && (forall s | s in w :: w[s] == v[s])
      && (forall s | s in v && grant(s) && now + delay(s) - v[s].upTime < (if v[s].short then 10 else 180) :: s in w)
      && (forall s | s in w :: now - w[s].upTime < if w[s].short then 20 else 190)
    case Out(p, wanAddr, now, q, via) =>
      && (forall s | s in v :: s in w && w[s].ends == v[s].ends && (s != via ==> w[s] == v[s]))
      && if via == null then
           w.Keys == v.Keys && q == p && (Translatable(p) ==> forall s | s in v :: !From(v[s].ends, p))
         else
           && via in w && w.Keys == v.Keys + {via} && Leaves(w[via].ends, p, q, wanAddr) && w[via].upTime == now
           && (via in v ==> w[via].short == (v[via].short && !Established(p)))
           && (via !in v ==> Opens(p) && (w[via].short <==> p[4] / 0x100 == 1 || p[4] / 0x100 == 6))
    case In(p, q, via) =>
      && w == v
      && if via == null then q == p && (Translatable(p) ==> forall s | s in v :: !For(v[s].ends, p))
         else via in v && Arrives(v[via].ends, p, q)
  }

  /** A packet from the LAN that may make a session. */
  ghost predicate Opens(p: seq<Word>) {
    Translatable(p) && (p[4] / 0x100 == 6 ==> Syn(p))
  }

  ghost predicate CanServe(t: Nat.Table, p: seq<Word>, mapped: Word -> bool)
    reads t, t.icmpSet, t.icmpSet.free, t.tcpSet, t.tcpSet.free, t.udpSet, t.udpSet.free
  {
    Whole(p) && t.Servable(IpPacket.Protocol(p), mapped, true)
  }

  /** `ixc_nat_do`: the packet is translated by its session, which a packet from the LAN makes if need
      be and makes young, or is dropped as it is. No other session changes. */
  method NatDo(t: Nat.Table, pkt: array<Word>, isSrc: bool, wanAddr: (Word, Word), now: int, mapped: Word -> bool,
    g: Nat.Grants)
    returns (s: Nat.Session?)
    requires t.Valid() && t.wheel.oldTime <= now && Whole(pkt[..]) && pkt !in t.Repr()
    requires !isSrc ==> !CarriesError(pkt[..])
    modifies t.Repr(), pkt
    ensures t.Valid() && t.wheel.oldTime == old(t.wheel.oldTime)
    ensures (forall o | o in t.Repr() :: o in old(t.Repr()) || !old(allocated(o))) && pkt !in t.Repr()
    ensures var e := if isSrc then Out(old(pkt[..]), wanAddr, now, pkt[..], s) else In(old(pkt[..]), pkt[..], s);
      Step(old(t.View()), e, t.View())
    ensures s != null && s !in old(t.sessions) ==> !old(allocated(s))
    ensures isSrc && Opens(old(pkt[..])) && t.Ample(g) && old(CanServe(t, pkt[..], mapped)) ==> s != null
  {
    hide t.Valid, t.Repr, t.CanGet, t.Has, t.Found, t.EndsKept, t.OthersKept, t.View, Translated, Step, Syn;
    ghost var p := pkt[..];
    Untranslatable(t.View(), p, wanAddr, now);
    var hdrLen := pkt[0] % 0x10 * 2;
    var protocol := pkt[IpPacket.TTL_PROTO] / 0x100;
    if protocol == Nat.ICMP {
      var kind := pkt[hdrLen] % 0x100;
      if kind != 8 && kind != 0 { return null; }
    }
    if !Nat.Supported(protocol) { return null; }
    var idPtr := hdrLen + IdAt(protocol, isSrc);
    var csumPtr := hdrLen + CsumAt(protocol);
    if isSrc {
      s := FromLan(t, pkt, idPtr, csumPtr, wanAddr, now, mapped, g);
    } else {
      s := FromWan(t, pkt, idPtr, csumPtr);
    }
  }

  /** A packet from the LAN of a supported kind. */
  method FromLan(t: Nat.Table, pkt: array<Word>, idPtr: nat, csumPtr: nat, wanAddr: (Word, Word), now: int,
    mapped: Word -> bool, g: Nat.Grants)
    returns (s: Nat.Session?)
    requires t.Valid() && t.wheel.oldTime <= now && Translatable(pkt[..]) && pkt !in t.Repr()
    requires Placed(pkt[..], true, idPtr, csumPtr)
    modifies t.Repr(), pkt
    ensures t.Valid() && t.wheel.oldTime == old(t.wheel.oldTime)
    ensures (forall o | o in t.Repr() :: o in old(t.Repr()) || !old(allocated(o))) && pkt !in t.Repr()
    ensures Step(old(t.View()), Out(old(pkt[..]), wanAddr, now, pkt[..], s), t.View())
    ensures s != null && s !in old(t.sessions) ==> !old(allocated(s))
    ensures Opens(old(pkt[..])) && t.Ample(g) && old(CanServe(t, pkt[..], mapped)) ==> s != null
  {
    hide t.Valid, t.Repr, t.CanGet, t.Has, t.Found, t.EndsKept, t.OthersKept, t.View, Translated, Step, Syn;
    ghost var p := pkt[..];
    var hdrLen := pkt[0] % 0x10 * 2;
    var protocol := pkt[IpPacket.TTL_PROTO] / 0x100;
    var syn := protocol == Nat.TCP && Swap(pkt[hdrLen + 6]) / 2 % 2 == 1;
    if protocol == Nat.TCP {
      SynBit(p);
    }
    s := t.Outbound((pkt[IpPacket.SRC], pkt[IpPacket.SRC + 1]), protocol, pkt[idPtr], syn, now, mapped, g);
    if s != null {
      Rename(pkt, idPtr, csumPtr, true, wanAddr, s.wanId);
    }
    LanStep(t, s, p, pkt[..], wanAddr, now);
  }

  /** A packet from the WAN of a supported kind. */
  method FromWan(t: Nat.Table, pkt: array<Word>, idPtr: nat, csumPtr: nat) returns (s: Nat.Session?)
    requires t.Valid() && Translatable(pkt[..]) && pkt !in t.Repr() && Placed(pkt[..], false, idPtr, csumPtr)
    modifies pkt
    ensures t.Valid() && Step(old(t.View()), In(old(pkt[..]), pkt[..], s), t.View())
    ensures s != null ==> s in t.sessions
  {
    hide t.Valid, t.Repr, t.View, Translated, Step;
    ghost var p := pkt[..];
    s := t.Inbound(pkt[IpPacket.TTL_PROTO] / 0x100, pkt[idPtr]);
    WanStep(t, s, p, if s == null then p else Translated(p, false, s.addr, s.lanId));
    assert pkt !in t.Repr();
    if s != null {
      Rename(pkt, idPtr, csumPtr, false, s.addr, s.lanId);
    }
  }

  /** Where the local end's port and the checksum are. */
  ghost predicate Placed(p: seq<Word>, isSrc: bool, idPtr: nat, csumPtr: nat)
    requires 5 <= |p|
  {
    && idPtr == IpPacket.HeaderWords(p) + IdAt(IpPacket.Protocol(p), isSrc)
    && csumPtr == IpPacket.HeaderWords(p) + CsumAt(IpPacket.Protocol(p))
  }

  lemma Untranslatable(v: View, p: seq<Word>, wanAddr: (Word, Word), now: int)
    ensures !Translatable(p) ==> Step(v, Out(p, wanAddr, now, p, null), v) && Step(v, In(p, p, null), v)
  {
  }

  lemma SynBit(p: seq<Word>)
    requires 0 < |p| && p[0] % 0x10 * 2 + 6 < |p|
    ensures Syn(p) <==> Swap(p[p[0] % 0x10 * 2 + 6]) / 2 % 2 == 1
  {
  }

  twostate lemma LanStep(t: Nat.Table, new s: Nat.Session?, new p: seq<Word>, new q: seq<Word>,
    new wanAddr: (Word, Word), new now: int)
    requires Translatable(p) && t.EndsKept() && t.OthersKept(s)
    requires t.Found(s, Addr(p, true), IpPacket.Protocol(p), Id(p, true), IpPacket.Protocol(p) == Nat.TCP && Syn(p))
    requires q == if s == null then p else Translated(p, true, wanAddr, s.wanId)
    requires s != null ==> s.upTime == now
    requires s != null && s in old(t.sessions) ==> s.minTimeout == (old(s.minTimeout) && !Established(p))
    requires s != null && s !in old(t.sessions) ==>
      (s.minTimeout <==> IpPacket.Protocol(p) == Nat.ICMP || IpPacket.Protocol(p) == Nat.TCP)
    ensures Step(old(t.View()), Out(p, wanAddr, now, q, s), t.View())
    ensures s != null && s !in old(t.sessions) ==> !old(allocated(s))
  {
    hide Translated, Whole, Syn, Leaves, Step;
    OthersSame(t, s);
    if s == null {
      NobodysPacket(t, p);
      OutDropped(old(t.View()), p, wanAddr, now, t.View());
    } else {
      LeavesIs(s.Ends(), p, wanAddr);
      OutSent(old(t.View()), p, wanAddr, now, q, s, t.View());
    }
  }

  twostate lemma OthersSame(t: Nat.Table, new s: Nat.Session?)
    requires t.EndsKept() && t.OthersKept(s)
    ensures var v, w := old(t.View()), t.View();
      forall u | u in v :: u in w && w[u].ends == v[u].ends && (u != s ==> w[u] == v[u])
  {
  }

  twostate lemma NobodysPacket(t: Nat.Table, new p: seq<Word>)
    requires Translatable(p) && !old(t.Has(Addr(p, true), IpPacket.Protocol(p), Id(p, true)))
    ensures forall u | u in old(t.View()) :: !From(old(t.View())[u].ends, p)
  {
    var v := old(t.View());
    forall u | u in v
      ensures !From(v[u].ends, p)
    {
      assert u in old(t.sessions);
      assert !old(t.Describes(u, Addr(p, true), IpPacket.Protocol(p), Id(p, true)));
    }
  }

  lemma LeavesIs(e: Nat.Ends, p: seq<Word>, wanAddr: (Word, Word))
    requires Translatable(p) && From(e, p)
    ensures Leaves(e, p, Translated(p, true, wanAddr, e.wanId), wanAddr)
  {
    hide Translated, Whole;
    TranslatedFields(p, true, wanAddr, e.wanId);
  }

  lemma OutDropped(v: View, p: seq<Word>, wanAddr: (Word, Word), now: int, w: View)
    requires Translatable(p) && w.Keys == v.Keys && (forall u | u in v :: w[u] == v[u])
    requires forall u | u in v :: !From(v[u].ends, p)
    ensures Step(v, Out(p, wanAddr, now, p, null), w)
  {
    hide From, Translatable;
  }

  lemma OutSent(v: View, p: seq<Word>, wanAddr: (Word, Word), now: int, q: seq<Word>, s: Nat.Session, w: View)
    requires Translatable(p) && w.Keys == v.Keys + {s} && Leaves(w[s].ends, p, q, wanAddr) && w[s].upTime == now
    requires forall u | u in v :: u in w && w[u].ends == v[u].ends && (u != s ==> w[u] == v[u])
    requires s in v ==> w[s].short == (v[s].short && !Established(p))
    requires s !in v ==>
      (p[4] / 0x100 == 6 ==> Syn(p)) && (w[s].short <==> p[4] / 0x100 == 1 || p[4] / 0x100 == 6)
    ensures Step(v, Out(p, wanAddr, now, q, s), w)
  {
    hide Leaves, Translatable, Syn;
  }

  lemma WanStep(t: Nat.Table, s: Nat.Session?, p: seq<Word>, q: seq<Word>)
    requires Translatable(p)
    requires if s == null then forall u | u in t.sessions ::
      !(u.protocol == IpPacket.Protocol(p) && u.wanId == Id(p, false))
             else s in t.sessions && s.protocol == IpPacket.Protocol(p) && s.wanId == Id(p, false)
    requires q == if s == null then p else Translated(p, false, s.addr, s.lanId)
    ensures Step(t.View(), In(p, q, s), t.View())
  {
    hide Translated, Whole;
    if s != null {
      TranslatedFields(p, false, s.addr, s.lanId);
    }
  }

  /** The rewriting at the end of `ixc_nat_do`. */
  method Rename(pkt: array<Word>, idPtr: nat, csumPtr: nat, isSrc: bool, addr: (Word, Word), id: Word)
    requires Whole(pkt[..]) && Nat.Supported(IpPacket.Protocol(pkt[..]))
    requires Placed(pkt[..], isSrc, idPtr, csumPtr)
    modifies pkt
    ensures pkt[..] == Translated(old(pkt[..]), isSrc, addr, id)
    ensures Whole(pkt[..])
  {
    ghost var p := pkt[..];
    TranslatedFields(p, isSrc, addr, id);
    IpPacket.RewrittenLayout(p, if isSrc then IpPacket.SRC else IpPacket.DST, addr.0, addr.1);
    IpPacket.RewriteIpAddr(pkt, addr.0, addr.1, isSrc);
    var csum := Netutils.CsumIncre(pkt[idPtr], id, pkt[csumPtr]);
    pkt[idPtr] := id;
    pkt[csumPtr] := csum;
  }

  // ---------- whole runs ----------

  /** One session per LAN endpoint and one per WAN ID. */
  ghost predicate Bijective(v: View) {
    forall s, u | s in v && u in v && v[s].ends.protocol == v[u].ends.protocol ::
      && (v[s].ends.addr == v[u].ends.addr && v[s].ends.lanId == v[u].ends.lanId <==> s == u)
      && (v[s].ends.wanId == v[u].ends.wanId <==> s == u)
  }

  /** A run of packets and polls with the sessions before each event and at the end. A session that is
      gone does not come back. */
  ghost predicate Runs(views: seq<View>, events: seq<Event>) {
    && |views| == |events| + 1 && (forall k | 0 <= k < |views| :: Bijective(views[k]))
    && (forall k {:trigger events[k]} | 0 <= k < |events| :: Step(views[k], events[k], views[k + 1]))
    && (forall i, k, j, s | 0 <= i <= k <= j < |views| && s in views[i] && s in views[j] :: s in views[k])
  }

  /** As long as a session lives it translates the same. */
  lemma {:induction false} Constant(views: seq<View>, events: seq<Event>, s: Nat.Session, i: nat, j: nat)
    requires Runs(views, events) && i <= j < |views| && s in views[i] && s in views[j]
    ensures views[j][s].ends == views[i][s].ends
  {
    if i < j {
      Constant(views, events, s, i, j - 1);
      assert Step(views[j - 1], events[j - 1], views[j]);
    }
  }

  /** Two packets of one protocol with the same source: words 6 and 7 of the IP header and the first word
      of TCP and UDP, or the identifier of an ICMP echo. */
  ghost predicate SameSource(p: seq<Word>, q: seq<Word>) {
    && Translatable(p) && Translatable(q) && p[4] / 0x100 == q[4] / 0x100 && p[6] == q[6] && p[7] == q[7]
    && var h, l := p[0] % 0x10 * 2, q[0] % 0x10 * 2; if p[4] / 0x100 == 1 then p[h + 2] == q[l + 2] else p[h] == q[l]
  }

  /** They leave under the same WAN port. */
  ghost predicate SamePort(p: seq<Word>, q: seq<Word>) {
    && Translatable(p) && Translatable(q) && p[4] / 0x100 == q[4] / 0x100
    && var h, l := p[0] % 0x10 * 2, q[0] % 0x10 * 2; if p[4] / 0x100 == 1 then p[h + 2] == q[l + 2] else p[h] == q[l]
  }

  /** `r` is addressed to the port `p` was sent from: the second word of TCP and UDP against the first. */
  ghost predicate ReplyTo(r: seq<Word>, p: seq<Word>) {
    && Translatable(r) && Translatable(p) && r[4] / 0x100 == p[4] / 0x100
    && var h, l := r[0] % 0x10 * 2, p[0] % 0x10 * 2;
       if r[4] / 0x100 == 1 then r[h + 2] == p[l + 2] else r[h + 1] == p[l]
  }

  /** RFC 4787 section 4.1, endpoint-independent mapping: packet i left, and its session is still in the
      table when packet j comes from the LAN, however much has happened in between. If the two have the
      same source, packet j leaves, and under the same WAN port, whatever the destinations; and if they
      leave under the same WAN port they have the same source. */
  lemma OneWanPort(views: seq<View>, events: seq<Event>, i: nat, j: nat)
    requires Runs(views, events) && i < j < |events| && events[i].Out? && events[j].Out?
    requires events[i].via != null && events[i].via in views[j]
    ensures SameSource(events[i].p, events[j].p) ==> events[j].via == events[i].via
    ensures events[j].via != null ==>
      (SameSource(events[i].p, events[j].p) <==> SamePort(events[i].q, events[j].q))
  {
    hide Translated;
    var s, u := events[i].via, events[j].via;
    assert Step(views[i], events[i], views[i + 1]) && Step(views[j], events[j], views[j + 1]);
    Constant(views, events, s, i + 1, j);
    var e := views[j][s].ends;
    TranslatedFields(events[i].p, true, events[i].wanAddr, e.wanId);
    if u != null {
      TranslatedFields(events[j].p, true, events[j].wanAddr, views[j + 1][u].ends.wanId);
      assert Bijective(views[j + 1]);
    }
  }

  /** The translation is undone by the reply: packet i left, and its session is still in the table when
      packet j comes from the WAN for the port packet i left under. Then packet j is not dropped and
      reaches exactly the address and port packet i came from, with its own source as it was. */
  lemma ReplyReturns(views: seq<View>, events: seq<Event>, i: nat, j: nat)
    requires Runs(views, events) && i < j < |events| && events[i].Out? && events[j].In?
    requires events[i].via != null && events[i].via in views[j]
    requires ReplyTo(events[j].p, events[i].q)
    ensures var p, r, r2 := events[i].p, events[j].p, events[j].q;
      && events[j].via == events[i].via && ReplyTo(r2, p)
      && r2[8] == p[6] && r2[9] == p[7] && r2[6] == r[6] && r2[7] == r[7]
      && (p[4] / 0x100 != 1 ==> var h := r[0] % 0x10 * 2; r2[h] == r[h])
  {
    hide Translated;
    var s := events[i].via;
    assert Step(views[i], events[i], views[i + 1]) && Step(views[j], events[j], views[j + 1]);
    Constant(views, events, s, i + 1, j);
    var e := views[j][s].ends;
    TranslatedFields(events[i].p, true, events[i].wanAddr, e.wanId);
    assert For(e, events[j].p);
    TranslatedFields(events[j].p, false, e.addr, e.lanId);
    assert Bijective(views[j]);
  }

  // ---------- how long a session lives ----------

  /** When the session's last packet from the LAN was, among the events i up to k; event i is one. */
  ghost function LastOut(events: seq<Event>, s: Nat.Session, i: nat, k: nat): int
    requires i < k <= |events| && events[i].Out?
  {
    if events[k - 1].Out? && events[k - 1].via == s then events[k - 1].now
    else if k - 1 == i then events[i].now
    else LastOut(events, s, i, k - 1)
  }

  /** Given memory no callback ends the session: it comes within `limit` of its last packet from the LAN. */
  ghost predicate Spared(events: seq<Event>, s: Nat.Session, i: nat, k: nat, limit: int)
    requires i < k < |events| && events[i].Out?
  {
    events[k].Poll? ==> events[k].grant(s) && events[k].now + events[k].delay(s) - LastOut(events, s, i, k) < limit
  }

  /** A session that a packet from the LAN has just used survives any run in which every callback comes
      within ten seconds of its last packet from the LAN; within 180, if it is not new TCP or ICMP. */
  lemma {:induction false} Survives(views: seq<View>, events: seq<Event>, s: Nat.Session, i: nat, j: nat, limit: int)
    requires Runs(views, events) && i < j <= |events| && events[i].Out? && events[i].via == s
    requires limit == if views[i + 1][s].short then 10 else 180
    requires forall k | i < k < j :: Spared(events, s, i, k, limit)
    ensures s in views[j] && views[j][s].upTime == LastOut(events, s, i, j)
    ensures views[j][s].short ==> views[i + 1][s].short
  {
    hide Step, Bijective, LastOut;
    assert Step(views[j - 1], events[j - 1], views[j]);
    OneStep(views[j - 1], events[j - 1], views[j], s);
    LastIs(events, s, i, j);
    if i + 1 < j {
      Survives(views, events, s, i, j - 1, limit);
      assert Spared(events, s, i, j - 1, limit);
    }
  }

  lemma LastIs(events: seq<Event>, s: Nat.Session, i: nat, k: nat)
    requires i < k <= |events| && events[i].Out? && events[i].via == s
    ensures LastOut(events, s, i, k) ==
      if events[k - 1].Out? && events[k - 1].via == s then events[k - 1].now else LastOut(events, s, i, k - 1)
  {
  }

  /** A reply that comes while the callbacks spare the session of the packet it answers is not dropped and
      reaches exactly the address and port the packet came from. */
  lemma ReplyInTime(views: seq<View>, events: seq<Event>, i: nat, j: nat, limit: int)
    requires Runs(views, events) && i < j < |events| && events[i].Out? && events[i].via != null && events[j].In?
    requires limit == if views[i + 1][events[i].via].short then 10 else 180
    requires forall k | i < k < j :: Spared(events, events[i].via, i, k, limit)
    requires ReplyTo(events[j].p, events[i].q)
    ensures var p, r2 := events[i].p, events[j].q;
      events[j].via == events[i].via && ReplyTo(r2, p) && r2[8] == p[6] && r2[9] == p[7]
  {
    hide *;
    Survives(views, events, events[i].via, i, j, limit);
    ReplyReturns(views, events, i, j);
  }

  /** TCP gets the long timeout with its first packet that is not SYN. */
  lemma LongTcp(views: seq<View>, events: seq<Event>, i: nat)
    requires Runs(views, events) && i < |events| && events[i].Out? && events[i].via != null
    requires var p := events[i].p;
      && Translatable(p) && p[4] / 0x100 == 6 && var h := p[0] % 0x10 * 2; p[h + 6] / 0x100 / 2 % 2 == 0
    ensures var s := events[i].via; s in views[i] && s in views[i + 1] && !views[i + 1][s].short
  {
    assert Step(views[i], events[i], views[i + 1]);
  }

  /** In a run from an empty table UDP has it from the start. */
  lemma {:induction false} LongUdp(views: seq<View>, events: seq<Event>, s: Nat.Session, j: nat)
    requires Runs(views, events) && views[0] == map[] && j < |views| && s in views[j]
    ensures views[j][s].short ==> views[j][s].ends.protocol == 1 || views[j][s].ends.protocol == 6
  {
    hide Opens, Arrives;
    if j > 0 {
      assert Step(views[j - 1], events[j - 1], views[j]);
      if s in views[j - 1] {
        LongUdp(views, events, s, j - 1);
      }
    }
  }

  /** No session outlives a poll that comes 190 seconds or more after its last packet from the LAN. */
  lemma {:induction false} Idle(views: seq<View>, events: seq<Event>, s: Nat.Session, i: nat, j: nat)
    requires Runs(views, events) && i < j < |events| && events[i].Out? && events[i].via == s
    requires s in views[j] && events[j].Poll? && events[j].now - LastOut(events, s, i, j) >= 190
    ensures s !in views[j + 1]
  {
    hide Leaves, Opens, Translatable, Arrives;
    assert Step(views[i], events[i], views[i + 1]) && Step(views[j], events[j], views[j + 1]);
    YoungAt(views, events, s, i, j);
  }

  lemma {:induction false} YoungAt(views: seq<View>, events: seq<Event>, s: Nat.Session, i: nat, j: nat)
    requires Runs(views, events) && i < j < |views| && events[i].Out? && events[i].via == s && s in views[j]
    ensures views[j][s].upTime == LastOut(events, s, i, j)
  {
    hide Step, Bijective;
    OneStep(views[j - 1], events[j - 1], views[j], s);
    assert Step(views[i], events[i], views[i + 1]);
    OneStep(views[i], events[i], views[i + 1], s);
    if i + 1 < j {
      YoungAt(views, events, s, i, j - 1);
    }
  }

  /** What one event means for one session. */
  lemma OneStep(v: View, e: Event, w: View, s: Nat.Session)
    requires Step(v, e, w)
    ensures e.Out? && e.via == s ==> s in w && w[s].upTime == e.now
    ensures e.Out? && e.via == s && s in v && w[s].short ==> v[s].short
    ensures !(e.Out? && e.via == s) && s in v && s in w ==> w[s] == v[s]
    ensures s in v && s !in w ==>
      e.Poll? && !(e.grant(s) && e.now + e.delay(s) - v[s].upTime < if v[s].short then 10 else 180)
  {
  }
}
