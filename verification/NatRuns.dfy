/** The NAT at work: packets from both sides and polls of the wheel, in any order. What holds of one
    call makes every such run one of those that the results of `NatPackets` speak of. */
module NatRuns {
  import opened Bytes
  import opened NatPackets
  import Nat

  /** What comes in: a packet, with what the allocator does for it, or a poll, with the delay of each
      callback and whether it gets memory. */
  datatype Request =
    | Packet(p: seq<Word>, isSrc: bool, wanAddr: (Word, Word), now: int, mapped: Word -> bool, g: Nat.Grants)
    | Tick(now: int, delay: Nat.Session -> nat, grant: Nat.Session -> bool)

  /** Whole packets, a clock that does not run back, and at most `gap` seconds from poll to poll. */
  ghost predicate Proper(requests: seq<Request>, last: int, tick: int, gap: nat)
    decreases |requests|
  {
    requests == [] ||
    match requests[0]
    case Packet(p, isSrc, _, now, _, _) =>
      Whole(p) && (!isSrc ==> !CarriesError(p)) && last <= now && Proper(requests[1..], now, tick, gap)
    case Tick(now, _, _) => last <= now <= tick + gap && Proper(requests[1..], now, now, gap)
  }

  /** The event is about the request. */
  ghost predicate About(e: Event, r: Request) {
    match r
    case Packet(p, true, wanAddr, now, _, _) => e.Out? && e.p == p && e.wanAddr == wanAddr && e.now == now
    case Packet(p, false, _, _, _, _) => e.In? && e.p == p
    case Tick(now, delay, grant) => e == Poll(now, delay, grant)
  }

  /** The wheel was moved less than a tick before the last poll. */
  ghost predicate OnTime(t: Nat.Table, last: int, tick: int)
    reads t.wheel`oldTime
  {
    t.wheel.oldTime <= last && tick - t.wheel.oldTime < Nat.IO_WAIT_TIMEOUT
  }

  lemma ViewBijective(t: Nat.Table)
    requires t.Valid()
    ensures Bijective(t.View())
  {
    hide t.Valid;
    var v := t.View();
    forall s, u | s in v && u in v && v[s].ends.protocol == v[u].ends.protocol
      ensures v[s].ends.addr == v[u].ends.addr && v[s].ends.lanId == v[u].ends.lanId <==> s == u
      ensures v[s].ends.wanId == v[u].ends.wanId <==> s == u
    {
      t.OneSession(s, u);
    }
  }

  twostate lemma PollStep(t: Nat.Table, new now: int, new delay: Nat.Session -> nat, new grant: Nat.Session -> bool)
    requires t.sessions <= old(t.sessions) && forall s | s in t.sessions :: s.Life() == old(s.Life())
    requires forall s | s in old(t.sessions) && grant(s) ::
      now + delay(s) - old(s.upTime) < (if old(s.minTimeout) then 10 else 180) ==> s in t.sessions
    requires forall s | s in t.sessions :: now - s.upTime < if s.minTimeout then 20 else 190
    ensures Step(old(t.View()), Poll(now, delay, grant), t.View())
  {
  }

  /** Only a packet from the LAN makes a session, its own. */
  lemma StepKeys(v: View, e: Event, w: View)
    requires Step(v, e, w)
    ensures forall s | s in w.Keys :: s in v.Keys || (e.Out? && s == e.via)
  {
  }

  /** A packet in a buffer of its own. */
  method Buffer(t: Nat.Table, p: seq<Word>) returns (pkt: array<Word>)
    ensures fresh(pkt) && pkt[..] == p && pkt !in t.Repr()
  {
    hide t.AllMinted;
    ghost var own := t.Repr();
    pkt := new Word[|p|](i requires 0 <= i < |p| => p[i]);
    assert t.Repr() == own && pkt !in own;
  }

  /** One request. */
  method Serve(t: Nat.Table, r: Request, ghost last: int, ghost tick: int, ghost gap: nat)
    returns (ghost e: Event)
    requires t.Valid() && OnTime(t, last, tick) && Proper([r], last, tick, gap)
    requires gap + Nat.IO_WAIT_TIMEOUT <= t.wheel.size * Nat.IO_WAIT_TIMEOUT
    modifies t.Repr()
    ensures t.Valid() && OnTime(t, r.now, if r.Tick? then r.now else tick)
    ensures forall o | o in t.Repr() :: o in old(t.Repr()) || !old(allocated(o))
    ensures About(e, r) && Step(old(t.View()), e, t.View())
    ensures forall s | s in t.sessions :: s in old(t.sessions) || !old(allocated(s))
  {
    hide t.Valid, t.Repr, t.View, Step, Whole, CarriesError;
    match r
    case Packet(p, isSrc, wanAddr, now, mapped, g) =>
      var pkt := Buffer(t, p);
      var s := NatDo(t, pkt, isSrc, wanAddr, now, mapped, g);
      e := if isSrc then Out(p, wanAddr, now, pkt[..], s) else In(p, pkt[..], s);
      StepKeys(old(t.View()), e, t.View());
    case Tick(now, delay, grant) =>
      t.Timely(now);
      t.Handle(now, (s: Nat.Session) => now + delay(s), grant);
      PollStep(t, now, delay, grant);
      e := Poll(now, delay, grant);
  }

  /** All sessions of a run so far. */
  ghost predicate Seen(views: seq<View>, seen: set<Nat.Session>) {
    forall k, s | 0 <= k < |views| && s in views[k] :: s in seen
  }

  lemma RunStarts(t: Nat.Table)
    requires t.Valid()
    ensures Runs([t.View()], []) && Seen([t.View()], t.View().Keys)
  {
    hide t.Valid, t.View;
    ViewBijective(t);
  }

  /** One event more, whose new sessions have never been seen. */
  lemma RunGoesOn(views: seq<View>, events: seq<Event>, seen: set<Nat.Session>, e: Event, w: View)
    requires Runs(views, events) && Seen(views, seen) && Bijective(w)
    requires Step(views[|events|], e, w) && forall s | s in w.Keys :: s in views[|events|].Keys || s !in seen
    ensures Runs(views + [w], events + [e]) && Seen(views + [w], seen + w.Keys)
  {
    hide Step, Bijective;
    var more, n := views + [w], |events|;
    forall i, k, j, s | 0 <= i <= k <= j < |more| && s in more[i] && s in more[j]
      ensures s in more[k]
    {
      if i <= n && k <= n && j > n {
        assert s in views[i] && s in w.Keys;
        assert s in views[n];
      }
    }
  }

  lemma ProperHead(requests: seq<Request>, k: nat, last: int, tick: int, gap: nat)
    requires k < |requests| && Proper(requests[k..], last, tick, gap)
    ensures Proper([requests[k]], last, tick, gap)
    ensures Proper(requests[k + 1..], requests[k].now, if requests[k].Tick? then requests[k].now else tick, gap)
  {
    assert requests[k..][1..] == requests[k + 1..];
  }

  /** Any run of requests is a run of packets and polls as `NatPackets` speaks of, from the sessions there
      are to the sessions there are at the end. */
  method Run(t: Nat.Table, requests: seq<Request>, ghost start: int, ghost gap: nat)
    returns (ghost views: seq<View>, ghost events: seq<Event>)
    requires t.Valid() && OnTime(t, start, start) && Proper(requests, start, start, gap)
    requires gap + Nat.IO_WAIT_TIMEOUT <= t.wheel.size * Nat.IO_WAIT_TIMEOUT
    modifies t.Repr()
    ensures t.Valid() && Runs(views, events)
    ensures |events| == |requests| && forall k | 0 <= k < |events| :: About(events[k], requests[k])
    ensures views[0] == old(t.View()) && views[|events|] == t.View()
  {
    hide *;
    views, events := [t.View()], [];
    RunStarts(t);
    ghost var last, tick, seen := start, start, t.View().Keys;
    var k := 0;
    assert requests[0..] == requests;
    while k < |requests|
      invariant 0 <= k <= |requests| && t.Valid() && OnTime(t, last, tick) && Proper(requests[k..], last, tick, gap)
      invariant forall o | o in t.Repr() :: o in old(t.Repr()) || !old(allocated(o))
      invariant |events| == k && |views| == k + 1 && views[0] == old(t.View()) && views[k] == t.View()
      invariant Runs(views, events) && Seen(views, seen)
      invariant forall j | 0 <= j < k :: About(events[j], requests[j])
    {
      ProperHead(requests, k, last, tick, gap);
      label Before:
      ghost var e := Serve(t, requests[k], last, tick, gap);
      ViewBijective(t);
      RunGoesOn(views, events, seen, e, t.View());
      last := requests[k].now;
      tick := if requests[k].Tick? then last else tick;
      views, events, seen := views + [t.View()], events + [e], seen + t.View().Keys;
      k := k + 1;
    }
  }
}
