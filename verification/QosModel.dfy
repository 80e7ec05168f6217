/** What the scheduler of `ixc_syscore/router/src/qos.c` does to its queues, and what follows over
    whole runs. */
module QosModel {
  import opened Bytes

  const SLOTS := 32768

  ghost predicate Distinct(s: seq<nat>) {
    forall i, j | 0 <= i < j < |s| :: s[i] != s[j]
  }

  /** One queue per slot, and the slots in the order the active list holds them. */
  datatype State<M> = State(queues: seq<seq<M>>, active: seq<nat>) {
    ghost predicate Ok() {
      && (forall i | 0 <= i < |active| :: active[i] < |queues|)
      && Distinct(active)
      && (forall k: nat | k < |queues| :: k in active <==> queues[k] != [])
    }
  }

  /** A packet joins its slot; a slot that was idle goes to the head of the active list. */
  function Put<M>(s: State<M>, k: nat, m: M): (r: State<M>)
    requires k < |s.queues|
    ensures |r.queues| == |s.queues|
  {
    State(s.queues[k := s.queues[k] + [m]], if s.queues[k] == [] then [k] + s.active else s.active)
  }

  function Tail<M>(q: seq<M>): seq<M> {
    if q == [] then [] else q[1..]
  }

  /** The slots of the list that have more than one packet. */
  function Busy<M>(active: seq<nat>, queues: seq<seq<M>>): (r: seq<nat>)
    requires forall i | 0 <= i < |active| :: active[i] < |queues|
  {
    if active == [] then []
    else (if |queues[active[0]]| > 1 then [active[0]] else []) + Busy(active[1..], queues)
  }

  /** Every queue loses its first packet; slots that run empty leave the active list. */
  function Pop<M>(s: State<M>): (r: State<M>)
    requires s.Ok()
    ensures |r.queues| == |s.queues|
  {
    State(seq(|s.queues|, k requires 0 <= k < |s.queues| => Tail(s.queues[k])), Busy(s.active, s.queues))
  }

  /** What one pass sends: one packet from each active slot, in list order. */
  function Popped<M>(s: State<M>): (r: seq<M>)
    requires s.Ok()
    ensures |r| == |s.active|
  {
    seq(|s.active|, i requires 0 <= i < |s.active| => s.queues[s.active[i]][0])
  }

  lemma {:induction false} BusyIs<M>(active: seq<nat>, queues: seq<seq<M>>)
    requires forall i | 0 <= i < |active| :: active[i] < |queues|
    requires Distinct(active)
    ensures forall k :: k in Busy(active, queues) <==> k in active && |queues[k]| > 1
    ensures Distinct(Busy(active, queues))
  {
    if active != [] {
      BusyIs(active[1..], queues);
      var rest := Busy(active[1..], queues);
      assert active[0] !in active[1..];
      if |queues[active[0]]| > 1 {
        assert Busy(active, queues) == [active[0]] + rest;
        assert active[0] !in rest;
      }
    }
  }

  lemma {:induction false} BusySnoc<M>(active: seq<nat>, k: nat, queues: seq<seq<M>>)
    requires k < |queues| && forall i | 0 <= i < |active| :: active[i] < |queues|
    ensures forall i | 0 <= i < |active + [k]| :: (active + [k])[i] < |queues|
    ensures Busy(active + [k], queues) == Busy(active, queues) + if |queues[k]| > 1 then [k] else []
  {
    if active == [] {
      assert active + [k] == [k] && [k][1..] == [];
    } else {
      var all := active + [k];
      assert all[0] == active[0] && all[1..] == active[1..] + [k];
      BusySnoc(active[1..], k, queues);
      var first, last := if |queues[active[0]]| > 1 then [active[0]] else [], if |queues[k]| > 1 then [k] else [];
      Behind(first, Busy(active[1..], queues), last);
    }
  }

  lemma PutOk<M>(s: State<M>, k: nat, m: M)
    requires s.Ok() && k < |s.queues|
    ensures Put(s, k, m).Ok()
  {
    var r := Put(s, k, m);
    forall l: nat | l < |r.queues|
      ensures l in r.active <==> r.queues[l] != []
    {
      assert l in s.active <==> s.queues[l] != [];
    }
  }

  lemma PopOk<M>(s: State<M>)
    requires s.Ok()
    ensures Pop(s).Ok()
  {
    BusyIs(s.active, s.queues);
    var r := Pop(s);
    forall i | 0 <= i < |r.active|
      ensures r.active[i] < |r.queues|
    {
      assert r.active[i] in s.active;
    }
    forall l: nat | l < |r.queues|
      ensures l in r.active <==> r.queues[l] != []
    {
      assert l in s.active <==> s.queues[l] != [];
    }
  }

  /** A pass sends the first packet of every slot that has one, and one packet for each. */
  lemma PassSends<M>(s: State<M>)
    requires s.Ok()
    ensures forall k: nat | k < |s.queues| && s.queues[k] != [] :: s.queues[k][0] in Popped(s)
    ensures |Popped(s)| == |set k: nat | k < |s.queues| && s.queues[k] != []|
  {
    forall k: nat | k < |s.queues| && s.queues[k] != []
      ensures s.queues[k][0] in Popped(s)
    {
      assert k in s.active;
      var i :| 0 <= i < |s.active| && s.active[i] == k;
      assert Popped(s)[i] == s.queues[k][0];
    }
    var full := set k: nat | k < |s.queues| && s.queues[k] != [];
    HowMany(s.active);
    assert full == Members(s.active);
  }

  ghost function Members(s: seq<nat>): set<nat> {
    set k | k in s
  }

  lemma {:induction false} HowMany(s: seq<nat>)
    requires Distinct(s)
    ensures |Members(s)| == |s|
  {
    hide *;
    MembersOf(s);
    if s != [] {
      FirstApart(s);
      HowMany(s[1..]);
    }
  }

  lemma MembersOf(s: seq<nat>)
    ensures s == [] ==> Members(s) == {}
    ensures s != [] ==> Members(s) == Members(s[1..]) + {s[0]}
  {
    if s != [] {
      assert s == [s[0]] + s[1..];
    }
  }

  lemma FirstApart(s: seq<nat>)
    requires Distinct(s) && s != []
    ensures Distinct(s[1..]) && s[0] !in Members(s[1..])
  {
  }

  /** The slot that has been idle is served first in the next pass, before all others; a packet for a
      slot in use makes no difference to it. */
  lemma NewestFirst<M>(s: State<M>, k: nat, m: M)
    requires s.Ok() && k < |s.queues|
    ensures Put(s, k, m).Ok()
    ensures Popped(Put(s, k, m)) == if s.queues[k] == [] then [m] + Popped(s) else Popped(s)
  {
    PutOk(s, k, m);
    var r := Put(s, k, m);
    if s.queues[k] == [] {
      assert k !in s.active;
      forall i | 0 <= i < |s.active|
        ensures Popped(r)[i + 1] == Popped(s)[i]
      {
        assert r.active[i + 1] == s.active[i] && s.active[i] != k;
      }
    } else {
      forall i | 0 <= i < |s.active|
        ensures Popped(r)[i] == Popped(s)[i]
      {
        assert s.active[i] in s.active;
      }
    }
  }

  /** The slots that are served again are served in the same order. */
  lemma {:induction false} SameOrder<M>(active: seq<nat>, queues: seq<seq<M>>, i: nat, j: nat) returns (k: nat, l: nat)
    requires forall n | 0 <= n < |active| :: active[n] < |queues|
    requires i < j < |Busy(active, queues)|
    ensures k < l < |active| && active[k] == Busy(active, queues)[i] && active[l] == Busy(active, queues)[j]
  {
    var rest := Busy(active[1..], queues);
    if |queues[active[0]]| > 1 {
      if i == 0 {
        l := Position(active[1..], queues, j - 1);
        k, l := 0, l + 1;
      } else {
        k, l := SameOrder(active[1..], queues, i - 1, j - 1);
        k, l := k + 1, l + 1;
      }
    } else {
      k, l := SameOrder(active[1..], queues, i, j);
      k, l := k + 1, l + 1;
    }
  }

  lemma {:induction false} Position<M>(active: seq<nat>, queues: seq<seq<M>>, j: nat) returns (l: nat)
    requires forall n | 0 <= n < |active| :: active[n] < |queues|
    requires j < |Busy(active, queues)|
    ensures l < |active| && active[l] == Busy(active, queues)[j]
  {
    if |queues[active[0]]| > 1 && j == 0 {
      l := 0;
    } else {
      l := Position(active[1..], queues, if |queues[active[0]]| > 1 then j - 1 else j);
      l := l + 1;
    }
  }

  // ---------- one pass, slot by slot ----------

  /** The state when the pass has served the first n active slots. */
  function Part<M>(s: State<M>, n: nat): (r: State<M>)
    requires s.Ok() && n <= |s.active|
    ensures |r.queues| == |s.queues|
  {
    State(seq(|s.queues|, k requires 0 <= k < |s.queues| =>
            if k in s.active[..n] then Tail(s.queues[k]) else s.queues[k]),
          Busy(s.active[..n], s.queues) + s.active[n..])
  }

  /** The slots the pass has kept so far. */
  ghost function KeptOf<M>(s: State<M>, n: nat): seq<nat>
    requires s.Ok() && n <= |s.active|
  {
    Busy(s.active[..n], s.queues)
  }

  lemma PartNone<M>(s: State<M>)
    requires s.Ok()
    ensures Part(s, 0) == s && s.active[..0] == []
  {
    assert Part(s, 0).queues == s.queues;
  }

  lemma PartAll<M>(s: State<M>)
    requires s.Ok()
    ensures Part(s, |s.active|) == Pop(s)
  {
    assert s.active[..|s.active|] == s.active;
    forall k: nat | k < |s.queues|
      ensures Part(s, |s.active|).queues[k] == Pop(s).queues[k]
    {
      assert k in s.active <==> s.queues[k] != [];
    }
    assert Part(s, |s.active|).queues == Pop(s).queues;
  }

  lemma BusyStep<M>(s: State<M>, n: nat)
    requires s.Ok() && n < |s.active|
    ensures forall i | 0 <= i < |s.active| :: s.active[i] < |s.queues|
    ensures Busy(s.active[..n + 1], s.queues) ==
      Busy(s.active[..n], s.queues) + if |s.queues[s.active[n]]| > 1 then [s.active[n]] else []
  {
    assert s.active[..n + 1] == s.active[..n] + [s.active[n]];
    BusySnoc(s.active[..n], s.active[n], s.queues);
  }

  lemma PartStep<M>(s: State<M>, n: nat)
    requires s.Ok() && n < |s.active|
    ensures var k := s.active[n];
      && k < |s.queues| && Part(s, n).queues[k] == s.queues[k] != []
      && Part(s, n + 1).queues == Part(s, n).queues[k := s.queues[k][1..]]
    ensures var k := s.active[n];
      && Part(s, n).active == Busy(s.active[..n], s.queues) + [k] + s.active[n + 1..]
      && Part(s, n + 1).active
           == Busy(s.active[..n], s.queues) + (if |s.queues[k]| > 1 then [k] else []) + s.active[n + 1..]
  {
    var k := s.active[n];
    assert k in s.active;
    BusyStep(s, n);
    assert s.active[n..] == [k] + s.active[n + 1..];
    PartQueues(s, n);
  }

  lemma PartQueues<M>(s: State<M>, n: nat)
    requires s.Ok() && n < |s.active|
    ensures var k := s.active[n];
      && Part(s, n).queues[k] == s.queues[k]
      && (s.queues[k] != [] ==> Part(s, n + 1).queues == Part(s, n).queues[k := s.queues[k][1..]])
  {
    hide Busy;
    var k := s.active[n];
    assert s.active[..n + 1] == s.active[..n] + [k];
    assert k !in s.active[..n];
    assert forall l :: l in s.active[..n + 1] <==> l in s.active[..n] || l == k;
    if s.queues[k] != [] {
      assert Part(s, n + 1).queues == Part(s, n).queues[k := s.queues[k][1..]];
    }
  }

  lemma PartDistinct<M>(s: State<M>, n: nat)
    requires s.Ok() && n <= |s.active|
    ensures Distinct(Part(s, n).active) && forall i | 0 <= i < |Part(s, n).active| :: Part(s, n).active[i] < |s.queues|
  {
    var done, rest := Busy(s.active[..n], s.queues), s.active[n..];
    BusyIs(s.active[..n], s.queues);
    forall i, j | 0 <= i < |done| && 0 <= j < |rest|
      ensures done[i] != rest[j]
    {
      assert done[i] in s.active[..n];
    }
    forall i | 0 <= i < |done + rest|
      ensures (done + rest)[i] < |s.queues|
    {
      if i < |done| {
        assert done[i] in s.active[..n];
      }
    }
  }

  // ---------- runs ----------

  datatype Event<M> = Arrival(slot: nat, packet: M) | Pass

  ghost predicate Fits<M>(events: seq<Event<M>>, n: nat) {
    forall i | 0 <= i < |events| && events[i].Arrival? :: events[i].slot < n
  }

  ghost function Step<M>(s: State<M>, e: Event<M>): (r: State<M>)
    requires s.Ok() && (e.Arrival? ==> e.slot < |s.queues|)
    ensures r.Ok() && |r.queues| == |s.queues|
  {
    match e
    case Arrival(k, m) => PutOk(s, k, m); Put(s, k, m)
    case Pass => PopOk(s); Pop(s)
  }

  ghost function Run<M>(s: State<M>, events: seq<Event<M>>): (r: State<M>)
    requires s.Ok() && Fits(events, |s.queues|)
    ensures r.Ok() && |r.queues| == |s.queues|
    decreases |events|
  {
    if events == [] then s else Run(Step(s, events[0]), events[1..])
  }

  /** What a run sends from one slot, in order. */
  ghost function Sent<M>(s: State<M>, events: seq<Event<M>>, k: nat): seq<M>
    requires s.Ok() && Fits(events, |s.queues|) && k < |s.queues|
    decreases |events|
  {
    if events == [] then []
    else
      (if events[0].Pass? && s.queues[k] != [] then [s.queues[k][0]] else []) + Sent(Step(s, events[0]), events[1..], k)
  }

  /** What a run brings into one slot, in order. */
  ghost function Given<M>(events: seq<Event<M>>, k: nat): seq<M> {
    if events == [] then []
    else (if events[0].Arrival? && events[0].slot == k then [events[0].packet] else []) + Given(events[1..], k)
  }

  ghost function Passes<M>(events: seq<Event<M>>): nat {
    if events == [] then 0 else (if events[0].Pass? then 1 else 0) + Passes(events[1..])
  }

  /** Over any run, what a slot sent followed by what it still holds is what it held followed by what
      came in: nothing is lost, doubled or overtaken. */
  lemma {:induction false} FirstInFirstOut<M>(s: State<M>, events: seq<Event<M>>, k: nat)
    requires s.Ok() && Fits(events, |s.queues|) && k < |s.queues|
    ensures Sent(s, events, k) + Run(s, events).queues[k] == s.queues[k] + Given(events, k)
    decreases |events|
  {
    hide Step, Sent, Run, Given;
    Unrolled(s, events, k);
    if events != [] {
      var r := Step(s, events[0]);
      FirstInFirstOut(r, events[1..], k);
      var sent, left, given := Sent(r, events[1..], k), Run(r, events[1..]).queues[k], Given(events[1..], k);
      StepQueue(s, events[0], k);
      if events[0].Pass? {
        Ahead(if s.queues[k] != [] then [s.queues[k][0]] else [], sent, left, r.queues[k], given);
      } else {
        Behind(s.queues[k], if events[0].slot == k then [events[0].packet] else [], given);
      }
    }
  }

  /** The first event of a run, and the rest. */
  lemma Unrolled<M>(s: State<M>, events: seq<Event<M>>, k: nat)
    requires s.Ok() && Fits(events, |s.queues|) && k < |s.queues|
    ensures events == [] ==> Sent(s, events, k) == [] && Run(s, events) == s && Given(events, k) == []
    ensures events != [] ==>
      var r, rest, head := Step(s, events[0]), events[1..], s.queues[k];
      && Run(s, events) == Run(r, rest)
      && Sent(s, events, k) == (if events[0].Pass? && head != [] then [head[0]] else []) + Sent(r, rest, k)
      && Given(events, k)
           == (if events[0].Arrival? && events[0].slot == k then [events[0].packet] else []) + Given(rest, k)
      && (events[0].Arrival? ==> Sent(s, events, k) == Sent(r, rest, k))
      && (events[0].Pass? ==> Given(events, k) == Given(rest, k))
  {
    hide Step;
  }

  lemma StepQueue<M>(s: State<M>, e: Event<M>, k: nat)
    requires s.Ok() && (e.Arrival? ==> e.slot < |s.queues|) && k < |s.queues|
    ensures e.Pass? ==> s.queues[k] == (if s.queues[k] != [] then [s.queues[k][0]] else []) + Step(s, e).queues[k]
    ensures e.Arrival? ==> Step(s, e).queues[k] == s.queues[k] + if e.slot == k then [e.packet] else []
  {
  }

  lemma Ahead<M>(now: seq<M>, sent: seq<M>, left: seq<M>, queue: seq<M>, given: seq<M>)
    requires sent + left == queue + given
    ensures now + sent + left == now + queue + given
  {
    assert now + sent + left == now + (sent + left);
    assert now + queue + given == now + (queue + given);
  }

  lemma Behind<M>(queue: seq<M>, now: seq<M>, given: seq<M>)
    ensures queue + now + given == queue + (now + given)
  {
  }

  /** Each pass takes at most one packet of a slot, and one as long as there is one: the packet at
      position i leaves with pass number i + 1, whatever the other slots hold. */
  lemma {:induction false} InTurn<M>(s: State<M>, events: seq<Event<M>>, k: nat)
    requires s.Ok() && Fits(events, |s.queues|) && k < |s.queues|
    ensures |Sent(s, events, k)| <= Passes(events)
    ensures forall i | 0 <= i < |s.queues[k]| ::
      i < Passes(events) <==> i < |Sent(s, events, k)| && Sent(s, events, k)[i] == s.queues[k][i]
  {
    FirstInFirstOut(s, events, k);
    AtLeast(s, events, k);
    forall i | 0 <= i < |s.queues[k]| && i < |Sent(s, events, k)|
      ensures Sent(s, events, k)[i] == s.queues[k][i]
    {
      assert (Sent(s, events, k) + Run(s, events).queues[k])[i] == (s.queues[k] + Given(events, k))[i];
    }
  }

  lemma {:induction false} AtLeast<M>(s: State<M>, events: seq<Event<M>>, k: nat)
    requires s.Ok() && Fits(events, |s.queues|) && k < |s.queues|
    ensures |Sent(s, events, k)| <= Passes(events)
    ensures |Sent(s, events, k)| >= if Passes(events) < |s.queues[k]| then Passes(events) else |s.queues[k]|
    decreases |events|
  {
    if events != [] {
      AtLeast(Step(s, events[0]), events[1..], k);
    }
  }

  // ---------- the slot of a packet ----------

  /** The eight bytes as the little-endian integer `ixc_qos_calc_slot` copies them into. */
  function Load(buf: seq<Byte>): nat {
    if buf == [] then 0 else buf[0] + 0x100 * Load(buf[1..])
  }

  /** `ixc_qos_calc_slot`, from the four address bytes it copies of each end: all of an IPv4 address,
      the last four of an IPv6 address. */
  function CalcSlot(src: seq<Byte>, dst: seq<Byte>): (k: nat)
    requires |src| == 4 && |dst| == 4
    ensures k < SLOTS
  {
    Load(src + dst) % SLOTS
  }

  /** Two packets share a slot exactly when the first source bytes are equal and the second ones
      agree in their low seven bits: the rest of the source and the whole destination do not count. */
  lemma SameSlot(src: seq<Byte>, dst: seq<Byte>, src2: seq<Byte>, dst2: seq<Byte>)
    requires |src| == 4 && |dst| == 4 && |src2| == 4 && |dst2| == 4
    ensures CalcSlot(src, dst) == CalcSlot(src2, dst2) <==> src[0] == src2[0] && src[1] % 0x80 == src2[1] % 0x80
  {
    LowBytes(src, dst);
    LowBytes(src2, dst2);
  }

  lemma LowBytes(src: seq<Byte>, dst: seq<Byte>)
    requires |src| == 4 && |dst| == 4
    ensures CalcSlot(src, dst) == src[0] as int + 0x100 * (src[1] as int % 0x80)
  {
    var buf := src + dst;
    var high := Load(buf[1..][1..]);
    assert buf[1..] != [] && buf[1..][0] == buf[1];
    assert Load(buf[1..]) == buf[1] + 0x100 * high;
    assert Load(buf) == buf[0] + 0x100 * (buf[1] + 0x100 * high);
    assert Load(buf) == src[0] as int + 0x100 * (src[1] as int % 0x80) + SLOTS * (src[1] as int / 0x80 + 2 * high);
    Remainder(src[0] as int + 0x100 * (src[1] as int % 0x80), src[1] as int / 0x80 + 2 * high);
  }

  lemma Remainder(r: nat, q: nat)
    requires r < SLOTS
    ensures (r + SLOTS * q) % SLOTS == r
  {
  }
}
