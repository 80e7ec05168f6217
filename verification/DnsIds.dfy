/** The transaction IDs of the DNS proxy, `ixc_syscore/DNS/ixc_dns_main.py`: a counter, a list of IDs to
    use again, a timer that gives IDs back, and the record of who asked. Times are whole seconds. */
module DnsIds {
  import opened Bytes
  import PyTimer

  const LIFETIME := 5

  /** Who asked under which ID. The address is whatever identifies the client. */
  datatype Record = Record(id: Word, address: int, isIpv6: bool, time: int, fromForward: bool)

  /** How a query ends, as far as its ID goes. */
  datatype Outcome =
    | Short                       // less than fifteen bytes
    | Broken                      // not a message, or not one question
    | Settled                     // answered or dropped on the spot
    | Upstream(fromForward: bool) // sent on under the new ID
    | Cached(fromForward: bool)   // answered from the DNS cache as if a server had

  // ---------- the translator as a state and its steps ----------

  /** `due` and `polled` are the deadlines of the timer and the time it was last asked. */
  datatype State = State(waiting: map<int, Record>, free: seq<int>, cur: int, due: map<int, int>, polled: int,
    cleaned: int) {

    /** The timer still holds the ID back. */
    ghost predicate Pending(id: int) {
      id in due && due[id] > polled
    }

    /** No ID is left. */
    predicate Exhausted() {
      free == [] && cur == 0xffff
    }

    /** The IDs handed out so far are those in the list and those the timer holds back, and no ID is
        both; whoever waits for an answer has an ID that is held back. */
    ghost predicate Sound() {
      && 1 <= cur <= 0xffff && PyTimer.Distinct(free)
      && (forall id :: 1 <= id < cur <==> id in free || Pending(id))
      && (forall id | id in free :: !Pending(id))
      && (forall id | id in waiting :: Pending(id))
    }
  }

  datatype Event =
    | Query(id: Word, address: int, isIpv6: bool, now: int, outcome: Outcome)
    | Answer(dnsId: int, parsed: bool)
    | Clean(now: int)
    | Loop(now: int, names: seq<int>) // the names the timer reports, in its order

  /** What an event sends on and whom it answers. */
  datatype Effect = Effect(upstream: Option<int>, reply: Option<Record>)

  const NOTHING := Effect(None, None)

  /** The ID a query gets, if there is one, is the first of the list or the counter's. */
  ghost function NextId(s: State): int {
    if s.free != [] then s.free[0] else s.cur
  }

  ghost function WithId(s: State, now: int): State {
    if s.free != [] then s.(free := s.free[1..], due := s.due[NextId(s) := now + LIFETIME])
    else s.(cur := s.cur + 1, due := s.due[NextId(s) := now + LIFETIME])
  }

  ghost function Asked(e: Event, fromForward: bool): Record
    requires e.Query?
  {
    Record(e.id, e.address, e.isIpv6, e.now, fromForward)
  }

  ghost function Step(s: State, e: Event): (State, Effect) {
    match e
    case Query(_, _, _, now, outcome) =>
      if outcome.Short? || s.Exhausted() then (s, NOTHING)
      else
        var t := WithId(s, now);
        (match outcome
         case Upstream(f) => (t.(waiting := s.waiting[NextId(s) := Asked(e, f)]), Effect(Some(NextId(s)), None))
         case Cached(f) => (t, Effect(None, Some(Asked(e, f))))
         case _ => (t, NOTHING))
    case Answer(dnsId, parsed) =>
      (s.(waiting := s.waiting - {dnsId}),
       Effect(None, if dnsId in s.waiting && parsed then Some(s.waiting[dnsId]) else None))
    case Clean(now) =>
      if now - s.cleaned < LIFETIME then (s, NOTHING)
      else
        var young := map id | id in s.waiting && now - s.waiting[id].time < LIFETIME :: s.waiting[id];
        (s.(waiting := young, cleaned := now), NOTHING)
    case Loop(now, names) =>
      var left := map id | id in s.waiting && id !in names :: s.waiting[id];
      (s.(waiting := left, free := s.free + names, polled := now), NOTHING)
  }

  /** The clock does not run back, and the timer reports each name that is due, once. */
  ghost predicate Possible(s: State, e: Event) {
    match e
    case Query(_, _, _, now, _) => s.polled <= now
    case Answer(_, _) => true
    case Clean(_) => true
    case Loop(now, names) =>
      && s.polled <= now && PyTimer.Distinct(names)
      && forall id :: id in names <==> id in s.due && s.polled < s.due[id] <= now
  }

  /** The ID a query gets is in range, and nobody waits under it. */
  lemma FreshId(s: State, now: int)
    requires s.Sound() && !s.Exhausted() && s.polled <= now
    ensures WithId(s, now).Sound() && 1 <= NextId(s) <= 0xfffe
    ensures WithId(s, now).Pending(NextId(s)) && !s.Pending(NextId(s)) && NextId(s) !in s.waiting
  {
    var id, t := NextId(s), WithId(s, now);
    if s.free != [] {
      assert s.free == [id] + t.free;
      assert id in s.free && id !in t.free;
    }
    forall x
      ensures 1 <= x < t.cur <==> x in t.free || t.Pending(x)
    {
      assert x in s.free <==> (s.free != [] && x == id) || x in t.free;
      assert t.Pending(x) <==> x == id || s.Pending(x);
    }
    assert forall x | x in t.free :: x in s.free;
  }

  /** IDs whose time is up go back to the list. */
  lemma LoopSound(s: State, e: Event)
    requires s.Sound() && e.Loop? && Possible(s, e)
    ensures Step(s, e).0.Sound()
  {
    var t := Step(s, e).0;
    forall i, j | 0 <= i < |s.free| && 0 <= j < |e.names|
      ensures s.free[i] != e.names[j]
    {
      assert s.free[i] in s.free && e.names[j] in e.names;
    }
    forall id
      ensures 1 <= id < t.cur <==> id in t.free || t.Pending(id)
      ensures id in t.free ==> !t.Pending(id)
    {
      assert s.Pending(id) <==> id in e.names || t.Pending(id);
      assert id in t.free <==> id in s.free || id in e.names;
    }
  }

  lemma StepSound(s: State, e: Event)
    requires s.Sound() && Possible(s, e)
    ensures Step(s, e).0.Sound()
  {
    match e
    case Query(_, _, _, _, _) => QuerySound(s, e);
    case Loop(_, _) => LoopSound(s, e);
    case _ => FewerWait(s, e);
  }

  lemma QuerySound(s: State, e: Event)
    requires s.Sound() && e.Query? && Possible(s, e)
    ensures Step(s, e).0.Sound()
  {
    hide State.Sound, WithId, NextId, Asked;
    if !s.Exhausted() {
      FreshId(s, e.now);
      if e.outcome.Upstream? {
        var t := WithId(s, e.now);
        WaitSound(t, NextId(s), Asked(e, e.outcome.fromForward));
        SameWaiting(s, e.now);
      }
    }
  }

  lemma SameWaiting(s: State, now: int)
    ensures WithId(s, now).waiting == s.waiting
  {
  }

  /** Whoever still waits waited before. */
  lemma FewerWait(s: State, e: Event)
    requires s.Sound() && (e.Answer? || e.Clean?)
    ensures Step(s, e).0.Sound()
  {
    var t := Step(s, e).0;
    assert forall id :: t.Pending(id) <==> s.Pending(id);
  }

  lemma WaitSound(s: State, id: int, r: Record)
    requires s.Sound() && s.Pending(id)
    ensures s.(waiting := s.waiting[id := r]).Sound()
  {
    var t := s.(waiting := s.waiting[id := r]);
    assert forall x :: t.Pending(x) <==> s.Pending(x);
  }

  // ---------- the translator ----------

  class Translator {
    var idWan2lan: map<int, Record>
    var emptyDnsIds: seq<int>
    var curDnsId: int
    var cleaned: int
    const timer: PyTimer.Timer<int>

    ghost function View(): State
      reads this, timer
    {
      State(idWan2lan, emptyDnsIds, curDnsId, timer.info, timer.last, cleaned)
    }

    ghost predicate Valid()
      reads this, timer
    {
      timer.Valid() && View().Sound()
    }

    constructor ()
      ensures Valid() && View() == State(map[], [], 1, map[], 0, 0) && fresh(timer)
    {
      idWan2lan, emptyDnsIds, curDnsId, cleaned := map[], [], 1, 0;
      timer := new PyTimer.Timer();
    }

    /** `get_dns_id`: an ID in range that is not held back and from now on is, unless all are; nothing
        else happens. */
    method GetDnsId(now: int) returns (dnsId: int)
      requires Valid() && timer.last <= now
      modifies this`emptyDnsIds, this`curDnsId, timer
      ensures Valid()
      ensures dnsId == -1 <==> old(View().Exhausted())
      ensures dnsId == -1 ==> View() == old(View())
      ensures dnsId != -1 ==>
        && View() == WithId(old(View()), now) && dnsId == NextId(old(View()))
        && 1 <= dnsId <= 0xfffe && View().Pending(dnsId) && !old(View().Pending(dnsId)) && dnsId !in idWan2lan
    {
      hide timer.Valid;
      if !View().Exhausted() {
        FreshId(View(), now);
      }
      dnsId := curDnsId;
      if emptyDnsIds != [] {
        dnsId := emptyDnsIds[0];
        emptyDnsIds := emptyDnsIds[1..];
        timer.SetTimeout(dnsId, LIFETIME, now);
        return;
      }
      if dnsId > 0xfffe { return -1; }
      curDnsId := curDnsId + 1;
      timer.SetTimeout(dnsId, LIFETIME, now);
    }

    /** `handle_msg_from_dnsclient`: what goes upstream, and under which ID. A new record never replaces
        one that is still waiting. */
    method FromClient(dnsId: Word, address: int, isIpv6: bool, now: int, outcome: Outcome)
      returns (upstream: Option<int>, reply: Option<Record>)
      requires Valid() && timer.last <= now
      modifies this, timer
      ensures Valid()
      ensures (View(), Effect(upstream, reply)) == Step(old(View()), Query(dnsId, address, isIpv6, now, outcome))
      ensures upstream.Some? ==> upstream.value !in old(idWan2lan)
    {
      hide timer.Valid, State.Sound, State.Pending;
      ghost var e := Query(dnsId, address, isIpv6, now, outcome);
      StepSound(View(), e);
      upstream, reply := None, None;
      if outcome.Short? { return; }
      var newDnsId := GetDnsId(now);
      if newDnsId < 1 { return; }
      if outcome.Broken? { return; }
      ghost var before := idWan2lan;
      WaitSound(View(), newDnsId, Record(dnsId, address, isIpv6, now, false));
      idWan2lan := idWan2lan[newDnsId := Record(dnsId, address, isIpv6, now, false)];
      match outcome
      case Settled =>
        idWan2lan := idWan2lan - {newDnsId};
        assert idWan2lan == before;
      case Cached(fromForward) =>
        WaitSound(View(), newDnsId, idWan2lan[newDnsId].(fromForward := fromForward));
        idWan2lan := idWan2lan[newDnsId := idWan2lan[newDnsId].(fromForward := fromForward)];
        reply := FromServer(newDnsId, true);
        assert idWan2lan == before;
      case Upstream(fromForward) =>
        idWan2lan := idWan2lan[newDnsId := idWan2lan[newDnsId].(fromForward := fromForward)];
        assert idWan2lan == before[newDnsId := Asked(e, fromForward)];
        upstream := Some(newDnsId);
    }

    /** `handle_msg_from_dnsserver`: the answer goes to the client on record, with the client's own ID,
        and the record goes. */
    method FromServer(dnsId: int, parsed: bool) returns (reply: Option<Record>)
      requires Valid()
      modifies this`idWan2lan
      ensures Valid() && (View(), Effect(None, reply)) == Step(old(View()), Answer(dnsId, parsed))
    {
      hide timer.Valid, State.Sound, State.Pending;
      StepSound(View(), Answer(dnsId, parsed));
      if dnsId !in idWan2lan {
        assert idWan2lan - {dnsId} == idWan2lan;
        return None;
      }
      var o := idWan2lan[dnsId];
      idWan2lan := idWan2lan - {dnsId};
      reply := if parsed then Some(o) else None;
    }

    /** `auto_clean`: every five seconds the old records go; their IDs stay held back. */
    method AutoClean(now: int)
      requires Valid()
      modifies this`idWan2lan, this`cleaned
      ensures Valid() && View() == Step(old(View()), Clean(now)).0
    {
      hide timer.Valid, State.Sound, State.Pending;
      StepSound(View(), Clean(now));
      if now - cleaned < LIFETIME { return; }
      idWan2lan := map id | id in idWan2lan && now - idWan2lan[id].time < LIFETIME :: idWan2lan[id];
      cleaned := now;
    }

    /** The end of `myloop`: IDs whose time is up can be used again. */
    method Recycle(now: int) returns (ghost names: seq<int>)
      requires Valid() && timer.last <= now
      modifies this`idWan2lan, this`emptyDnsIds, timer
      ensures Valid() && old(Possible(View(), Loop(now, names))) && View() == Step(old(View()), Loop(now, names)).0
    {
      hide timer.Valid;
      ghost var s := View();
      var dnsIds := timer.GetTimeoutNames(now);
      names := dnsIds;
      StepSound(s, Loop(now, names));
      var k := 0;
      while k < |dnsIds|
        modifies this`idWan2lan, this`emptyDnsIds
        invariant 0 <= k <= |dnsIds| && emptyDnsIds == s.free + dnsIds[..k]
        invariant idWan2lan == map id | id in s.waiting && id !in dnsIds[..k] :: s.waiting[id]
      {
        assert dnsIds[..k + 1] == dnsIds[..k] + [dnsIds[k]];
        if dnsIds[k] in idWan2lan {
          idWan2lan := idWan2lan - {dnsIds[k]};
        }
        emptyDnsIds := emptyDnsIds + [dnsIds[k]];
        k := k + 1;
      }
      assert dnsIds[..k] == dnsIds;
    }
  }

  // ---------- whole runs ----------

  /** A run from a new translator, with the state before each event and at the end. */
  ghost predicate Runs(states: seq<State>, events: seq<Event>) {
    && |states| == |events| + 1 && states[0] == State(map[], [], 1, map[], 0, 0)
    && forall k {:trigger events[k]} | 0 <= k < |events| ::
         Possible(states[k], events[k]) && states[k + 1] == Step(states[k], events[k]).0
  }

  lemma {:induction false} RunSound(states: seq<State>, events: seq<Event>, k: nat)
    requires Runs(states, events) && k <= |events|
    ensures states[k].Sound()
  {
    if k > 0 {
      RunSound(states, events, k - 1);
      assert Possible(states[k - 1], events[k - 1]);
      StepSound(states[k - 1], events[k - 1]);
    }
  }

  ghost function EffectOf(states: seq<State>, events: seq<Event>, k: nat): Effect
    requires |states| == |events| + 1 && k < |events|
  {
    Step(states[k], events[k]).1
  }

  /** Query i went upstream under the ID that answer j carries, and its record has been kept from then on. */
  ghost predicate Serves(states: seq<State>, events: seq<Event>, i: nat, j: nat)
    requires |states| == |events| + 1 && j < |events|
  {
    && i < j && events[i].Query? && events[i].outcome.Upstream? && events[j].Answer? && events[j].parsed
    && EffectOf(states, events, i).upstream == Some(events[j].dnsId)
    && Keeps(states, events[j].dnsId, Asked(events[i], events[i].outcome.fromForward), i + 1, j)
  }

  ghost predicate Keeps(states: seq<State>, id: int, r: Record, from: nat, to: nat)
    requires to < |states|
  {
    forall k | from <= k <= to :: id in states[k].waiting && states[k].waiting[id] == r
  }

  /** Whatever waits under an ID was asked under it, and has been kept since. */
  lemma {:induction false} Origin(states: seq<State>, events: seq<Event>, id: int, j: nat) returns (i: nat)
    requires Runs(states, events) && j <= |events| && id in states[j].waiting
    ensures i < j && events[i].Query? && events[i].outcome.Upstream?
    ensures EffectOf(states, events, i).upstream == Some(id)
    ensures states[j].waiting[id] == Asked(events[i], events[i].outcome.fromForward)
    ensures Keeps(states, id, states[j].waiting[id], i + 1, j)
  {
    var e := events[j - 1];
    assert states[j] == Step(states[j - 1], e).0;
    if EffectOf(states, events, j - 1).upstream == Some(id) {
      i := j - 1;
    } else {
      assert id in states[j - 1].waiting && states[j - 1].waiting[id] == states[j].waiting[id];
      i := Origin(states, events, id, j - 1);
    }
  }

  /** Over any run an answer from a server is passed on if and only if some earlier query went upstream
      under its ID and still waits; then it goes to that query's client with that query's own ID. A query
      answered from the cache is answered to its own client. */
  lemma RepliesAreAsked(states: seq<State>, events: seq<Event>, j: nat)
    requires Runs(states, events) && j < |events|
    ensures events[j].Answer? ==>
      (EffectOf(states, events, j).reply.Some? <==> exists i :: 0 <= i < j && Serves(states, events, i, j))
    ensures forall i | 0 <= i < j && Serves(states, events, i, j) ::
      EffectOf(states, events, j).reply == Some(Asked(events[i], events[i].outcome.fromForward))
    ensures events[j].Query? && EffectOf(states, events, j).reply.Some? ==>
      && events[j].outcome.Cached?
      && EffectOf(states, events, j).reply.value == Asked(events[j], events[j].outcome.fromForward)
  {
    if events[j].Answer? && EffectOf(states, events, j).reply.Some? {
      var i := Origin(states, events, events[j].dnsId, j);
      assert Serves(states, events, i, j);
    }
  }

  /** A query gets an ID nobody waits under, and an answer ends the wait. */
  lemma Ends(states: seq<State>, events: seq<Event>, k: nat)
    requires Runs(states, events) && k < |events|
    ensures events[k].Answer? ==> events[k].dnsId !in states[k + 1].waiting
    ensures var up := EffectOf(states, events, k).upstream; up.Some? ==> up.value !in states[k].waiting
  {
    RunSound(states, events, k);
    assert Possible(states[k], events[k]);
    if events[k].Query? && !states[k].Exhausted() {
      FreshId(states[k], events[k].now);
    }
  }

  lemma NotLater(states: seq<State>, events: seq<Event>, i: nat, j: nat, j2: nat)
    requires Runs(states, events) && j < j2 < |events| && Serves(states, events, i, j)
    ensures !Serves(states, events, i, j2)
  {
    Ends(states, events, j);
  }

  lemma NotBoth(states: seq<State>, events: seq<Event>, i: nat, i2: nat, j: nat)
    requires Runs(states, events) && i < i2 && j < |events| && Serves(states, events, i2, j)
    ensures !Serves(states, events, i, j)
  {
    Ends(states, events, i2);
  }

  /** Over any run no query is answered twice, however IDs are used again and however often servers
      answer, and no answer is passed on for two queries. */
  lemma AnsweredOnce(states: seq<State>, events: seq<Event>, i: nat, j: nat, i2: nat, j2: nat)
    requires Runs(states, events) && j < |events| && j2 < |events|
    requires Serves(states, events, i, j) && Serves(states, events, i2, j2)
    ensures i == i2 <==> j == j2
  {
    if j < j2 {
      NotLater(states, events, i, j, j2);
    } else if j2 < j {
      NotLater(states, events, i2, j2, j);
    } else if i < i2 {
      NotBoth(states, events, i, i2, j);
    } else if i2 < i {
      NotBoth(states, events, i2, i, j);
    }
  }

  // ---------- how long a record is kept ----------

  /** When the records were last looked through: a clean-up acts if five seconds have passed since the
      last one that did. */
  ghost function Cleaned(events: seq<Event>, k: nat): int
    requires k <= |events|
  {
    if k == 0 then 0
    else
      var before := Cleaned(events, k - 1);
      if events[k - 1].Clean? && events[k - 1].now - before >= 5 then events[k - 1].now else before
  }

  lemma {:induction false} CleanedAt(states: seq<State>, events: seq<Event>, k: nat)
    requires Runs(states, events) && k <= |events|
    ensures states[k].cleaned == Cleaned(events, k)
  {
    if k > 0 {
      CleanedAt(states, events, k - 1);
      assert Possible(states[k - 1], events[k - 1]);
    }
  }

  /** Event k ends no query of time t that waits under the ID: it is no answer that carries the ID, no
      clean-up that acts five seconds after t or later, and gives the ID back to nobody. */
  ghost predicate Spares(events: seq<Event>, k: nat, id: int, t: int)
    requires k < |events|
  {
    match events[k]
    case Query(_, _, _, _, _) => true
    case Answer(dnsId, _) => dnsId != id
    case Clean(now) => now - Cleaned(events, k) < 5 || now - t < 5
    case Loop(_, names) => id !in names
  }

  /** A query that goes upstream is on record with its own ID and its client, whoever else asks, exactly
      until the first event that ends it. */
  lemma {:induction false} Kept(states: seq<State>, events: seq<Event>, i: nat, j: nat, id: int)
    requires Runs(states, events) && i < j <= |events| && events[i].Query?
    requires EffectOf(states, events, i).upstream == Some(id)
    ensures events[i].outcome.Upstream?
    ensures var q := events[i];
      Keeps(states, id, Record(q.id, q.address, q.isIpv6, q.now, q.outcome.fromForward), i + 1, j) <==>
        forall k | i < k < j :: Spares(events, k, id, q.now)
  {
    assert states[i + 1] == Step(states[i], events[i]).0;
    if i + 1 < j {
      Kept(states, events, i, j - 1, id);
      if forall k | i < k < j - 1 :: Spares(events, k, id, events[i].now) {
        KeptOnce(states, events, j - 1, id);
      }
    }
  }

  /** One event ends a record or leaves it as it is. */
  lemma KeptOnce(states: seq<State>, events: seq<Event>, k: nat, id: int)
    requires Runs(states, events) && k < |events| && id in states[k].waiting
    ensures if Spares(events, k, id, states[k].waiting[id].time)
      then id in states[k + 1].waiting && states[k + 1].waiting[id] == states[k].waiting[id]
      else id !in states[k + 1].waiting
  {
    CleanedAt(states, events, k);
    Ends(states, events, k);
    assert states[k + 1] == Step(states[k], events[k]).0;
  }

  /** An answer that comes while its query is on record reaches that query's client with that query's
      own ID: whatever other queries, answers and clean-ups there have been. */
  lemma Relayed(states: seq<State>, events: seq<Event>, i: nat, j: nat, id: int)
    requires Runs(states, events) && i < j < |events| && events[i].Query?
    requires EffectOf(states, events, i).upstream == Some(id) && events[j] == Answer(id, true)
    requires forall k | i < k < j :: Spares(events, k, id, events[i].now)
    ensures events[i].outcome.Upstream?
    ensures var q := events[i];
      EffectOf(states, events, j).reply ==
        Some(Record(q.id, q.address, q.isIpv6, q.now, q.outcome.fromForward))
  {
    Kept(states, events, i, j, id);
    assert id in states[j].waiting;
  }

  // ---------- how long an ID is held back ----------

  /** Whoever waits has an ID that is held back for five seconds from the query. */
  lemma {:induction false} WaitsFive(states: seq<State>, events: seq<Event>, k: nat)
    requires Runs(states, events) && k <= |events|
    ensures forall id | id in states[k].waiting ::
      id in states[k].due && states[k].due[id] == states[k].waiting[id].time + 5 > states[k].polled
  {
    if k > 0 {
      WaitsFive(states, events, k - 1);
      RunSound(states, events, k - 1);
      RunSound(states, events, k);
      assert Possible(states[k - 1], events[k - 1]);
      Ends(states, events, k - 1);
      assert forall id | id in states[k].waiting :: states[k].Pending(id);
    }
  }

  /** After a clean-up that acts, and after every return of IDs, nobody waits for five seconds or more. */
  lemma NoneOld(states: seq<State>, events: seq<Event>, k: nat)
    requires Runs(states, events) && k < |events|
    requires events[k].Loop? || (events[k].Clean? && events[k].now - Cleaned(events, k) >= 5)
    ensures var left := states[k + 1].waiting; forall id | id in left :: events[k].now - left[id].time < 5
  {
    CleanedAt(states, events, k);
    WaitsFive(states, events, k + 1);
    assert states[k + 1] == Step(states[k], events[k]).0;
  }

  /** An ID is given to a query if and only if one of the 65534 is not held back; then it is one of those,
      and is held back for five seconds. Queries below the header's length take none. What the query's
      outcome is makes no difference. */
  lemma Given(states: seq<State>, events: seq<Event>, k: nat)
    requires Runs(states, events) && k < |events| && events[k].Query? && !events[k].outcome.Short?
    ensures var before, after, up := states[k], states[k + 1], EffectOf(states, events, k).upstream;
      var some := exists id :: 1 <= id <= 0xfffe && !before.Pending(id);
      && (up.Some? <==> some && events[k].outcome.Upstream?)
      && (EffectOf(states, events, k).reply.Some? <==> some && events[k].outcome.Cached?)
      && (up.Some? ==> 1 <= up.value <= 0xfffe && !before.Pending(up.value))
      && (!some ==> after == before)
      && (some ==> exists id ::
            && 1 <= id <= 0xfffe && !before.Pending(id) && after.due == before.due[id := events[k].now + 5]
            && (up.Some? ==> up.value == id))
  {
    var s := states[k];
    RunSound(states, events, k);
    assert Possible(s, events[k]);
    if s.Exhausted() {
      assert forall id | 1 <= id <= 0xfffe :: s.Pending(id);
    } else {
      FreshId(s, events[k].now);
      assert states[k + 1].due == s.due[NextId(s) := events[k].now + 5];
    }
  }

  /** All IDs that have been given back, in order. */
  ghost function Returned(events: seq<Event>, k: nat): seq<int>
    requires k <= |events|
  {
    if k == 0 then []
    else Returned(events, k - 1) + if events[k - 1].Loop? then events[k - 1].names else []
  }

  /** What an event does to the list of IDs. */
  lemma ListStep(s: State, e: Event)
    ensures Step(s, e).0.free ==
      if e.Loop? then s.free + e.names
      else if e.Query? && !e.outcome.Short? && s.free != [] then s.free[1..]
      else s.free
    ensures s.free != [] && Step(s, e).1.upstream.Some? ==> Step(s, e).1.upstream.value == s.free[0]
  {
  }

  lemma Suffixes(all: seq<int>, m: nat, more: seq<int>)
    requires m <= |all|
    ensures (all + more)[m..] == all[m..] + more
    ensures m < |all| ==> all[m..][0] == all[m] && all[m..][1..] == all[m + 1..]
  {
  }

  /** IDs are used again in the order in which they were given back: the list is what is left of them. */
  lemma {:induction false} FirstBack(states: seq<State>, events: seq<Event>, k: nat) returns (m: nat)
    requires Runs(states, events) && k <= |events|
    ensures m <= |Returned(events, k)| && states[k].free == Returned(events, k)[m..]
    ensures k < |events| && states[k].free != [] && EffectOf(states, events, k).upstream.Some? ==>
      m < |Returned(events, k)| && EffectOf(states, events, k).upstream.value == Returned(events, k)[m]
  {
    hide Step, Returned;
    m := ListIs(states, events, k);
    Suffixes(Returned(events, k), m, []);
    if k < |events| {
      ListStep(states[k], events[k]);
    }
  }

  lemma {:induction false} ListIs(states: seq<State>, events: seq<Event>, k: nat) returns (m: nat)
    requires Runs(states, events) && k <= |events|
    ensures m <= |Returned(events, k)| && states[k].free == Returned(events, k)[m..]
  {
    hide Step;
    m := 0;
    if k > 0 {
      m := ListIs(states, events, k - 1);
      var e := events[k - 1];
      assert Possible(states[k - 1], e);
      ListStep(states[k - 1], e);
      Suffixes(Returned(events, k - 1), m, if e.Loop? then e.names else []);
      if e.Query? && !e.outcome.Short? && states[k - 1].free != [] {
        m := m + 1;
      }
    }
  }
}
