/** The queues of `ixc_syscore/router/src/qos.c`: packets linked in slots, slots linked in a list that
    is edited while it is walked. Sending does not call back into the scheduler. */
module Qos {
  import opened Bytes
  import QosModel

  class Mbuf {
    var next: Mbuf?

    constructor ()
      ensures next == null
    {
      next := null;
    }
  }

  /** The packets of one slot, linked in order. */
  class Slot {
    var mbufFirst: Mbuf?
    var mbufLast: Mbuf?
    var next: Slot?
    var isUsed: bool
    const slot: nat

    constructor (slot: nat)
      ensures this.slot == slot && Chain([]) && next == null
    {
      mbufFirst, mbufLast, next, isUsed, this.slot := null, null, null, false, slot;
    }

    ghost predicate Chain(queue: seq<Mbuf>)
      reads this`mbufFirst, this`mbufLast, this`isUsed, queue`next
    {
      && (isUsed <==> queue != [])
      && mbufFirst == (if queue == [] then null else queue[0])
      && mbufLast == (if queue == [] then null else queue[|queue| - 1])
      && (forall i {:trigger queue[i].next} | 0 <= i < |queue| :: queue[i].next == if i + 1 < |queue| then queue[i + 1]
        else null)
    }

    /** The first packet of an idle slot. */
    method Open(m: Mbuf)
      requires m.next == null
      modifies this`isUsed, this`mbufFirst, this`mbufLast
      ensures Chain([m])
    {
      isUsed := true;
      mbufFirst := m;
      mbufLast := m;
    }

    /** One more packet. */
    method Append(m: Mbuf, ghost queue: seq<Mbuf>)
      requires Chain(queue) && isUsed && m.next == null && m !in queue
      requires forall i, j | 0 <= i < j < |queue| :: queue[i] != queue[j]
      modifies this`mbufLast, mbufLast`next
      ensures Chain(queue + [m])
    {
      mbufLast.next := m;
      mbufLast := m;
    }

    /** The first packet leaves; a slot that runs empty is reset. */
    method Advance(ghost queue: seq<Mbuf>) returns (m: Mbuf, more: bool)
      requires Chain(queue) && isUsed
      modifies this`isUsed, this`mbufFirst, this`mbufLast
      ensures Chain(queue[1..]) && m == queue[0] && more == (|queue| > 1)
    {
      m := mbufFirst;
      var t := m.next;
      more := t != null;
      if more {
        mbufFirst := t;
      } else {
        isUsed := false;
        mbufFirst := null;
        mbufLast := null;
      }
    }
  }

  class Scheduler {
    var slotObjs: seq<Slot>
    var head: Slot?

    ghost var state: QosModel.State<Mbuf>

    ghost predicate Slots()
      reads this`slotObjs
    {
      |slotObjs| == QosModel.SLOTS && forall k | 0 <= k < |slotObjs| :: slotObjs[k].slot == k
    }

    ghost function At(active: seq<nat>, i: int): Slot?
      reads this`slotObjs
    {
      if 0 <= i < |active| && active[i] < |slotObjs| then slotObjs[active[i]] else null
    }

    /** The active list, as it is linked. */
    ghost predicate Linked(active: seq<nat>)
      reads this`slotObjs, this`head, slotObjs`next
    {
      && (forall i | 0 <= i < |active| :: active[i] < |slotObjs|)
      && head == At(active, 0)
      && (forall i {:trigger slotObjs[active[i]].next} | 0 <= i < |active| ::
        slotObjs[active[i]].next == At(active, i + 1))
    }

    ghost function Packets(queues: seq<seq<Mbuf>>): set<Mbuf> {
      set k, i | 0 <= k < |queues| && 0 <= i < |queues[k]| :: queues[k][i]
    }

    ghost predicate Chains(queues: seq<seq<Mbuf>>)
      reads this`slotObjs, slotObjs`mbufFirst, slotObjs`mbufLast, slotObjs`isUsed, Packets(queues)`next
    {
      |queues| == |slotObjs| && forall k | 0 <= k < |queues| :: slotObjs[k].Chain(queues[k])
    }

    /** No packet waits twice. */
    static ghost predicate Apart(queues: seq<seq<Mbuf>>) {
      && (forall k, l, i, j | 0 <= k < l < |queues| && 0 <= i < |queues[k]| && 0 <= j < |queues[l]| ::
        queues[k][i] != queues[l][j])
      && (forall k, i, j | 0 <= k < |queues| && 0 <= i < j < |queues[k]| :: queues[k][i] != queues[k][j])
    }

    ghost predicate Valid()
      reads this, slotObjs, Packets(state.queues)
    {
      Slots() && state.Ok() && Linked(state.active) && Chains(state.queues) && Apart(state.queues)
    }

    constructor ()
      ensures Valid() && state.active == [] && forall k | 0 <= k < |state.queues| :: state.queues[k] == []
    {
      head, slotObjs := null, [];
      state := QosModel.State([], []);
      new;
      for n := 0 to QosModel.SLOTS
        invariant |slotObjs| == n && head == null && state == QosModel.State(seq(n, _ => []), [])
        invariant forall k | 0 <= k < n :: slotObjs[k].slot == k && slotObjs[k].Chain([])
        modifies this
      {
        var slot := new Slot(n);
        slotObjs := slotObjs + [slot];
        state := QosModel.State(seq(n + 1, _ => []), []);
      }
    }

    /** `ixc_qos_put`, from the address bytes the slot is computed of. */
    method Put(m: Mbuf, src: seq<Byte>, dst: seq<Byte>)
      requires Valid() && |src| == 4 && |dst| == 4 && m !in Packets(state.queues)
      modifies this`head, this`state, slotObjs, Packets(state.queues)`next, m`next
      ensures Valid() && state == QosModel.Put(old(state), QosModel.CalcSlot(src, dst), m)
    {
      hide *;
      ValidElim();
      KnownPackets();
      m.next := null;
      var slotNo := QosModel.CalcSlot(src, dst);
      SlotFacts(slotNo);
      var slotObj := slotObjs[slotNo];
      if !slotObj.isUsed {
        slotObj.Open(m);
        assert state.queues[slotNo] + [m] == [m];
        slotObj.next := head;
        head := slotObj;
      } else {
        slotObj.Append(m, state.queues[slotNo]);
      }
      state := QosModel.Put(state, slotNo, m);
      PutChains(m, slotNo);
      PutLinked(m, slotNo);
      QosModel.PutOk(old(state), slotNo, m);
      ValidIntro();
    }

    lemma ValidElim()
      requires Valid()
      ensures Slots() && state.Ok() && Linked(state.active) && Chains(state.queues) && Apart(state.queues)
      ensures |slotObjs| == |state.queues| == QosModel.SLOTS
    {
    }

    lemma ValidIntro()
      requires Slots() && state.Ok() && Linked(state.active) && Chains(state.queues) && Apart(state.queues)
      ensures Valid()
    {
    }

    lemma KnownPackets()
      ensures forall p | p in Packets(state.queues) :: allocated(p)
    {
    }

    /** What is known of one slot. */
    lemma SlotFacts(k: nat)
      requires Slots() && state.Ok() && Chains(state.queues) && Apart(state.queues) && k < |slotObjs|
      ensures k < |state.queues| && slotObjs[k].Chain(state.queues[k])
      ensures slotObjs[k].isUsed <==> state.queues[k] != []
      ensures slotObjs[k].isUsed <==> k in state.active
      ensures slotObjs[k].isUsed ==> slotObjs[k].mbufLast != null && slotObjs[k].mbufLast in Packets(state.queues)
      ensures forall i, j | 0 <= i < j < |state.queues[k]| :: state.queues[k][i] != state.queues[k][j]
      ensures forall i | 0 <= i < |state.queues[k]| :: state.queues[k][i] in Packets(state.queues)
      ensures forall l | 0 <= l < |slotObjs| && l != k :: slotObjs[l] != slotObjs[k]
    {
    }

    twostate lemma PutChains(m: Mbuf, new k: nat)
      requires slotObjs == old(slotObjs) && old(Chains(state.queues)) && old(Apart(state.queues))
      requires |slotObjs| == |old(state).queues| && k < |slotObjs| && m !in Packets(old(state).queues)
      requires state == QosModel.Put(old(state), k, m) && slotObjs[k].Chain(old(state).queues[k] + [m])
      requires forall l | 0 <= l < |slotObjs| && l != k :: unchanged(slotObjs[l])
      requires forall p | p in Packets(old(state).queues) && p != old(slotObjs[k].mbufLast) :: p.next == old(p.next)
      ensures Chains(state.queues) && Apart(state.queues)
    {
      hide *;
      PutQueues(m, k);
      ChainsElim(k);
      forall l | 0 <= l < |slotObjs| && l != k
        ensures slotObjs[l].Chain(old(state).queues[l])
      {
        OtherChain(k, l);
      }
      ChainsIntro();
      StillApart(m, k);
    }

    twostate lemma PutQueues(new m: Mbuf, new k: nat)
      requires k < |old(state).queues| && state == QosModel.Put(old(state), k, m)
      ensures state.queues == old(state).queues[k := old(state).queues[k] + [m]]
    {
    }

    twostate lemma ChainsElim(k: nat)
      requires old(Chains(state.queues)) && k < |old(slotObjs)|
      ensures |old(state).queues| == |old(slotObjs)|
      ensures old(slotObjs[k].mbufLast) == if old(state).queues[k] == [] then null
        else old(state).queues[k][|old(state).queues[k]| - 1]
    {
      assert old(slotObjs[k].Chain(state.queues[k]));
    }

    lemma ChainsIntro()
      requires |state.queues| == |slotObjs| && forall k | 0 <= k < |slotObjs| :: slotObjs[k].Chain(state.queues[k])
      ensures Chains(state.queues)
    {
    }

    /** The chain of another slot is not touched. */
    twostate lemma OtherChain(k: nat, new l: nat)
      requires slotObjs == old(slotObjs) && old(Chains(state.queues)) && old(Apart(state.queues))
      requires |slotObjs| == |old(state).queues| && k < |slotObjs| && l < |slotObjs| && l != k && unchanged(slotObjs[l])
      requires forall p | p in Packets(old(state).queues) && p != old(slotObjs[k].mbufLast) :: p.next == old(p.next)
      ensures slotObjs[l].Chain(old(state).queues[l])
    {
      ChainsElim(k);
      var q := old(state).queues[l];
      assert old(slotObjs[l].Chain(state.queues[l]));
      forall i | 0 <= i < |q|
        ensures q[i].next == old(state.queues[l][i].next)
      {
        assert q[i] in Packets(old(state).queues);
      }
    }

    twostate lemma StillApart(new m: Mbuf, new k: nat)
      requires old(Apart(state.queues)) && k < |old(state).queues| && old(allocated(m))
        && m !in Packets(old(state).queues)
      requires state.queues == old(state).queues[k := old(state).queues[k] + [m]]
      ensures Apart(state.queues)
    {
      var was := old(state).queues;
      assert forall l, i | 0 <= l < |was| && 0 <= i < |was[l]| :: was[l][i] in Packets(was);
    }

    twostate lemma PutLinked(m: Mbuf, new k: nat)
      requires slotObjs == old(slotObjs) && Slots() && old(state.Ok()) && old(Linked(state.active))
      requires |slotObjs| == |old(state).queues| && k < |slotObjs| && state == QosModel.Put(old(state), k, m)
      requires if old(state).queues[k] == [] then head == slotObjs[k] && slotObjs[k].next == old(head)
               else head == old(head) && slotObjs[k].next == old(slotObjs[k].next)
      requires forall l | 0 <= l < |slotObjs| && l != k :: slotObjs[l].next == old(slotObjs[l].next)
      ensures Linked(state.active)
    {
      assert forall i | 0 <= i < |old(state).active| :: old(state).active[i] in old(state).active;
    }

    /** `ixc_qos_pop`: one packet from every active slot, in one walk that also takes out the slots
        that run empty. */
    method Pop() returns (sent: seq<Mbuf>)
      requires Valid()
      modifies this`head, this`state, slotObjs
      ensures Valid() && state == QosModel.Pop(old(state)) && sent == QosModel.Popped(old(state))
    {
      hide *;
      ghost var was := state;
      ghost var n := 0;
      var slotFirst, slotObj, slotOld := head, head, head;
      sent := [];
      Begin();
      while slotObj != null
        invariant 0 <= n <= |was.active| && was == old(state) && was.Ok() && slotObjs == old(slotObjs)
        invariant Walking(was, n, slotObj, slotFirst, slotOld) && sent == QosModel.Popped(was)[..n]
        decreases |was.active| - n
      {
        var m;
        m, slotObj, slotFirst, slotOld := Turn(slotObj, slotFirst, slotOld, was, n);
        sent := sent + [m];
        n := n + 1;
      }
      WalkEnds(was, n, slotFirst, slotOld);
    }

    /** Where the walk stands after n slots. */
    ghost predicate Walking(was: QosModel.State<Mbuf>, n: nat, slotObj: Slot?, slotFirst: Slot?, slotOld: Slot?)
      reads this, slotObjs, Packets(state.queues)
    {
      && Slots() && was.Ok() && n <= |was.active| && |was.queues| == |slotObjs| && state == QosModel.Part(was, n)
      && Linked(state.active) && Chains(state.queues) && Apart(state.queues)
      && slotObj == At(was.active, n) && slotFirst == head
      && Last(QosModel.KeptOf(was, n), slotOld)
    }

    ghost predicate Last(kept: seq<nat>, slotOld: Slot?)
      reads this`slotObjs
    {
      kept != [] ==> kept[|kept| - 1] < |slotObjs| && slotOld == slotObjs[kept[|kept| - 1]]
    }

    lemma Begin()
      requires Valid()
      ensures state.Ok() && Walking(state, 0, head, head, head) && QosModel.Popped(state)[..0] == []
    {
      QosModel.PartNone(state);
    }

    lemma WalkEnds(was: QosModel.State<Mbuf>, n: nat, slotFirst: Slot?, slotOld: Slot?)
      requires Walking(was, n, null, slotFirst, slotOld)
      ensures Valid() && state == QosModel.Pop(was) && QosModel.Popped(was)[..n] == QosModel.Popped(was)
    {
      hide Chains, Apart, Linked, QosModel.Part, QosModel.Pop, QosModel.Popped, QosModel.KeptOf;
      assert forall i | 0 <= i < |was.active| :: was.active[i] in was.active;
      assert n == |was.active|;
      QosModel.PartAll(was);
      QosModel.PopOk(was);
    }

    /** One turn of the loop. */
    method Turn(slotObj: Slot, slotFirst: Slot?, slotOld: Slot?, ghost was: QosModel.State<Mbuf>, ghost n: nat)
      returns (m: Mbuf, nextObj: Slot?, nextFirst: Slot?, nextOld: Slot?)
      requires was.Ok() && Walking(was, n, slotObj, slotFirst, slotOld)
      modifies this`head, this`state, slotObjs
      ensures slotObjs == old(slotObjs) && n < |was.active| && Walking(was, n + 1, nextObj, nextFirst, nextOld)
      ensures QosModel.Popped(was)[..n] + [m] == QosModel.Popped(was)[..n + 1]
    {
      hide *;
      TurnFacts(was, n, slotObj, slotFirst, slotOld);
      KnownPackets();
      ghost var k := was.active[n];
      ghost var kept, rest := QosModel.Busy(was.active[..n], was.queues), was.active[n + 1..];
      var more;
      m, more := slotObj.Advance(state.queues[k]);
      if more {
        nextObj, nextFirst, nextOld := slotObj.next, slotFirst, slotObj;
      } else {
        nextObj, nextFirst, nextOld := TakeOut(slotObj, slotFirst, slotOld, kept, k, rest);
      }
      state := QosModel.Part(was, n + 1);
      QosModel.PartStep(was, n);
      QosModel.BusyStep(was, n);
      TurnChains(k);
      assert kept + [] == kept;
      if more {
        LastOne(kept, k);
      }
      TurnDone(was, n, nextObj, nextFirst, nextOld);
    }

    lemma TurnFacts(was: QosModel.State<Mbuf>, n: nat, slotObj: Slot, slotFirst: Slot?, slotOld: Slot?)
      requires Walking(was, n, slotObj, slotFirst, slotOld)
      ensures was.Ok() && n < |was.active| && Slots() && Chains(state.queues) && Apart(state.queues)
        && state == QosModel.Part(was, n)
      ensures forall i | 0 <= i < |was.active| :: was.active[i] < |was.queues|
      ensures forall l | 0 <= l < |slotObjs| && l != was.active[n] :: slotObjs[l] != slotObjs[was.active[n]]
      ensures var k, kept, rest := was.active[n], QosModel.Busy(was.active[..n], was.queues), was.active[n + 1..];
        && k < |state.queues| == |slotObjs| == |was.queues| && slotObj == slotObjs[k] && slotObj.Chain(state.queues[k])
          && slotObj.isUsed
        && state.queues[k] == was.queues[k] && QosModel.Popped(was)[n] == was.queues[k][0]
        && Linked(kept + [k] + rest) && QosModel.Distinct(kept + [k] + rest) && Last(kept, slotOld) && slotFirst == head
        && slotObj.next == At(rest, 0)
    {
      hide Chains, Apart, QosModel.Part, QosModel.Busy;
      QosModel.PartStep(was, n);
      QosModel.PartDistinct(was, n);
      var k, kept, rest := was.active[n], QosModel.Busy(was.active[..n], was.queues), was.active[n + 1..];
      ChainOf(k);
      assert (kept + [k] + rest)[|kept|] == k;
      assert slotObjs[(kept + [k] + rest)[|kept|]].next == At(kept + [k] + rest, |kept| + 1);
      assert rest != [] ==> (kept + [k] + rest)[|kept| + 1] == rest[0];
    }

    lemma ChainOf(k: nat)
      requires Chains(state.queues) && k < |slotObjs|
      ensures k < |state.queues| && slotObjs[k].Chain(state.queues[k])
        && (slotObjs[k].isUsed <==> state.queues[k] != [])
    {
    }

    /** Nothing but the served slot's queue has changed. */
    twostate lemma TurnChains(k: nat)
      requires slotObjs == old(slotObjs) && old(Chains(state.queues)) && old(Apart(state.queues))
      requires k < |slotObjs| && k < |old(state).queues| && old(state).queues[k] != []
      requires state.queues == old(state).queues[k := old(state).queues[k][1..]] && slotObjs[k].Chain(state.queues[k])
      requires forall l | 0 <= l < |slotObjs| && l != k ::
        && slotObjs[l].mbufFirst == old(slotObjs[l].mbufFirst) && slotObjs[l].mbufLast == old(slotObjs[l].mbufLast)
        && slotObjs[l].isUsed == old(slotObjs[l].isUsed)
      requires forall p | p in Packets(old(state).queues) :: p.next == old(p.next)
      ensures Chains(state.queues) && Apart(state.queues)
    {
      forall l | 0 <= l < |slotObjs| && l != k
        ensures slotObjs[l].Chain(state.queues[l])
      {
        var q := old(state).queues[l];
        assert old(slotObjs[l].Chain(state.queues[l]));
        forall i | 0 <= i < |q|
          ensures q[i].next == old(state.queues[l][i].next)
        {
          assert q[i] in Packets(old(state).queues);
        }
      }
    }

    lemma TurnDone(was: QosModel.State<Mbuf>, n: nat, nextObj: Slot?, nextFirst: Slot?, nextOld: Slot?)
      requires was.Ok() && n < |was.active| && Slots() && |was.queues| == |slotObjs|
        && state == QosModel.Part(was, n + 1)
      requires Linked(state.active) && Chains(state.queues) && Apart(state.queues)
      requires nextObj == At(was.active[n + 1..], 0) && nextFirst == head
      requires Last(QosModel.Busy(was.active[..n + 1], was.queues), nextOld)
      ensures Walking(was, n + 1, nextObj, nextFirst, nextOld)
    {
    }

    /** Take an empty slot out of the active list: it is the first, or `slotOld` comes before it. */
    method TakeOut(slotObj: Slot, slotFirst: Slot?, slotOld: Slot?, ghost kept: seq<nat>, ghost k: nat,
      ghost rest: seq<nat>)
      returns (nextObj: Slot?, nextFirst: Slot?, nextOld: Slot?)
      requires Slots() && Linked(kept + [k] + rest) && QosModel.Distinct(kept + [k] + rest)
      requires k < |slotObjs| && slotObj == slotObjs[k] && slotFirst == head && Last(kept, slotOld)
      modifies this`head, slotObjs`next
      ensures Linked(kept + rest) && nextObj == At(rest, 0) && nextFirst == head && Last(kept, nextOld)
    {
      hide *;
      OutFacts(kept, k, rest, slotOld);
      nextFirst, nextOld := slotFirst, slotOld;
      if slotObj != slotFirst {
        slotOld.next := slotObj.next;
        nextObj := slotObj.next;
        slotObj.next := null;
      } else {
        head := slotObj.next;
        nextObj := slotObj.next;
        slotObj.next := null;
        nextFirst := head;
        nextOld := nextFirst;
        LastNone(nextOld);
      }
      Removed(kept, k, rest);
    }

    lemma OutFacts(kept: seq<nat>, k: nat, rest: seq<nat>, slotOld: Slot?)
      requires Slots() && Linked(kept + [k] + rest) && QosModel.Distinct(kept + [k] + rest) && k < |slotObjs|
        && Last(kept, slotOld)
      ensures slotObjs[k].next == At(rest, 0) && (head == slotObjs[k] <==> kept == [])
      ensures kept != [] ==>
        kept[|kept| - 1] < |slotObjs| && slotOld == slotObjs[kept[|kept| - 1]] && slotOld != slotObjs[k]
      ensures forall l | 0 <= l < |slotObjs| && l != k :: slotObjs[l] != slotObjs[k]
      ensures kept != [] ==> forall l | 0 <= l < |slotObjs| && l != kept[|kept| - 1] :: slotObjs[l] != slotOld
    {
      var all := kept + [k] + rest;
      assert forall i | 0 <= i < |kept| :: kept[i] == all[i];
      assert forall i | 0 <= i < |rest| :: rest[i] == all[|kept| + 1 + i];
      assert all[|kept|] == k && slotObjs[all[|kept|]].next == At(all, |kept| + 1);
    }

    lemma LastOne(kept: seq<nat>, k: nat)
      requires k < |slotObjs|
      ensures Last(kept + [k], slotObjs[k])
    {
    }

    lemma LastNone(slotOld: Slot?)
      ensures Last([], slotOld)
    {
    }

    /** The list without slot k, whose neighbour has been linked past it. */
    twostate lemma Removed(kept: seq<nat>, new k: nat, new rest: seq<nat>)
      requires slotObjs == old(slotObjs) && k < |slotObjs|
      requires old(Linked(kept + [k] + rest)) && QosModel.Distinct(kept + [k] + rest)
      requires if kept == [] then head == old(slotObjs[k].next)
               else kept[|kept| - 1] < |slotObjs| && head == old(head)
                    && slotObjs[kept[|kept| - 1]].next == old(slotObjs[k].next)
      requires forall l | 0 <= l < |slotObjs| && l != k && !(kept != [] && l == kept[|kept| - 1]) ::
        slotObjs[l].next == old(slotObjs[l].next)
      ensures Linked(kept + rest)
    {
      var left := kept + rest;
      forall i | 0 <= i < |left|
        ensures left[i] < |slotObjs| && slotObjs[left[i]].next == At(left, i + 1)
      {
        if i < |kept| - 1 {
          RemovedBefore(kept, k, rest, i);
        } else if i < |kept| {
          RemovedThere(kept, k, rest);
        } else {
          RemovedAfter(kept, k, rest, i);
        }
      }
      assert (kept + [k] + rest)[|kept|] == k;
      assert old(slotObjs[(kept + [k] + rest)[|kept|]].next) == old(At(kept + [k] + rest, |kept| + 1));
    }

    /** Two places of a list without repetition. */
    lemma Elsewhere(all: seq<nat>, i: nat, j: nat)
      requires QosModel.Distinct(all) && i < |all| && j < |all| && i != j
      ensures all[i] != all[j]
    {
    }

    twostate lemma WasLinked(all: seq<nat>, new j: nat)
      requires slotObjs == old(slotObjs) && old(Linked(all)) && j < |all|
      ensures all[j] < |slotObjs| && old(slotObjs[all[j]].next) == At(all, j + 1)
    {
    }

    /** Before the neighbour nothing has changed. */
    twostate lemma RemovedBefore(kept: seq<nat>, new k: nat, new rest: seq<nat>, new i: nat)
      requires slotObjs == old(slotObjs) && k < |slotObjs| && i < |kept| - 1
      requires old(Linked(kept + [k] + rest)) && QosModel.Distinct(kept + [k] + rest)
      requires forall l | 0 <= l < |slotObjs| && l != k && l != kept[|kept| - 1] ::
        slotObjs[l].next == old(slotObjs[l].next)
      ensures (kept + rest)[i] < |slotObjs| && slotObjs[(kept + rest)[i]].next == At(kept + rest, i + 1)
    {
      hide Linked, QosModel.Distinct;
      var all, left := kept + [k] + rest, kept + rest;
      assert all[|kept|] == k && all[|kept| - 1] == kept[|kept| - 1];
      WasLinked(all, i);
      Elsewhere(all, i, |kept|);
      Elsewhere(all, i, |kept| - 1);
      assert all[i] == left[i] && all[i + 1] == left[i + 1];
    }

    /** The neighbour has been linked past the slot. */
    twostate lemma RemovedThere(kept: seq<nat>, new k: nat, new rest: seq<nat>)
      requires slotObjs == old(slotObjs) && k < |slotObjs| && kept != []
      requires old(Linked(kept + [k] + rest))
      requires kept[|kept| - 1] < |slotObjs| && slotObjs[kept[|kept| - 1]].next == old(slotObjs[k].next)
      ensures var i := |kept| - 1;
        (kept + rest)[i] < |slotObjs| && slotObjs[(kept + rest)[i]].next == At(kept + rest, i + 1)
    {
      hide Linked;
      var all, left := kept + [k] + rest, kept + rest;
      assert all[|kept|] == k && left[|kept| - 1] == kept[|kept| - 1];
      WasLinked(all, |kept|);
      assert |rest| > 0 ==> all[|kept| + 1] == left[|kept|];
    }

    /** Behind the slot nothing has changed. */
    twostate lemma RemovedAfter(kept: seq<nat>, new k: nat, new rest: seq<nat>, new i: nat)
      requires slotObjs == old(slotObjs) && k < |slotObjs| && |kept| <= i < |kept + rest|
      requires old(Linked(kept + [k] + rest)) && QosModel.Distinct(kept + [k] + rest)
      requires forall l | 0 <= l < |slotObjs| && l != k && !(kept != [] && l == kept[|kept| - 1]) ::
        slotObjs[l].next == old(slotObjs[l].next)
      ensures (kept + rest)[i] < |slotObjs| && slotObjs[(kept + rest)[i]].next == At(kept + rest, i + 1)
    {
      hide Linked, QosModel.Distinct;
      var all, left := kept + [k] + rest, kept + rest;
      assert all[|kept|] == k && all[i + 1] == left[i];
      WasLinked(all, i + 1);
      Elsewhere(all, i + 1, |kept|);
      if kept != [] {
        assert all[|kept| - 1] == kept[|kept| - 1];
        Elsewhere(all, i + 1, |kept| - 1);
      }
      assert i + 2 < |all| ==> all[i + 2] == left[i + 1];
    }
  }
}
