/** `pywind/clib/timer.c`: a wheel of ticks, each with the list of entries to fire when the wheel
    leaves it. Every user of the wheel arms exactly one tick, so entries wait in the current tick
    only. A tick's list is kept as a sequence, head first. */
module TimeWheel {
  import opened Bytes

  class TimeData<T> {
    var data: Option<T>
    var isDeleted: bool

    constructor ()
      ensures data == None && !isDeleted
    {
      data, isDeleted := None, false;
    }
  }

  /** What would be called back, in order, if the list were fired. */
  ghost function LiveData<T>(list: seq<TimeData<T>>): seq<T>
    reads list
  {
    if list == [] then []
    else (if !list[0].isDeleted && list[0].data.Some? then [list[0].data.value] else []) + LiveData(list[1..])
  }

  /** The data the callback arms again; each one goes to the head of the list. */
  ghost function Rearmed<T>(fired: seq<T>, rearm: T -> bool): seq<T> {
    if fired == [] then []
    else
      var last := fired[|fired| - 1];
      (if rearm(last) then [last] else []) + Rearmed(fired[..|fired| - 1], rearm)
  }

  lemma RearmedSnoc<T>(fired: seq<T>, d: seq<T>, rearm: T -> bool)
    requires |d| <= 1
    ensures Rearmed(fired + d, rearm) == (if d != [] && rearm(d[0]) then d else []) + Rearmed(fired, rearm)
  {
    if d == [] {
      assert fired + d == fired;
    } else {
      assert (fired + d)[..|fired|] == fired && d == [d[0]];
    }
  }

  /** Without deleted entries every entry is called back, in list order. */
  lemma {:induction false} LiveInOrder<T>(list: seq<TimeData<T>>)
    requires forall i | 0 <= i < |list| :: !list[i].isDeleted && list[i].data.Some?
    ensures |LiveData(list)| == |list| && forall i | 0 <= i < |list| :: LiveData(list)[i] == list[i].data.value
  {
    if list != [] {
      LiveInOrder(list[1..]);
    }
  }

  /** If all data is armed again, it waits in the opposite order. */
  lemma {:induction false} RearmedReversed<T>(fired: seq<T>, rearm: T -> bool)
    requires forall i | 0 <= i < |fired| :: rearm(fired[i])
    ensures |Rearmed(fired, rearm)| == |fired|
    ensures forall i | 0 <= i < |fired| :: Rearmed(fired, rearm)[i] == fired[|fired| - 1 - i]
  {
    if fired != [] {
      RearmedReversed(fired[..|fired| - 1], rearm);
    }
  }

  /** No entry is in two places or twice in one. */
  ghost predicate Owned<T>(armed: seq<TimeData<T>>, empty: seq<TimeData<T>>, entries: set<TimeData<T>>) {
    && (forall i | 0 <= i < |armed| :: armed[i] in entries && armed[i] !in empty)
    && (forall i | 0 <= i < |empty| :: empty[i] in entries)
    && (forall i, j | 0 <= i < j < |armed| :: armed[i] != armed[j])
    && (forall i, j | 0 <= i < j < |empty| :: empty[i] != empty[j])
  }

  lemma NoneOwned<T>(armed: seq<TimeData<T>>, empty: seq<TimeData<T>>, entries: set<TimeData<T>>)
    requires Owned(armed, empty, entries)
    ensures Owned([], empty, entries)
  {
  }

  class Wheel<T> {
    const tickTimeout: nat
    const size: nat
    var curTick: nat
    var oldTime: int
    var ticks: seq<seq<TimeData<T>>>
    var emptyData: seq<TimeData<T>>
    var curDataNum: nat
    var preAllocNum: nat

    // every entry the wheel owns
    ghost var entries: set<TimeData<T>>

    ghost predicate Valid()
      reads this
    {
      && 0 < tickTimeout && curTick < size == |ticks|
      && (forall i | 0 <= i < size && i != curTick :: ticks[i] == [])
      && Owned(ticks[curTick], emptyData, entries)
      && curDataNum == |entries|
    }

    /** What waits in the wheel. */
    ghost function Armed(): seq<TimeData<T>>
      requires curTick < |ticks|
      reads this`ticks, this`curTick
    {
      ticks[curTick]
    }

    constructor (tickSize: nat, tickTimeout: nat, preAlloc: nat, now: int)
      requires 0 < tickTimeout
      ensures Valid() && fresh(entries)
      ensures this.tickTimeout == tickTimeout && size == tickSize + 1 && oldTime == now && Armed() == []
      ensures |emptyData| == curDataNum == preAllocNum == preAlloc
    {
      this.tickTimeout, size := tickTimeout, tickSize + 1;
      curTick, oldTime, ticks := 0, now, seq(tickSize + 1, _ => []);
      emptyData, curDataNum, preAllocNum := [], 0, preAlloc;
      entries := {};
      new;
      while curDataNum < preAlloc
        invariant Valid() && fresh(entries) && Armed() == [] && curDataNum <= preAlloc
        invariant oldTime == now && size == tickSize + 1 && |emptyData| == curDataNum && preAllocNum == preAlloc
      {
        var tdata := new TimeData<T>();
        emptyData := [tdata] + emptyData;
        entries := entries + {tdata};
        curDataNum := curDataNum + 1;
      }
    }

    /** `time_data_get`: the pool first, then the allocator if it grants. */
    method DataGet(grant: bool) returns (tdata: TimeData?<T>)
      requires Valid()
      modifies this`emptyData, this`curDataNum, this`entries, emptyData`isDeleted
      ensures Valid() && Armed() == old(Armed())
      ensures tdata == null <==> old(emptyData) == [] && !grant
      ensures tdata == null ==> unchanged(this)
      ensures tdata != null ==>
        && !tdata.isDeleted && tdata !in emptyData && tdata !in Armed() && tdata in entries
        && (tdata in old(emptyData) || fresh(tdata)) && entries == old(entries) + {tdata}
        && forall e | e in emptyData :: e in old(emptyData)
    {
      if emptyData == [] {
        if !grant { return null; }
        tdata := new TimeData<T>();
        curDataNum := curDataNum + 1;
        entries := entries + {tdata};
      } else {
        tdata := emptyData[0];
        emptyData := emptyData[1..];
      }
      tdata.isDeleted := false;
    }

    /** `time_data_put`: back to the allocator while the wheel holds too many entries, else to the pool. */
    method DataPut(tdata: TimeData<T>)
      requires Valid() && tdata in entries && tdata !in emptyData && tdata !in Armed()
      modifies this`emptyData, this`curDataNum, this`entries, tdata`data
      ensures Valid() && Armed() == old(Armed())
      ensures if old(curDataNum) > preAllocNum
        then entries == old(entries) - {tdata} && emptyData == old(emptyData) && curDataNum == old(curDataNum) - 1
        else entries == old(entries) && emptyData == [tdata] + old(emptyData) && curDataNum == old(curDataNum)
    {
      if curDataNum > preAllocNum {
        entries := entries - {tdata};
        curDataNum := curDataNum - 1;
        return;
      }
      tdata.data := None;
      emptyData := [tdata] + emptyData;
    }

    /** A new entry is armed, ahead of all others; nothing else happened to what the wheel holds. */
    twostate predicate Added(new tdata: TimeData<T>, new data: T)
      reads this, entries
    {
      && old(curTick) < |old(ticks)| && Valid() && Armed() == [tdata] + old(Armed()) && tdata in entries
        && tdata.data == Some(data) && !tdata.isDeleted
      && tdata !in old(Armed()) && (tdata in old(emptyData) || !old(allocated(tdata)))
      && entries == old(entries) + {tdata} && (forall e | e in emptyData :: e in old(emptyData))
      && (forall e | e in old(entries) && e !in old(emptyData) :: unchanged(e))
    }

    /** `time_wheel_add` for a timeout of one tick, as every caller uses it. */
    method Add(data: T, timeout: int, grant: bool) returns (tdata: TimeData?<T>)
      requires Valid() && timeout < 2 * tickTimeout
      modifies this`emptyData, this`curDataNum, this`entries, this`ticks, emptyData
      ensures Valid()
      ensures tdata == null <==> timeout < 0 || (old(emptyData) == [] && !grant)
      ensures tdata == null ==> unchanged(this)
      ensures tdata != null ==> Added(tdata, data)
      ensures tdata != null ==> Armed() == [tdata] + old(Armed()) && tdata.data == Some(data) && !tdata.isDeleted
    {
      if timeout < 0 { return null; }
      tdata := DataGet(grant);
      if tdata == null { return null; }
      var n := timeout / tickTimeout;
      n := if n < 1 then 1 else n;
      n := curTick + (n - 1);
      TickIndex(timeout);
      assert n == curTick;
      tdata.data := Some(data);
      ticks := ticks[n := [tdata] + ticks[n]];
    }

    lemma TickIndex(timeout: int)
      requires 0 <= timeout < 2 * tickTimeout
      ensures timeout / tickTimeout <= 1
    {
    }

    /** How many ticks have passed: C division truncates, and a negative count runs no loop. */
    function TicksBy(now: int): nat
      requires 0 < tickTimeout
      reads this`oldTime
    {
      if now < oldTime then 0 else (now - oldTime) / tickTimeout
    }

    /** A tick has passed as soon as its time has; a full turn has when the time of all ticks has. */
    lemma TicksIs(now: int)
      requires 0 < tickTimeout && 0 < size
      ensures TicksBy(now) == 0 <==> now - oldTime < tickTimeout
      ensures TicksBy(now) >= size <==> now - oldTime >= size * tickTimeout
    {
      if now >= oldTime {
        DivIs(now - oldTime, tickTimeout, size);
      }
    }

    static lemma DivIs(v: nat, t: nat, n: nat)
      requires 0 < t
      ensures v / t >= n <==> v >= n * t
      ensures v / t == 0 <==> v < t
    {
      var q := v / t;
      Remains(v, t, q);
      Monotone(n, q, t);
      Monotone(q + 1, n, t);
      Monotone(1, q, t);
    }

    static lemma Remains(v: nat, t: nat, q: nat)
      requires 0 < t && q == v / t
      ensures q * t <= v < (q + 1) * t
    {
      assert v == t * (v / t) + v % t;
    }

    static lemma Monotone(a: nat, b: nat, t: nat)
      ensures a <= b ==> a * t <= b * t
    {
      if a <= b {
        assert b * t == a * t + (b - a) * t;
      }
    }

    /** A list taken off its tick: the wheel owns its entries but holds them nowhere else. */
    ghost predicate TakenOff(list: seq<TimeData<T>>)
      requires curTick < |ticks|
      reads this`emptyData, this`entries, this`ticks, this`curTick
    {
      Owned(list, emptyData, entries) && forall e | e in list :: e !in Armed()
    }

    /** One turn of the loop of `time_wheel_timeout`, with the callback "arm again what `rearm`
        selects"; what gets no memory is not selected. `rest` is still to be fired. */
    method FireOne(tdata: TimeData<T>, ghost rest: seq<TimeData<T>>, rearm: T -> bool)
      requires Valid() && TakenOff([tdata] + rest)
      modifies this`emptyData, this`curDataNum, this`entries, this`ticks, tdata, emptyData
      ensures Valid() && TakenOff(rest) && fresh(entries - old(entries))
      ensures LiveData(rest) == old(LiveData(rest))
      ensures var live := !old(tdata.isDeleted) && old(tdata.data).Some?;
        LiveData(Armed()) ==
          (if live && rearm(old(tdata.data).value) then [old(tdata.data).value] else []) + old(LiveData(Armed()))
    {
      HeadTakenOff(tdata, rest);
      ghost var before := Armed();
      if !tdata.isDeleted && tdata.data.Some? {
        var d := tdata.data.value;
        if rearm(d) {
          var again := Add(d, tickTimeout, true);
          assert Armed()[1..] == before;
        }
      }
      Recycle(tdata, rest);
    }

    /** A fired entry is marked and given back. */
    method Recycle(tdata: TimeData<T>, ghost rest: seq<TimeData<T>>)
      requires Valid() && TakenOff(rest)
      requires tdata in entries && tdata !in rest && tdata !in emptyData && tdata !in Armed()
      modifies this`emptyData, this`curDataNum, this`entries, tdata
      ensures Valid() && TakenOff(rest) && old(entries) - {tdata} <= entries <= old(entries) && Armed() == old(Armed())
      ensures LiveData(rest) == old(LiveData(rest)) && LiveData(Armed()) == old(LiveData(Armed()))
    {
      tdata.isDeleted := true;
      DataPut(tdata);
    }

    lemma HeadTakenOff(tdata: TimeData<T>, rest: seq<TimeData<T>>)
      requires Valid() && TakenOff([tdata] + rest)
      ensures TakenOff(rest)
      ensures tdata in entries && tdata !in rest && tdata !in emptyData && tdata !in Armed()
    {
      var all := [tdata] + rest;
      assert all[0] == tdata && all[1..] == rest;
      forall i | 0 <= i < |rest|
        ensures rest[i] in entries && rest[i] !in emptyData && rest[i] != tdata
      {
        assert all[i + 1] == rest[i];
      }
    }

    lemma Unroll(first: seq<TimeData<T>>, k: nat)
      requires k < |first|
      ensures first[k..] == [first[k]] + first[k + 1..]
      ensures LiveData(first[k..]) ==
        (if !first[k].isDeleted && first[k].data.Some? then [first[k].data.value] else []) + LiveData(first[k + 1..])
    {
      assert first[k..][1..] == first[k + 1..];
    }

    /** `time_wheel_timeout` on a list taken off its tick. `rearm` selects the data whose callback arms
        again and gets an entry: an arming that fails changes nothing. */
    method Fire(first: seq<TimeData<T>>, rearm: T -> bool) returns (ghost fired: seq<T>)
      requires Valid() && TakenOff(first)
      modifies this`emptyData, this`curDataNum, this`entries, this`ticks, entries
      ensures Valid() && fresh(entries - old(entries)) && fired == old(LiveData(first))
      ensures LiveData(Armed()) == Rearmed(fired, rearm) + old(LiveData(Armed()))
    {
      hide Owned, LiveData, TakenOff, Rearmed;
      fired := [];
      var k := 0;
      assert first[0..] == first;
      FiredNone(first, rearm);
      while k < |first|
        invariant 0 <= k <= |first| && Valid() && TakenOff(first[k..]) && fresh(entries - old(entries))
        invariant fired + LiveData(first[k..]) == old(LiveData(first))
        invariant LiveData(Armed()) == Rearmed(fired, rearm) + old(LiveData(Armed()))
      {
        Unroll(first, k);
        var tdata := first[k];
        InWheel(first[k..]);
        ghost var live := !tdata.isDeleted && tdata.data.Some?;
        ghost var d := if live then [tdata.data.value] else [];
        RearmedSnoc(fired, d, rearm);
        FireOne(tdata, first[k + 1..], rearm);
        fired := fired + d;
        k := k + 1;
      }
    }

    lemma InWheel(list: seq<TimeData<T>>)
      requires Valid() && TakenOff(list)
      ensures forall e | e in list :: e in entries
      ensures forall e | e in emptyData :: e in entries
    {
    }

    lemma FiredNone(first: seq<TimeData<T>>, rearm: T -> bool)
      ensures LiveData(first[|first|..]) == [] && Rearmed([], rearm) == []
    {
    }

    /** The ring of ticks. */
    function Next(tick: nat): nat {
      if tick + 1 == size then 0 else tick + 1
    }

    function Ahead(tick: nat, n: nat): nat {
      if n == 0 then tick else Next(Ahead(tick, n - 1))
    }

    /** Within one turn the position is plain; a full turn leads back. */
    lemma {:induction false} OneTurn(tick: nat, n: nat)
      requires tick < size && n <= size
      ensures Ahead(tick, n) == if tick + n < size then tick + n else tick + n - size
    {
      if n > 0 {
        OneTurn(tick, n - 1);
      }
    }

    lemma {:induction false} AheadAdds(tick: nat, k: nat, m: nat)
      ensures Ahead(tick, k + m) == Ahead(Ahead(tick, k), m)
    {
      if m > 0 {
        AheadAdds(tick, k, m - 1);
      }
    }

    lemma {:induction false} AheadOnRing(tick: nat, n: nat)
      requires tick < size
      ensures Ahead(tick, n) < size
    {
      if n > 0 {
        AheadOnRing(tick, n - 1);
      }
    }

    /** Less than a full turn ahead is another tick; a full turn leads back. */
    lemma TurnsApart(tick: nat, k: nat, n: nat)
      requires tick < size && k <= n
      ensures Ahead(tick, k) < size
      ensures 0 < n - k < size ==> Ahead(tick, k) != Ahead(tick, n)
      ensures n - k == size ==> Ahead(tick, k) == Ahead(tick, n)
    {
      AheadOnRing(tick, k);
      AheadAdds(tick, k, n - k);
      if n - k <= size {
        OneTurn(Ahead(tick, k), n - k);
      }
    }

    /** Take the list of one tick, fire it, and leave the tick empty. */
    method FireTick(idx: nat, rearm: T -> bool) returns (ghost fired: seq<T>)
      requires 0 < tickTimeout && curTick < size == |ticks| && idx < size && curDataNum == |entries|
      requires forall i | 0 <= i < size && i != idx && i != curTick :: ticks[i] == []
      requires idx != curTick ==> ticks[curTick] == [] || ticks[idx] == []
      requires Owned(ticks[idx], emptyData, entries) && Owned(ticks[curTick], emptyData, entries)
      modifies this`emptyData, this`curDataNum, this`entries, this`ticks, entries
      ensures Valid() && fresh(entries - old(entries))
      ensures fired == old(LiveData(ticks[idx]))
      ensures idx == curTick ==> Armed() == []
      ensures idx != curTick ==> LiveData(Armed()) == Rearmed(fired, rearm) + old(LiveData(ticks[curTick]))
    {
      hide Owned, LiveData, Rearmed;
      var first := ticks[idx];
      NoneOwned(first, emptyData, entries);
      ticks := ticks[idx := []];
      Nothing(rearm);
      fired := Fire(first, rearm);
      NoneOwned(Armed(), emptyData, entries);
      ticks := ticks[idx := []];
    }

    lemma Nothing(rearm: T -> bool)
      ensures LiveData<T>([]) == [] && Rearmed<T>([], rearm) == []
    {
    }

    /** A later tick of the same pass: empty, unless it is the one the wheel has moved on to. */
    method FireLater(idx: nat, rearm: T -> bool) returns (ghost fired: seq<T>)
      requires Valid() && idx < size
      modifies this`emptyData, this`curDataNum, this`entries, this`ticks, entries
      ensures Valid() && fresh(entries - old(entries))
      ensures idx == curTick || old(Armed()) == [] ==> Armed() == []
      ensures idx != curTick ==> fired == [] && LiveData(Armed()) == old(LiveData(Armed()))
    {
      hide Owned;
      if ticks[idx] == [] { return []; }
      fired := FireTick(idx, rearm);
    }

    /** `time_wheel_handle`: move on first, so that callbacks arm relative to the new time, then
        fire every tick passed and empty it. What was armed fires first; what the callback arms
        again stays in the wheel exactly when fewer ticks have passed than the wheel has, and is
        lost, all of it, when a full turn or more has passed. */
    method Handle(now: int, rearm: T -> bool) returns (ghost fired: seq<T>)
      requires Valid()
      modifies this, entries
      ensures Valid() && fresh(entries - old(entries))
      ensures old(TicksBy(now)) == 0 ==> unchanged(this) && fired == []
      ensures old(TicksBy(now)) > 0 ==>
        && oldTime == now && curTick == Ahead(old(curTick), old(TicksBy(now)))
        && old(LiveData(Armed())) <= fired
      ensures 0 < old(TicksBy(now)) < size ==>
        fired == old(LiveData(Armed())) && LiveData(Armed()) == Rearmed(fired, rearm)
      ensures old(TicksBy(now)) >= size ==> Armed() == []
    {
      hide LiveData, Rearmed, Owned;
      FiredNone([], rearm);
      var tickN := TicksBy(now);
      var oldTick := curTick;
      fired := [];
      if tickN == 0 { return; }
      var tick := oldTick;
      for n := 0 to tickN
        invariant tick == Ahead(oldTick, n) && unchanged(this) && unchanged(entries)
      {
        tick := Next(tick);
      }
      oldTime := now;
      curTick := tick;
      TurnsApart(oldTick, tickN, tickN);
      TurnsApart(oldTick, 0, tickN);
      NoneOwned(ticks[oldTick], emptyData, entries);
      fired := FireTick(oldTick, rearm);
      ghost var more := Sweep(oldTick, tickN, rearm);
      fired := fired + more;
    }

    /** The rest of the pass, after the tick that held the entries. */
    method Sweep(oldTick: nat, tickN: nat, rearm: T -> bool) returns (ghost fired: seq<T>)
      requires Valid() && oldTick < size && 0 < tickN && curTick == Ahead(oldTick, tickN)
      requires tickN == size ==> Armed() == []
      modifies this`emptyData, this`curDataNum, this`entries, this`ticks, entries
      ensures Valid() && fresh(entries - old(entries))
      ensures tickN < size ==> fired == [] && LiveData(Armed()) == old(LiveData(Armed()))
      ensures tickN >= size ==> Armed() == []
    {
      hide Owned, LiveData, Rearmed;
      fired := [];
      var tick := Next(oldTick);
      for n := 1 to tickN
        invariant tick == Ahead(oldTick, n) && unchanged(this`curTick)
        invariant Valid() && fresh(entries - old(entries))
        invariant tickN < size ==> fired == [] && LiveData(Armed()) == old(LiveData(Armed()))
        invariant n + size > tickN >= size ==> Armed() == []
      {
        TurnsApart(oldTick, n, tickN);
        ghost var more := FireLater(tick, rearm);
        fired := fired + more;
        tick := Next(tick);
      }
    }

    /** The same pass for a client that runs its callback itself: within one turn only the tick the
        wheel leaves holds anything, and its list is handed out. */
    method Advance(now: int) returns (first: seq<TimeData<T>>)
      requires Valid() && TicksBy(now) < size
      modifies this`oldTime, this`curTick, this`ticks
      ensures Valid() && TakenOff(first)
      ensures old(TicksBy(now)) == 0 ==> unchanged(this) && first == []
      ensures old(TicksBy(now)) > 0 ==> oldTime == now && first == old(Armed()) && Armed() == []
    {
      var tickN := TicksBy(now);
      if tickN == 0 { return []; }
      var tick := curTick;
      for n := 0 to tickN
        invariant tick == Ahead(curTick, n) && unchanged(this)
      {
        tick := Next(tick);
      }
      TurnsApart(curTick, tickN, tickN);
      TurnsApart(curTick, 0, tickN);
      first := ticks[curTick];
      ticks := ticks[curTick := []];
      oldTime, curTick := now, tick;
    }

    /** `time_wheel_release`, up to the first use of a tick that has been freed: the loop takes one step
        more than there are ticks, and the ring leads that step back to where it began. Before that
        every tick has been freed once, and everything armed called back. */
    method Release(rearm: T -> bool) returns (ghost fired: seq<T>, freed: set<nat>, steps: nat)
      requires Valid()
      modifies this`emptyData, this`curDataNum, this`entries, this`ticks, entries
      ensures fired == old(LiveData(Armed())) && (forall i: nat :: i in freed <==> i < size)
      ensures steps == size && Ahead(curTick, steps) in freed
    {
      hide Owned, LiveData, Rearmed;
      var tick := curTick;
      freed, steps := {}, 0;
      fired := [];
      while steps <= size
        invariant steps <= size && tick == Ahead(curTick, steps) && Valid() && fresh(entries - old(entries))
        invariant forall i: nat :: i in freed <==> Passed(i, steps)
        invariant if steps == 0 then LiveData(Armed()) == old(LiveData(Armed())) && fired == []
                  else Armed() == [] && fired == old(LiveData(Armed()))
        decreases size + 1 - steps
      {
        Visits(steps, tick);
        if tick in freed { return; }
        ghost var more;
        if steps == 0 {
          more := FireTick(tick, rearm);
        } else {
          more := FireLater(tick, rearm);
        }
        fired := fired + more;
        freed := freed + {tick};
        tick := Next(tick);
        steps := steps + 1;
      }
    }

    /** A walk of n steps from the current tick comes by tick i. */
    ghost predicate Passed(i: nat, n: nat)
      reads this`curTick
    {
      exists k: nat :: k < n && Ahead(curTick, k) == i
    }

    /** Within a turn every tick is passed once. */
    lemma Visits(n: nat, tick: nat)
      requires curTick < size && n <= size && tick == Ahead(curTick, n)
      ensures tick < size && (Passed(tick, n) <==> n == size)
      ensures forall i: nat :: Passed(i, n + 1) <==> Passed(i, n) || i == tick
      ensures forall i: nat | Passed(i, n) :: i < size
      ensures n == size ==> forall i: nat | i < size :: Passed(i, n)
    {
      AheadOnRing(curTick, n);
      forall k: nat | k < n
        ensures Ahead(curTick, k) == tick <==> k == 0 && n == size
        ensures Ahead(curTick, k) < size
      {
        TurnsApart(curTick, k, n);
      }
      if n == size {
        assert Ahead(curTick, 0) == tick;
        forall i: nat | i < size
          ensures Passed(i, n)
        {
          var k := if curTick <= i then i - curTick else i + size - curTick;
          OneTurn(curTick, k);
          assert Ahead(curTick, k) == i;
        }
      }
    }
  }

  /** A run in which an entry is called back, arms the wheel again, and is lost: the wheel has two
      ticks, and both have passed when it is polled. */
  method LostEntry() returns (w: Wheel<int>, ghost fired: seq<int>)
    ensures w.Valid() && [7] <= fired && w.Armed() == []
  {
    hide Owned;
    w := new Wheel<int>(1, 10, 0, 0);
    var tdata := w.Add(7, 10, true);
    assert w.Armed() == [tdata];
    assert LiveData([tdata]) == [7] by {
      assert [tdata][1..] == [];
    }
    assert w.TicksBy(20) == 2;
    fired := w.Handle(20, d => true);
  }
}
