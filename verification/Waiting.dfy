/** What a client of the time wheel keeps track of: which of its objects waits with which entry, while
    entries are armed, marked, and fired one after the other. */
module Waiting {
  import opened Bytes
  import opened TimeWheel

  type Owners<T> = map<T, TimeData<T>>

  /** An entry that is not marked belongs to the object it would be handed to. */
  ghost predicate Belongs<T>(e: TimeData<T>, owners: Owners<T>)
    reads e
  {
    !e.isDeleted ==> e.data.Some? && e.data.value in owners && owners[e.data.value] == e
  }

  /** Every owner waits with an entry of its own, in the wheel or in the list `rest` that has been taken
      off it, and no other entry is live. `loose` is what is being fired: in no list at all. */
  ghost predicate Waits<T>(w: Wheel<T>, loose: set<TimeData<T>>, rest: seq<TimeData<T>>, owners: Owners<T>)
    reads w, w.entries, rest
  {
    && w.Valid() && w.TakenOff(rest)
    && (forall e | e in loose :: e in w.entries && e !in w.emptyData && e !in w.Armed() && e !in rest)
    && (forall e | e in w.Armed() :: Belongs(e, owners))
    && (forall e | e in rest :: Belongs(e, owners))
    && (forall s | s in owners ::
          && (owners[s] in w.Armed() || owners[s] in rest)
          && !owners[s].isDeleted && owners[s].data == Some(s))
  }

  lemma WaitsElim<T>(w: Wheel<T>, loose: set<TimeData<T>>, rest: seq<TimeData<T>>, owners: Owners<T>)
    requires Waits(w, loose, rest, owners)
    ensures w.Valid() && w.TakenOff(rest)
    ensures forall e | e in w.emptyData :: e in w.entries
    ensures forall e | e in loose :: e in w.entries && e !in w.emptyData && e !in w.Armed() && e !in rest
    ensures forall s | s in owners :: owners[s] in w.entries
  {
  }

  lemma Lists<T>(w: Wheel<T>, loose: set<TimeData<T>>, rest: seq<TimeData<T>>, owners: Owners<T>)
    requires Waits(w, loose, rest, owners)
    ensures forall e | e in rest && !e.isDeleted :: e.data.Some? && e.data.value in owners && owners[e.data.value] == e
    ensures forall s | s in owners :: !owners[s].isDeleted && owners[s].data == Some(s)
  {
  }

  /** Nothing waits in a new wheel. */
  lemma Starts<T>(w: Wheel<T>)
    requires w.Valid() && w.Armed() == []
    ensures Waits(w, {}, [], map[])
  {
  }

  /** Without a list taken off it the wheel would call back exactly the owners. */
  lemma {:induction false} LiveAre<T>(w: Wheel<T>, owners: Owners<T>)
    requires Waits(w, {}, [], owners)
    ensures forall s :: s in LiveData(w.Armed()) <==> s in owners
  {
    forall s | s in LiveData(w.Armed())
      ensures s in owners
    {
      var e := LiveEntry(w.Armed(), s);
    }
    forall s | s in owners
      ensures s in LiveData(w.Armed())
    {
      EntryLive(w.Armed(), owners[s]);
    }
  }

  lemma {:induction false} LiveEntry<T>(list: seq<TimeData<T>>, s: T) returns (e: TimeData<T>)
    requires s in LiveData(list)
    ensures e in list && !e.isDeleted && e.data == Some(s)
  {
    if !list[0].isDeleted && list[0].data == Some(s) {
      e := list[0];
    } else {
      e := LiveEntry(list[1..], s);
    }
  }

  lemma {:induction false} EntryLive<T>(list: seq<TimeData<T>>, e: TimeData<T>)
    requires e in list && !e.isDeleted && e.data.Some?
    ensures e.data.value in LiveData(list)
  {
    if list[0] != e {
      EntryLive(list[1..], e);
    }
  }

  /** The object begins to wait, unless there is no memory. */
  method Arm<T>(w: Wheel<T>, s: T, timeout: int, grant: bool,
    ghost loose: set<TimeData<T>>, ghost rest: seq<TimeData<T>>, ghost owners: Owners<T>)
    returns (e: TimeData?<T>)
    requires Waits(w, loose, rest, owners) && s !in owners && 0 <= timeout < 2 * w.tickTimeout
    modifies w`emptyData, w`curDataNum, w`entries, w`ticks, w.emptyData
    ensures e == null <==> old(w.emptyData) == [] && !grant
    ensures e == null ==> unchanged(w) && Waits(w, loose, rest, owners)
    ensures e != null ==> Waits(w, loose, rest, owners[s := e]) && e !in rest && (e in old(w.emptyData) || fresh(e))
    ensures forall o | o in w.entries :: o in old(w.entries) || !old(allocated(o))
  {
    hide *;
    WaitsElim(w, loose, rest, owners);
    e := w.Add(s, timeout, grant);
    if e != null {
      Armed(w, e, s, loose, rest, owners);
    }
  }

  twostate lemma Armed<T>(w: Wheel<T>, new e: TimeData<T>, new s: T,
    new loose: set<TimeData<T>>, new rest: seq<TimeData<T>>, new owners: Owners<T>)
    requires old(allocated(loose)) && old(allocated(rest)) && old(allocated(owners)) && old(allocated(s))
    requires old(Waits(w, loose, rest, owners)) && s !in owners && w.Added(e, s)
    ensures Waits(w, loose, rest, owners[s := e]) && e !in rest && (e in old(w.emptyData) || !old(allocated(e)))
    ensures forall o | o in w.entries :: o in old(w.entries) || !old(allocated(o))
  {
  }

  /** The object's entry is marked: the wheel will not call it back. */
  method Cancel<T>(w: Wheel<T>, e: TimeData<T>, ghost s: T, ghost loose: set<TimeData<T>>,
    ghost rest: seq<TimeData<T>>, ghost owners: Owners<T>)
    requires Waits(w, loose, rest, owners) && s in owners && owners[s] == e
    modifies e`isDeleted
    ensures Waits(w, loose, rest, owners - {s})
  {
    hide Owned;
    e.isDeleted := true;
  }

  /** Marking what is being fired changes nothing. */
  method CancelLoose<T>(w: Wheel<T>, e: TimeData<T>, ghost loose: set<TimeData<T>>,
    ghost rest: seq<TimeData<T>>, ghost owners: Owners<T>)
    requires Waits(w, loose, rest, owners) && e in loose
    modifies e`isDeleted
    ensures Waits(w, loose, rest, owners)
  {
    hide Owned;
    e.isDeleted := true;
  }

  /** The wheel moves on, less than a full turn; what has waited is to be fired. */
  method Take<T>(w: Wheel<T>, now: int, ghost owners: Owners<T>) returns (first: seq<TimeData<T>>)
    requires Waits(w, {}, [], owners) && w.TicksBy(now) < w.size
    modifies w`oldTime, w`curTick, w`ticks
    ensures Waits(w, {}, first, owners)
    ensures old(w.TicksBy(now)) == 0 ==> unchanged(w) && first == []
    ensures old(w.TicksBy(now)) > 0 ==> w.oldTime == now && forall s | s in owners :: owners[s] in first
  {
    hide Owned;
    first := w.Advance(now);
  }

  /** The head of the list is about to be fired: its owner, if it is not marked, does not wait any more. */
  lemma Head<T>(w: Wheel<T>, e: TimeData<T>, rest: seq<TimeData<T>>, owners: Owners<T>)
    requires Waits(w, {}, [e] + rest, owners)
    ensures e in w.entries && e !in rest
    ensures e.isDeleted ==> Waits(w, {e}, rest, owners)
    ensures !e.isDeleted ==>
      && e.data.Some? && e.data.value in owners && owners[e.data.value] == e
      && Waits(w, {e}, rest, owners - {e.data.value})
  {
    hide Owned;
    w.HeadTakenOff(e, rest);
    assert ([e] + rest)[0] == e && e in [e] + rest;
    assert forall f | f in rest :: f in [e] + rest && f != e;
    assert forall f | f in [e] + rest :: f == e || f in rest;
  }

  /** After its callback the entry is marked and given back. */
  method Recycle<T>(w: Wheel<T>, e: TimeData<T>, ghost rest: seq<TimeData<T>>, ghost owners: Owners<T>)
    requires Waits(w, {e}, rest, owners)
    modifies w`emptyData, w`curDataNum, w`entries, e
    ensures Waits(w, {}, rest, owners) && w.entries <= old(w.entries)
  {
    hide *;
    WaitsElim(w, {e}, rest, owners);
    w.Recycle(e, rest);
    Recycled(w, e, rest, owners);
  }

  twostate lemma Recycled<T>(w: Wheel<T>, new e: TimeData<T>, new rest: seq<TimeData<T>>, new owners: Owners<T>)
    requires old(allocated(e)) && old(allocated(rest)) && old(allocated(owners))
    requires old(Waits(w, {e}, rest, owners)) && w.Valid() && w.TakenOff(rest)
    requires w.curTick == old(w.curTick) && w.ticks == old(w.ticks)
    requires forall f | f in old(w.entries) && f != e :: unchanged(f)
    ensures Waits(w, {}, rest, owners)
  {
  }
}
