/** `pywind/lib/timer.py`: names with deadlines, in two dictionaries and a sorted list of times. A
    dictionary used as a set of names is a sequence in insertion order. The clock does not run back. */
module PyTimer {

  ghost predicate Distinct<N>(s: seq<N>) {
    forall i, j | 0 <= i < j < |s| :: s[i] != s[j]
  }

  ghost predicate Sorted(s: seq<int>) {
    forall i, j | 0 <= i <= j < |s| :: s[i] <= s[j]
  }

  /** Appending to a sorted list and sorting. */
  function Insert(s: seq<int>, t: int): (r: seq<int>)
    requires Sorted(s)
    ensures Sorted(r) && forall x :: x in r <==> x in s || x == t
  {
    if s == [] || t <= s[0] then [t] + s
    else
      assert forall x | x in s :: s[0] <= x;
      var r := Insert(s[1..], t);
      assert forall i | 0 <= i < |r| :: r[i] in r && (r[i] in s[1..] || r[i] == t);
      [s[0]] + r
  }

  function Without<N(==,!new)>(s: seq<N>, n: N): (r: seq<N>)
    ensures forall x :: x in r <==> x in s && x != n
    ensures Distinct(s) ==> Distinct(r)
  {
    if s == [] then []
    else
      var r := Without(s[1..], n);
      assert Distinct(s) ==> Distinct(s[1..]) && s[0] !in s[1..];
      assert forall i | 0 <= i < |r| :: r[i] in r;
      if s[0] == n then r else [s[0]] + r
  }

  datatype Call<N> = Set(name: N, seconds: int, now: int) | Drop(name: N) | Poll(now: int)

  /** What a call does to the deadlines and the time of the last poll. */
  ghost function Step<N>(info: map<N, int>, last: int, c: Call<N>): (map<N, int>, int) {
    match c
    case Set(name, seconds, now) => (if seconds < 1 then info else info[name := now + seconds], last)
    case Drop(name) => (info - {name}, last)
    case Poll(now) => (info, now)
  }

  lemma SetStep<N>(info: map<N, int>, last: int, name: N, seconds: int, now: int)
    ensures Step(info, last, Set(name, seconds, now)) ==
      (if seconds < 1 then info else info[name := now + seconds], last)
  {
  }

  /** The deadline has come since the last poll. */
  ghost predicate Due<N>(info: map<N, int>, last: int, now: int, n: N) {
    n in info && last < info[n] <= now
  }

  lemma PollStep<N>(info: map<N, int>, last: int, now: int)
    ensures Step(info, last, Poll(now)) == (info, now)
    ensures forall n :: Due(info, last, now, n) <==> n in info && last < info[n] <= now
  {
  }

  class Timer<N(==,!new)> {
    var info: map<N, int>
    var reverse: map<int, seq<N>>
    var timeList: seq<int>

    // when the names were last asked for; a deadline up to then has been reported
    ghost var last: int

    /** The dictionaries are inverse to each other. */
    ghost predicate Inverse()
      reads this`info, this`reverse
    {
      && (forall n | n in info :: info[n] in reverse && n in reverse[info[n]])
      && (forall t | t in reverse :: reverse[t] != [] && Distinct(reverse[t]) && forall n | n in reverse[t] ::
        n in info && info[n] == t)
    }

    /** Every deadline that has not been reported is in the list, and no other that has. */
    ghost predicate Ahead()
      reads this`info, this`timeList, this`last
    {
      && Sorted(timeList) && 0 <= last
      && (forall t | t in timeList :: t > last)
      && (forall n | n in info && info[n] > last :: info[n] in timeList)
    }

    ghost predicate Valid()
      reads this
    {
      Inverse() && Ahead()
    }

    constructor ()
      ensures Valid() && info == map[] && last == 0
    {
      info, reverse, timeList, last := map[], map[], [], 0;
    }

    /** The dictionaries are inverse to each other, but for one name that is only in the first, if at all. */
    ghost predicate InverseBut(name: N)
      reads this`info, this`reverse
    {
      && (forall n | n in info && n != name :: info[n] in reverse && n in reverse[info[n]])
      && (forall t | t in reverse ::
            reverse[t] != [] && Distinct(reverse[t]) && forall n | n in reverse[t] ::
              n != name && n in info && info[n] == t)
    }

    /** Take a name out of the second dictionary; a time without names goes too. */
    method Forget(name: N, t: int)
      requires Inverse() && name in info && info[name] == t
      modifies this`reverse
      ensures InverseBut(name)
    {
      reverse := reverse[t := Without(reverse[t], name)];
      if reverse[t] == [] {
        reverse := reverse - {t};
      }
    }

    method Enter(name: N, t: int)
      requires InverseBut(name)
      modifies this`info, this`reverse
      ensures Inverse() && info == old(info)[name := t]
    {
      info := info[name := t];
      if t !in reverse {
        reverse := reverse[t := []];
      }
      ghost var was := reverse[t];
      assert name !in was && Distinct(was) && forall n | n in was :: n in info && info[n] == t;
      reverse := reverse[t := reverse[t] + [name]];
      assert Distinct(was + [name]) && forall n | n in was + [name] :: n in info && info[n] == t;
    }

    /** `set_timeout`: the last deadline set for a name is the one that counts. */
    method SetTimeout(name: N, seconds: int, now: int)
      requires Valid() && last <= now
      modifies this`info, this`reverse, this`timeList
      ensures Valid() && (info, last) == Step(old(info), old(last), Set(name, seconds, now))
    {
      hide *;
      ValidElim();
      SetStep(info, last, name, seconds, now);
      var t, oldT := now + seconds, 0;
      if seconds < 1 { return; }
      if name in info {
        oldT := info[name];
        Forget(name, oldT);
      } else {
        Unknown(name);
      }
      Enter(name, t);
      if oldT != t {
        timeList := Insert(timeList, t);
      }
      Armed(name, t);
    }

    lemma ValidElim()
      requires Valid()
      ensures Inverse() && Ahead() && Sorted(timeList) && 0 <= last
    {
    }

    twostate lemma Armed(new name: N, new t: int)
      requires old(Ahead()) && Inverse() && last == old(last) && info == old(info)[name := t] && t > last
      requires timeList == if name in old(info) && old(info)[name] == t then old(timeList) else Insert(old(timeList), t)
      ensures Valid()
    {
    }

    lemma Unknown(name: N)
      requires Inverse() && name !in info
      ensures InverseBut(name)
    {
    }

    /** `drop`; an unknown name is an exception (`ok` is false) and changes nothing. */
    method Drop(name: N) returns (ok: bool)
      requires Valid()
      modifies this`info, this`reverse
      ensures Valid() && (ok <==> name in old(info)) && (info, last) == Step(old(info), old(last), Call.Drop(name))
    {
      ok := name in info;
      if !ok {
        assert info - {name} == info;
        return;
      }
      var t := info[name];
      Forget(name, t);
      info := info - {name};
    }

    /** `get_timeout_names`: exactly the names whose deadline has come since the last call, each once.
        They stay in both dictionaries. */
    method GetTimeoutNames(now: int) returns (results: seq<N>)
      requires Valid() && last <= now
      modifies this`timeList, this`last
      ensures Valid() && (info, last) == Step(old(info), old(last), Poll(now)) && Distinct(results)
      ensures forall n :: n in results <==> Due(old(info), old(last), now, n)
    {
      var names := [];
      while timeList != []
        invariant Sorted(timeList) && forall t | t in timeList :: t in old(timeList)
        invariant forall t | t in old(timeList) :: t in timeList || t <= now
        invariant forall n | n in names :: n in info && old(last) < info[n] <= now
        invariant forall n | n in info && info[n] in old(timeList) :: n in names || info[n] in timeList
        decreases |timeList|
      {
        var t := timeList[0];
        if t - now > 0 { break; }
        ghost var rest := timeList[1..];
        assert timeList == [t] + rest;
        timeList := timeList[1..];
        if t in reverse {
          names := names + reverse[t];
        }
      }
      assert forall t | t in timeList :: t > now;
      last := now;
      results := Unique(names);
    }

    /** The names of a list, each once. */
    static method Unique(names: seq<N>) returns (results: seq<N>)
      ensures Distinct(results) && forall n :: n in results <==> n in names
    {
      results := [];
      var k := 0;
      while k < |names|
        invariant 0 <= k <= |names| && Distinct(results) && forall n :: n in results <==> n in names[..k]
      {
        if names[k] !in results {
          results := results + [names[k]];
        }
        k := k + 1;
      }
      assert names[..k] == names;
    }
  }

  // ---------- whole runs ----------

  /** What a run of calls reports about one name: the times of the polls that return it. */
  ghost function Reports<N>(info: map<N, int>, last: int, calls: seq<Call<N>>, n: N): seq<int>
    decreases |calls|
  {
    if calls == [] then []
    else
      var after := Step(info, last, calls[0]);
      (if calls[0].Poll? && Due(info, last, calls[0].now, n) then [calls[0].now] else [])
      + Reports(after.0, after.1, calls[1..], n)
  }

  /** The clock does not run back, and the calls do not set or drop the name. */
  ghost predicate Quiet<N>(last: int, calls: seq<Call<N>>, n: N)
    decreases |calls|
  {
    calls == [] ||
    match calls[0]
    case Set(name, _, now) => name != n && last <= now && Quiet(last, calls[1..], n)
    case Drop(name) => name != n && Quiet(last, calls[1..], n)
    case Poll(now) => last <= now && Quiet(now, calls[1..], n)
  }

  /** The first poll at or after a time. */
  ghost function FirstFrom<N>(calls: seq<Call<N>>, t: int): seq<int> {
    if calls == [] then [] else if calls[0].Poll? && calls[0].now >= t then [calls[0].now] else FirstFrom(calls[1..], t)
  }

  /** A deadline that stands is reported once, by the first poll at or after it; one that has been
      reported is not reported again, although the name stays in the dictionaries. */
  lemma {:induction false} ReportedOnce<N>(info: map<N, int>, last: int, calls: seq<Call<N>>, n: N)
    requires n in info && Quiet(last, calls, n)
    ensures Reports(info, last, calls, n) == if info[n] > last then FirstFrom(calls, info[n]) else []
    decreases |calls|
  {
    if calls != [] {
      var after := Step(info, last, calls[0]);
      ReportedOnce(after.0, after.1, calls[1..], n);
    }
  }

  /** A deadline that is set again before it has come is never reported: only the new one is. */
  lemma Superseded<N>(info: map<N, int>, last: int, n: N, seconds: int, now: int, calls: seq<Call<N>>)
    requires seconds >= 1 && last <= now && Quiet(last, calls, n)
    ensures Reports(info, last, [Set(n, seconds, now)] + calls, n) == FirstFrom(calls, now + seconds)
  {
    var all := [Set(n, seconds, now)] + calls;
    assert all[1..] == calls;
    ReportedOnce(info[n := now + seconds], last, calls, n);
  }

  /** A name that is dropped is not reported any more, whatever deadline it had; nor is an unknown one. */
  lemma DroppedNever<N>(info: map<N, int>, last: int, calls: seq<Call<N>>, n: N)
    requires Quiet(last, calls, n)
    ensures Reports(info, last, [Call.Drop(n)] + calls, n) == []
    ensures n !in info ==> Reports(info, last, calls, n) == []
  {
    var all := [Call.Drop(n)] + calls;
    assert all[1..] == calls;
    UnknownNever(info - {n}, last, calls, n);
    if n !in info {
      UnknownNever(info, last, calls, n);
    }
  }

  lemma {:induction false} UnknownNever<N>(info: map<N, int>, last: int, calls: seq<Call<N>>, n: N)
    requires n !in info && Quiet(last, calls, n)
    ensures Reports(info, last, calls, n) == []
    decreases |calls|
  {
    if calls != [] {
      var after := Step(info, last, calls[0]);
      UnknownNever(after.0, after.1, calls[1..], n);
    }
  }
}
