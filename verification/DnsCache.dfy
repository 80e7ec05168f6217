/** `ixc_syscore/DNS/pylib/DNSCache.py`: answers kept for a while, and checked every ten seconds by the
    Python timer. The clock is a real; the timer sees its whole seconds. One pass reads it once. */
module DnsCache {
  import opened Bytes
  import PyTimer

  const A_RECORD := 0
  const AAAA_RECORD := 1
  const RECHECK := 10

  datatype Record = Record(time: real, address: string)

  /** The name under which the timer knows a record. */
  function TimerName(kind: int, name: string): string {
    (if kind == A_RECORD then "A_" else "AAAA_") + name
  }

  /** `str.find` for one character. */
  function Find(s: string, c: char): (p: int)
    ensures -1 <= p < |s|
    ensures p >= 0 ==> s[p] == c && forall i | 0 <= i < p :: s[i] != c
    ensures p < 0 ==> c !in s
  {
    if s == [] then -1
    else if s[0] == c then 0
    else var p := Find(s[1..], c); if p < 0 then -1 else p + 1
  }

  lemma TimerNameSplits(kind: int, name: string)
    requires kind == A_RECORD || kind == AAAA_RECORD
    ensures var s := TimerName(kind, name); var p := Find(s, '_');
      && p > 0 && s[..p] == (if kind == A_RECORD then "A" else "AAAA") && s[p + 1..] == name
  {
    var s := TimerName(kind, name);
    var p := Find(s, '_');
    var q := if kind == A_RECORD then 1 else 4;
    assert s[q] == '_' && forall i | 0 <= i < q :: s[i] != '_';
    assert s[..q] == if kind == A_RECORD then "A" else "AAAA";
  }

  class Cache {
    var cacheTimeout: int
    var aRecords: map<string, Record>
    var aaaaRecords: map<string, Record>
    const timer: PyTimer.Timer<string>

    // by timer name, the longest timeout in force since the record was stored or last checked
    ghost var limits: map<string, int>

    /** A check of this record lies ahead, and soon enough. */
    ghost predicate Held(name: string, r: Record)
      reads this`limits, timer
    {
      && name in timer.info && timer.info[name] > timer.last
      && name in limits && timer.info[name] as real - r.time < (limits[name] + RECHECK) as real
    }

    /** The timeout in force now is the only one there has been for the records there are. */
    ghost predicate Steady()
      reads this`limits, this`cacheTimeout
    {
      forall n | n in limits :: limits[n] == cacheTimeout
    }

    ghost predicate Valid()
      reads this, timer
    {
      && timer.Valid() && 30 <= cacheTimeout
      && (forall n | n in aRecords :: Held(TimerName(A_RECORD, n), aRecords[n]))
      && (forall n | n in aaaaRecords :: Held(TimerName(AAAA_RECORD, n), aaaaRecords[n]))
    }

    constructor ()
      ensures Valid() && aRecords == map[] && aaaaRecords == map[] && cacheTimeout == 120 && Steady()
      ensures fresh(timer) && timer.last == 0
    {
      cacheTimeout, aRecords, aaaaRecords, limits := 120, map[], map[], map[];
      timer := new PyTimer.Timer();
    }

    /** `set_timeout`. Records there are may have been let live by the old timeout. */
    method SetTimeout(seconds: int) returns (ok: bool)
      requires Valid()
      modifies this`cacheTimeout, this`limits
      ensures Valid() && (ok <==> 30 <= seconds <= 86400) && cacheTimeout == if ok then seconds else old(cacheTimeout)
      ensures (aRecords == map[] && aaaaRecords == map[]) || (old(Steady()) && old(cacheTimeout) <= cacheTimeout) ==>
        Steady()
      ensures forall n | n in old(limits) && n in limits ::
        limits[n] == if ok && seconds > old(limits)[n] then seconds else old(limits)[n]
    {
      hide timer.Valid, TimerName;
      if aRecords == map[] && aaaaRecords == map[] {
        limits := map[];
      }
      if seconds < 30 { return false; }
      if seconds > 86400 { return false; }
      cacheTimeout := seconds;
      limits := Raised(limits, seconds);
      return true;
    }

    static ghost function Raised(limits: map<string, int>, seconds: int): (r: map<string, int>)
      ensures r.Keys == limits.Keys
      ensures forall n | n in r :: r[n] == if seconds > limits[n] then seconds else limits[n]
    {
      map n | n in limits :: if seconds > limits[n] then seconds else limits[n]
    }

    /** `set_cache_record`. */
    method SetCacheRecord(name: string, address: string, kind: int, now: real) returns (ok: bool)
      requires Valid() && timer.last <= now.Floor
      modifies this`aRecords, this`aaaaRecords, this`limits, timer
      ensures Valid() && timer.last == old(timer.last) && (old(Steady()) ==> Steady())
      ensures ok <==> (kind == A_RECORD || kind == AAAA_RECORD) && name != "" && address != ""
      ensures aRecords == if ok && kind == A_RECORD then old(aRecords)[name := Record(now, address)] else old(aRecords)
      ensures aaaaRecords ==
        if ok && kind == AAAA_RECORD then old(aaaaRecords)[name := Record(now, address)] else old(aaaaRecords)
    {
      hide *;
      Kinds();
      ValidElim();
      if kind != A_RECORD && kind != AAAA_RECORD { return false; }
      if name == "" { return false; }
      if address == "" { return false; }
      if kind == A_RECORD {
        aRecords := aRecords[name := Record(now, address)];
      } else {
        aaaaRecords := aaaaRecords[name := Record(now, address)];
      }
      limits := limits[TimerName(kind, name) := cacheTimeout];
      PyTimer.SetStep(timer.info, timer.last, TimerName(kind, name), RECHECK, now.Floor);
      timer.SetTimeout(TimerName(kind, name), RECHECK, now.Floor);
      Stored(name, kind, Record(now, address));
      return true;
    }

    lemma Kinds()
      ensures A_RECORD == 0 && AAAA_RECORD == 1 && RECHECK == 10
    {
    }

    /** A new record has its check ahead. */
    twostate lemma Stored(name: string, new kind: int, new r: Record)
      requires old(Valid()) && timer.Valid() && timer.last == old(timer.last) <= r.time.Floor
      requires kind == A_RECORD || kind == AAAA_RECORD
      requires timer.info == old(timer.info)[TimerName(kind, name) := r.time.Floor + RECHECK]
      requires cacheTimeout == old(cacheTimeout) && limits == old(limits)[TimerName(kind, name) := cacheTimeout]
      requires aRecords == if kind == A_RECORD then old(aRecords)[name := r] else old(aRecords)
      requires aaaaRecords == if kind == AAAA_RECORD then old(aaaaRecords)[name := r] else old(aaaaRecords)
      ensures Valid() && (old(Steady()) ==> Steady())
    {
      hide timer.Valid, TimerName;
      NamesApart(name, kind);
    }

    /** No two records share a timer name. */
    lemma NamesApart(name: string, kind: int)
      requires kind == A_RECORD || kind == AAAA_RECORD
      ensures forall n | TimerName(A_RECORD, n) == TimerName(kind, name) :: n == name && kind == A_RECORD
      ensures forall n | TimerName(AAAA_RECORD, n) == TimerName(kind, name) :: n == name && kind == AAAA_RECORD
    {
      TimerNameSplits(kind, name);
      forall n
        ensures TimerName(A_RECORD, n) == TimerName(kind, name) ==> n == name && kind == A_RECORD
        ensures TimerName(AAAA_RECORD, n) == TimerName(kind, name) ==> n == name && kind == AAAA_RECORD
      {
        TimerNameSplits(A_RECORD, n);
        TimerNameSplits(AAAA_RECORD, n);
        assert "A" != "AAAA" by {
          assert |"A"| == 1 && |"AAAA"| == 4;
        }
      }
    }

    /** `clear_all_records`: the timer is not told. */
    method ClearAllRecords()
      requires Valid()
      modifies this`aRecords, this`aaaaRecords
      ensures Valid() && aRecords == map[] && aaaaRecords == map[]
    {
      aRecords := map[];
      aaaaRecords := map[];
    }

    /** The records of the timer name, and the name they are kept under. */
    function Target(name: string): Option<(int, string)> {
      var p := Find(name, '_');
      if p <= 0 then None
      else if name[..p] == "A" then Some((A_RECORD, name[p + 1..]))
      else if name[..p] == "AAAA" then Some((AAAA_RECORD, name[p + 1..]))
      else None
    }

    lemma TargetOf(kind: int, n: string)
      requires kind == A_RECORD || kind == AAAA_RECORD
      ensures Target(TimerName(kind, n)) == Some((kind, n))
    {
      TimerNameSplits(kind, n);
      assert |"A"| == 1 && |"AAAA"| == 4;
    }

    lemma NameOf(name: string)
      ensures Target(name).Some? ==>
        (Target(name).value.0 == A_RECORD || Target(name).value.0 == AAAA_RECORD)
        && TimerName(Target(name).value.0, Target(name).value.1) == name
    {
      var p := Find(name, '_');
      if Target(name).Some? {
        assert name == name[..p] + "_" + name[p + 1..];
        assert "A" + "_" == "A_" && "AAAA" + "_" == "AAAA_";
      }
    }

    /** What one pass owes the records of one kind: a check ahead, or a name still to look at, or a
        place among those to be deleted. */
    ghost predicate Cared(kind: int, records: map<string, Record>, left: seq<string>, dels: seq<string>)
      reads this`limits, timer
    {
      forall n | n in records :: Held(TimerName(kind, n), records[n]) || TimerName(kind, n) in left || n in dels
    }

    ghost predicate Overdue(records: map<string, Record>, dels: seq<string>, now: real)
      reads this`cacheTimeout
    {
      PyTimer.Distinct(dels) && forall n | n in dels :: n in records && now - records[n].time >= cacheTimeout as real
    }

    /** The list of one kind after `name` has been looked at. */
    ghost predicate Marked(kind: int, was: seq<string>, now: seq<string>, name: string) {
      now == was || (Target(name).Some? && Target(name).value.0 == kind && now == was + [Target(name).value.1])
    }

    /** One name of a pass. */
    method Look(name: string, now: real, ghost left: seq<string>, a: seq<string>, aaaa: seq<string>)
      returns (a': seq<string>, aaaa': seq<string>)
      requires timer.Valid() && timer.last == now.Floor && 30 <= cacheTimeout
      requires Cared(A_RECORD, aRecords, [name] + left, a) && Cared(AAAA_RECORD, aaaaRecords, [name] + left, aaaa)
      requires Overdue(aRecords, a, now) && Overdue(aaaaRecords, aaaa, now)
      requires forall n | n in a :: TimerName(A_RECORD, n) != name
      requires forall n | n in aaaa :: TimerName(AAAA_RECORD, n) != name
      modifies this`limits, timer
      ensures timer.Valid() && timer.last == now.Floor && (old(Steady()) ==> Steady())
      ensures Cared(A_RECORD, aRecords, left, a') && Cared(AAAA_RECORD, aaaaRecords, left, aaaa')
      ensures Overdue(aRecords, a', now) && Overdue(aaaaRecords, aaaa', now)
      ensures Marked(A_RECORD, a, a', name) && Marked(AAAA_RECORD, aaaa, aaaa', name)
    {
      hide *;
      Kinds();
      a', aaaa' := a, aaaa;
      var target := Target(name);
      MarkedNone(name, a, aaaa);
      if target == None {
        Skipped(name, left, a, aaaa);
        return;
      }
      var (kind, n) := target.value;
      var records := if kind == A_RECORD then aRecords else aaaaRecords;
      if n !in records {
        Skipped(name, left, a, aaaa);
        return;
      }
      var r := records[n];
      if now - r.time >= cacheTimeout as real {
        Outdated(name, now, left, a, aaaa);
        if kind == A_RECORD {
          a' := a + [n];
        } else {
          aaaa' := aaaa + [n];
        }
      } else {
        limits := limits[name := cacheTimeout];
        PyTimer.SetStep(timer.info, timer.last, name, RECHECK, now.Floor);
        timer.SetTimeout(name, RECHECK, now.Floor);
        Rechecked(name, now, left, a, aaaa);
      }
    }

    lemma MarkedNone(name: string, a: seq<string>, aaaa: seq<string>)
      ensures Marked(A_RECORD, a, a, name) && Marked(AAAA_RECORD, aaaa, aaaa, name)
    {
    }

    /** A name without a record is done with. */
    lemma Skipped(name: string, left: seq<string>, a: seq<string>, aaaa: seq<string>)
      requires Cared(A_RECORD, aRecords, [name] + left, a) && Cared(AAAA_RECORD, aaaaRecords, [name] + left, aaaa)
      requires Target(name).Some? ==>
        Target(name).value.1 !in if Target(name).value.0 == A_RECORD then aRecords else aaaaRecords
      ensures Cared(A_RECORD, aRecords, left, a) && Cared(AAAA_RECORD, aaaaRecords, left, aaaa)
    {
      hide timer.Valid, TimerName, Find, Target;
      Targets(name);
    }

    /** A record that is due goes on the list of its kind. */
    lemma Outdated(name: string, now: real, left: seq<string>, a: seq<string>, aaaa: seq<string>)
      requires Cared(A_RECORD, aRecords, [name] + left, a) && Cared(AAAA_RECORD, aaaaRecords, [name] + left, aaaa)
      requires Overdue(aRecords, a, now) && Overdue(aaaaRecords, aaaa, now)
      requires forall n | n in a :: TimerName(A_RECORD, n) != name
      requires forall n | n in aaaa :: TimerName(AAAA_RECORD, n) != name
      requires Target(name).Some?
      requires var (kind, n) := Target(name).value; var records := if kind == A_RECORD then aRecords else aaaaRecords;
        n in records && now - records[n].time >= cacheTimeout as real
      ensures var (kind, n) := Target(name).value;
        var b, c := if kind == A_RECORD then a + [n] else a, if kind == A_RECORD then aaaa else aaaa + [n];
        && Cared(A_RECORD, aRecords, left, b) && Cared(AAAA_RECORD, aaaaRecords, left, c)
        && Overdue(aRecords, b, now) && Overdue(aaaaRecords, c, now)
        && Marked(A_RECORD, a, b, name) && Marked(AAAA_RECORD, aaaa, c, name)
    {
      hide timer.Valid, TimerName, Find, Target;
      NameOf(name);
      Targets(name);
    }

    /** A record that is not due has its next check ahead. */
    twostate lemma Rechecked(name: string, new now: real, new left: seq<string>, new a: seq<string>,
      new aaaa: seq<string>)
      requires old(Cared(A_RECORD, aRecords, [name] + left, a))
        && old(Cared(AAAA_RECORD, aaaaRecords, [name] + left, aaaa))
      requires Target(name).Some? && aRecords == old(aRecords) && aaaaRecords == old(aaaaRecords)
      requires var (kind, n) := Target(name).value; var records := if kind == A_RECORD then aRecords else aaaaRecords;
        n in records && now - records[n].time < cacheTimeout as real
      requires cacheTimeout == old(cacheTimeout) && limits == old(limits)[name := cacheTimeout]
      requires timer.last == old(timer.last) == now.Floor && timer.info == old(timer.info)[name := now.Floor + RECHECK]
      ensures Cared(A_RECORD, aRecords, left, a) && Cared(AAAA_RECORD, aaaaRecords, left, aaaa)
      ensures old(Steady()) ==> Steady()
    {
      hide timer.Valid, TimerName, Find, Target;
      Targets(name);
    }

    lemma Targets(name: string)
      ensures forall n | TimerName(A_RECORD, n) == name :: Target(name) == Some((A_RECORD, n))
      ensures forall n | TimerName(AAAA_RECORD, n) == name :: Target(name) == Some((AAAA_RECORD, n))
    {
      forall n
        ensures TimerName(A_RECORD, n) == name ==> Target(name) == Some((A_RECORD, n))
        ensures TimerName(AAAA_RECORD, n) == name ==> Target(name) == Some((AAAA_RECORD, n))
      {
        TargetOf(A_RECORD, n);
        TargetOf(AAAA_RECORD, n);
      }
    }

    /** `cache_loop`: records that are due are deleted or checked again; afterwards every record left is
        younger than the longest timeout in force since its last check plus the ten seconds between
        checks, and none was deleted early. */
    method CacheLoop(now: real)
      requires Valid() && timer.last <= now.Floor
      modifies this`aRecords, this`aaaaRecords, this`limits, timer
      ensures Valid() && timer.last == now.Floor
      ensures Kept(A_RECORD, old(aRecords), aRecords, now) && Kept(AAAA_RECORD, old(aaaaRecords), aaaaRecords, now)
      ensures forall n | n in old(aRecords) && now - old(aRecords)[n].time < cacheTimeout as real ::
        n in aRecords && aRecords[n] == old(aRecords)[n]
      ensures forall n | n in old(aaaaRecords) && now - old(aaaaRecords)[n].time < cacheTimeout as real ::
        n in aaaaRecords && aaaaRecords[n] == old(aaaaRecords)[n]
      ensures old(Steady()) ==>
        && Steady()
        && (forall n | n in aRecords :: now - aRecords[n].time < (cacheTimeout + 10) as real)
        && (forall n | n in aaaaRecords :: now - aaaaRecords[n].time < (cacheTimeout + 10) as real)
    {
      hide *;
      Kinds();
      ValidElim();
      var delsA, delsAaaa := Mark(now);
      OverdueElim(aRecords, delsA, now);
      OverdueElim(aaaaRecords, delsAaaa, now);
      aRecords := Delete(aRecords, delsA);
      aaaaRecords := Delete(aaaaRecords, delsAaaa);
      Swept(A_RECORD, old(aRecords), aRecords, delsA, now);
      Swept(AAAA_RECORD, old(aaaaRecords), aaaaRecords, delsAaaa, now);
      ValidIntro();
      NoneEarly(A_RECORD, old(aRecords), aRecords, now);
      NoneEarly(AAAA_RECORD, old(aaaaRecords), aaaaRecords, now);
      if old(Steady()) {
        Bounded(A_RECORD, old(aRecords), aRecords, now);
        Bounded(AAAA_RECORD, old(aaaaRecords), aaaaRecords, now);
      }
    }

    lemma NoneEarly(kind: int, before: map<string, Record>, after: map<string, Record>, now: real)
      requires Kept(kind, before, after, now)
      ensures forall n | n in before && now - before[n].time < cacheTimeout as real ::
        n in after && after[n] == before[n]
    {
    }

    lemma Bounded(kind: int, before: map<string, Record>, after: map<string, Record>, now: real)
      requires Steady() && Kept(kind, before, after, now)
      ensures forall n | n in after :: now - after[n].time < (cacheTimeout + 10) as real
    {
    }

    /** The first half: look at what the timer reports. */
    method Mark(now: real) returns (delsA: seq<string>, delsAaaa: seq<string>)
      requires Valid() && timer.last <= now.Floor
      modifies this`limits, timer
      ensures timer.Valid() && timer.last == now.Floor && 30 <= cacheTimeout && (old(Steady()) ==> Steady())
      ensures Cared(A_RECORD, aRecords, [], delsA) && Cared(AAAA_RECORD, aaaaRecords, [], delsAaaa)
      ensures Overdue(aRecords, delsA, now) && Overdue(aaaaRecords, delsAaaa, now)
    {
      hide *;
      ValidElim();
      PyTimer.PollStep(timer.info, timer.last, now.Floor);
      var names := timer.GetTimeoutNames(now.Floor);
      Starts(names, now);
      delsA, delsAaaa := [], [];
      var k := 0;
      assert names[0..] == names && names[..0] == [];
      while k < |names|
        modifies this`limits, timer
        invariant 0 <= k <= |names| && timer.Valid() && timer.last == now.Floor && (old(Steady()) ==> Steady())
        invariant Cared(A_RECORD, aRecords, names[k..], delsA) && Cared(AAAA_RECORD, aaaaRecords, names[k..], delsAaaa)
        invariant Overdue(aRecords, delsA, now) && Overdue(aaaaRecords, delsAaaa, now)
        invariant Among(A_RECORD, delsA, names[..k]) && Among(AAAA_RECORD, delsAaaa, names[..k])
      {
        assert names[k..] == [names[k]] + names[k + 1..];
        NextName(names, k, delsA, delsAaaa);
        ghost var a, aaaa := delsA, delsAaaa;
        delsA, delsAaaa := Look(names[k], now, names[k + 1..], delsA, delsAaaa);
        OneMore(A_RECORD, a, delsA, names, k);
        OneMore(AAAA_RECORD, aaaa, delsAaaa, names, k);
        k := k + 1;
      }
      assert names[k..] == [];
    }

    lemma ValidElim()
      requires Valid()
      ensures timer.Valid() && 30 <= cacheTimeout
      ensures Cared(A_RECORD, aRecords, [], []) && Cared(AAAA_RECORD, aaaaRecords, [], [])
    {
    }

    lemma ValidIntro()
      requires timer.Valid() && 30 <= cacheTimeout
      requires Cared(A_RECORD, aRecords, [], []) && Cared(AAAA_RECORD, aaaaRecords, [], [])
      ensures Valid()
    {
    }

    /** Whatever is not reported has its check ahead. */
    twostate lemma Starts(names: seq<string>, new now: real)
      requires old(Valid()) && timer.info == old(timer.info) && timer.last == now.Floor && unchanged(this)
      requires forall n :: n in names <==> n in timer.info && old(timer.last) < timer.info[n] <= timer.last
      ensures Cared(A_RECORD, aRecords, names, []) && Cared(AAAA_RECORD, aaaaRecords, names, [])
      ensures Overdue(aRecords, [], now) && Overdue(aaaaRecords, [], now) && Among(A_RECORD, [], [])
        && Among(AAAA_RECORD, [], [])
    {
      hide timer.Valid, TimerName;
    }

    ghost predicate Among(kind: int, dels: seq<string>, done: seq<string>) {
      forall n | n in dels :: TimerName(kind, n) in done
    }

    lemma NextName(names: seq<string>, k: nat, a: seq<string>, aaaa: seq<string>)
      requires PyTimer.Distinct(names) && k < |names| && Among(A_RECORD, a, names[..k])
        && Among(AAAA_RECORD, aaaa, names[..k])
      ensures forall n | n in a :: TimerName(A_RECORD, n) != names[k]
      ensures forall n | n in aaaa :: TimerName(AAAA_RECORD, n) != names[k]
    {
      hide TimerName;
      assert names[k] !in names[..k];
    }

    lemma OneMore(kind: int, was: seq<string>, now: seq<string>, names: seq<string>, k: nat)
      requires k < |names| && Among(kind, was, names[..k]) && Marked(kind, was, now, names[k])
      ensures Among(kind, now, names[..k + 1])
    {
      hide TimerName, Target;
      assert names[..k + 1] == names[..k] + [names[k]];
      NameOf(names[k]);
    }

    lemma OverdueElim(records: map<string, Record>, dels: seq<string>, now: real)
      requires Overdue(records, dels, now)
      ensures PyTimer.Distinct(dels) && forall n | n in dels :: n in records
    {
    }

    /** What the deletions of one kind leave. */
    lemma Swept(kind: int, before: map<string, Record>, after: map<string, Record>, dels: seq<string>, now: real)
      requires Cared(kind, before, [], dels) && Overdue(before, dels, now) && timer.last == now.Floor
      requires forall n :: n in after <==> n in before && n !in dels
      requires forall n | n in after :: after[n] == before[n]
      ensures Kept(kind, before, after, now) && Cared(kind, after, [], [])
    {
      hide TimerName;
    }

    /** The deletion loops at the end. */
    static method Delete(records: map<string, Record>, dels: seq<string>) returns (r: map<string, Record>)
      requires PyTimer.Distinct(dels) && forall n | n in dels :: n in records
      ensures forall n :: n in r <==> n in records && n !in dels
      ensures forall n | n in r :: r[n] == records[n]
    {
      r := records;
      var k := 0;
      while k < |dels|
        invariant 0 <= k <= |dels|
        invariant forall n :: n in r <==> n in records && n !in dels[..k]
        invariant forall n | n in r :: r[n] == records[n]
      {
        assert dels[k] in dels;
        r := r - {dels[k]};
        k := k + 1;
      }
      assert dels[..k] == dels;
    }

    /** What a pass leaves of the records of one kind. */
    ghost predicate Kept(kind: int, before: map<string, Record>, after: map<string, Record>, now: real)
      reads this`limits, this`cacheTimeout
    {
      && (forall n | n in after :: n in before && after[n] == before[n] && TimerName(kind, n) in limits
            && now - after[n].time < (limits[TimerName(kind, n)] + RECHECK) as real)
      && (forall n | n in before && n !in after :: now - before[n].time >= cacheTimeout as real)
    }
  }
}
