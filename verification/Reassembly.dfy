/** Reassembly in `ixc_syscore/router/src/ipunfrag.c`: one buffer per packet identity, whose tail grows
    by the length of every fragment that arrives. Offsets are counted from where a packet starts in
    its mbuf, which is the same for all mbufs. */
module Reassembly {
  import opened Bytes
  import opened Fragments
  import Netutils
  import TimeWheel
  import Waiting

  /** What an mbuf holds behind the start of its packet. */
  const BUFFER := 0x10800 - 256
  const MAX_OFFSET := 0xff00
  const MAX_NUM := 256

  lemma Sizes()
    ensures BUFFER == 0x10700 && MAX_OFFSET == 0xff00 && MAX_NUM == 256
  {
  }

  type Key = seq<Byte>
  type Entry = TimeWheel.TimeData<Mbuf>

  /** The mbuf of one packet in the making. */
  class Mbuf {
    const data: array<Byte>
    var tail: nat
    var headerLen: nat
    var tdata: TimeWheel.TimeData?<Mbuf>

    constructor ()
      ensures fresh(data) && data.Length == BUFFER
    {
      data, tail, headerLen, tdata := new Byte[BUFFER], 0, 0, null;
    }
  }

  /** The same as a value. */
  datatype Session = Session(buf: seq<Byte>, tail: nat, headerLen: nat)

  /** What the pools grant one first fragment. */
  datatype Grants = Grants(mbuf: bool, entry: bool, timer: bool)

  /** The bytes fit the buffer at this offset, behind whatever header the first fragment had. */
  predicate Fits(at: nat, data: seq<Byte>) {
    at + 60 + |data| <= BUFFER
  }

  /** A fragment as the link delivers it: the total length is right, and unless its offset is beyond the
      limit its bytes fit the buffer where they belong. */
  ghost predicate Delivered(f: Packet) {
    && IsHeader(f.hdr) && |f.hdr| + |f.data| < 0x1_0000 && TotLen(f.hdr) == |f.hdr| + |f.data|
    && (8 * Offset(f.hdr) <= MAX_OFFSET ==> Fits(8 * Offset(f.hdr), f.data))
  }

  /** Bytes copied over part of a buffer. */
  function Write(buf: seq<Byte>, at: nat, bytes: seq<Byte>): (r: seq<Byte>)
    requires at + |bytes| <= |buf|
    ensures |r| == |buf|
    ensures r[at..at + |bytes|] == bytes
    ensures forall i | 0 <= i < |buf| && !(at <= i < at + |bytes|) :: r[i] == buf[i]
  {
    buf[..at] + bytes + buf[at + |bytes|..]
  }

  ghost predicate Wide(s: Session) {
    |s.buf| == BUFFER && 20 <= s.headerLen <= 60 && HeaderLen(s.buf) == s.headerLen
  }

  /** The buffer's header is that of the packet the key stands for. */
  ghost predicate Named(s: Session, key: Key) {
    Wide(s) && Fragments.Key(s.buf[..s.headerLen]) == key
  }

  /** The session a first fragment starts. */
  ghost function Begun(f: Packet, blank: seq<Byte>): (s: Session)
    requires Delivered(f) && |blank| == BUFFER
    ensures Wide(s)
  {
    Session(Write(blank, 0, f.hdr + f.data), |f.hdr| + |f.data|, |f.hdr|)
  }

  /** A later fragment's bytes go where its offset says; the tail grows whatever they are. */
  ghost function Grown(s: Session, at: nat, data: seq<Byte>): (r: Session)
    requires Wide(s) && 0 < at <= MAX_OFFSET && Fits(at, data)
    ensures Wide(r) && r.headerLen == s.headerLen && r.tail == s.tail + |data|
  {
    Session(Write(s.buf, at + s.headerLen, data), s.tail + |data|, s.headerLen)
  }

  /** The header of a session is its first fragment's, and no later one writes over it. */
  lemma BegunNamed(f: Packet, blank: seq<Byte>)
    requires Delivered(f) && |blank| == BUFFER
    ensures Named(Begun(f, blank), Fragments.Key(f.hdr))
  {
    assert Begun(f, blank).buf[..|f.hdr|] == f.hdr;
  }

  lemma GrownNamed(s: Session, at: nat, data: seq<Byte>, key: Key)
    requires Named(s, key) && 0 < at <= MAX_OFFSET && Fits(at, data)
    ensures Named(Grown(s, at, data), key)
  {
    assert Grown(s, at, data).buf[..s.headerLen] == s.buf[..s.headerLen];
  }

  lemma HeaderFits(f: Packet)
    requires Delivered(f)
    ensures IsHeader(f.hdr) && |f.hdr| + |f.data| <= BUFFER
  {
  }

  /** What leaves when the last fragment arrives: the buffer with the header's length and checksum renewed. */
  ghost function Finished(s: Session): (r: Session)
    requires Wide(s)
  {
    s.(buf := Summed(Netutils.Store(s.buf, TOT_LEN, Swap(s.tail % 0x1_0000)), s.headerLen))
  }

  /** The session stays unless the fragment was the last. */
  ghost function Closed(view: map<Key, Session>, key: Key, s: Session, more: bool): (map<Key, Session>, Option<Session>)
    requires Wide(s)
  {
    if more then (view[key := s], None) else (view[key := s] - {key}, Some(Finished(s)))
  }

  ghost predicate AllWide(view: map<Key, Session>) {
    forall k | k in view :: Wide(view[k])
  }

  /** The session a fragment begins or lengthens, if it is not dropped. `blank` is what a buffer from the
      pool happens to hold. */
  ghost function Gathered(view: map<Key, Session>, f: Packet, g: Grants, blank: seq<Byte>): (s: Option<Session>)
    requires Delivered(f) && |blank| == BUFFER && AllWide(view) && 8 * Offset(f.hdr) <= MAX_OFFSET
    ensures s.Some? ==> Wide(s.value)
  {
    var key := Fragments.Key(f.hdr);
    var at := 8 * Offset(f.hdr);
    if at != 0 then
      if key in view then Some(Grown(view[key], at, f.data)) else None
    else if key in view || |view| == MAX_NUM || !g.mbuf || !g.entry || !g.timer then None
    else Some(Begun(f, blank))
  }

  /** One arrival as a step on values: the new sessions and what leaves. */
  ghost function Arrive(view: map<Key, Session>, f: Packet, g: Grants, blank: seq<Byte>):
    (r: (map<Key, Session>, Option<Session>))
    requires Delivered(f) && |blank| == BUFFER && AllWide(view)
    ensures AllWide(r.0)
  {
    var key := Fragments.Key(f.hdr);
    if 8 * Offset(f.hdr) > MAX_OFFSET then (view - {key}, None)
    else
      var s := Gathered(view, f, g, blank);
      if s.None? then (view, None) else Closed(view, key, s.value, More(f.hdr))
  }

  /** The cases of an arrival. */
  lemma Outcome(view: map<Key, Session>, f: Packet, g: Grants, blank: seq<Byte>)
    requires Delivered(f) && |blank| == BUFFER && AllWide(view)
    ensures IsHeader(f.hdr)
    ensures 8 * Offset(f.hdr) > MAX_OFFSET ==> Arrive(view, f, g, blank) == (view - {Fragments.Key(f.hdr)}, None)
    ensures 8 * Offset(f.hdr) <= MAX_OFFSET ==>
      var key, at, s := Fragments.Key(f.hdr), 8 * Offset(f.hdr), Gathered(view, f, g, blank);
      && (at != 0 ==> Fits(at, f.data) && s == if key in view then Some(Grown(view[key], at, f.data)) else None)
      && (at == 0 ==>
            s == if key in view || |view| == MAX_NUM || !g.mbuf || !g.entry || !g.timer then None
                 else Some(Begun(f, blank)))
      && (s.None? ==> Arrive(view, f, g, blank) == (view, None))
      && (s.Some? && More(f.hdr) ==> Arrive(view, f, g, blank) == (view[key := s.value], None))
      && (s.Some? && !More(f.hdr) ==>
            Arrive(view, f, g, blank) == (view[key := s.value] - {key}, Some(Finished(s.value))))
  {
    hide Grown, Begun, Finished, Offset, More, Fragments.Key;
  }

  /** When a packet has a session after one of its fragments has arrived, and when it comes out: by the
      offset, in eights, and the flag for more fragments. Only a first fragment begins a session, if there
      is none and there are fewer than 256; the last fragment brings the packet out; a fragment beyond
      the offset limit ends it. */
  lemma WhenHeld(view: map<Key, Session>, f: Packet, g: Grants, blank: seq<Byte>)
    requires Delivered(f) && |blank| == BUFFER && AllWide(view) && |view| <= 256
    ensures var key, o, more := Fragments.Key(f.hdr), Number(f.hdr, 6) % 0x2000, Number(f.hdr, 6) / 0x2000 % 2 == 1;
      var r, room := Arrive(view, f, g, blank), |view| < 256 && g.mbuf && g.entry && g.timer;
      && (key in r.0 <==>
            if 8 * o > 0xff00 then false
            else if o == 0 then key in view || (room && more)
            else key in view && more)
      && (r.1.Some? <==> !more && 8 * o <= 0xff00 && if o == 0 then key !in view && room else key in view)
      && (key in view && o == 0 ==> r.0 == view)
      && r.0.Keys - {key} == view.Keys - {key} && |r.0| <= 256
  {
    hide Grown, Begun, Finished, Offset, More, Fragments.Key, Delivered;
    Outcome(view, f, g, blank);
    Layout(f.hdr);
  }

  /** Some buffer. */
  ghost function Blank(): (b: seq<Byte>)
    ensures |b| == BUFFER
  {
    seq(BUFFER, _ => 0)
  }

  lemma ValuesAdd<K, V>(m: map<K, V>, key: K, v: V)
    requires key !in m
    ensures m[key := v].Values == m.Values + {v}
  {
    var more := m[key := v];
    assert more[key] == v && forall k | k in m :: more[k] == m[k];
  }

  lemma ValuesDel<K, V>(m: map<K, V>, key: K)
    requires key in m && forall k | k in m && k != key :: m[k] != m[key]
    ensures (m - {key}).Values == m.Values - {m[key]}
  {
    var less := m - {key};
    assert forall k | k in less :: less[k] == m[k];
    forall v | v in m.Values && v != m[key]
      ensures v in less.Values
    {
      var k :| k in m && m[k] == v;
      assert k in less;
    }
  }

  // ---------- the code ----------

  class Unfrag {
    var sessions: map<Key, Mbuf>
    const wheel: TimeWheel.Wheel<Mbuf>

    // the mbufs that wait in the wheel
    ghost var waiting: Waiting.Owners<Mbuf>

    /** The mbufs are different ones, and each belongs to the packet its key stands for. */
    ghost predicate Held()
      reads this`sessions, sessions.Values, set k | k in sessions :: sessions[k].data
    {
      && (forall k | k in sessions :: sessions[k].data.Length == BUFFER && Named(Value(sessions[k]), k))
      && (forall k, l | k in sessions && l in sessions && k != l ::
        sessions[k] != sessions[l] && sessions[k].data != sessions[l].data)
    }

    /** All mbufs wait, but for `off`, in the wheel or in the list `rest` that is being fired. */
    ghost predicate Timed(loose: set<Entry>, rest: seq<Entry>, off: set<Mbuf>)
      reads this`sessions, this`waiting, wheel, wheel.entries, rest, waiting.Keys`tdata
    {
      && wheel.tickTimeout == 1 && Waiting.Waits(wheel, loose, rest, waiting)
      && off <= sessions.Values && waiting.Keys == sessions.Values - off
      && forall m | m in waiting :: m.tdata == waiting[m]
    }

    ghost predicate Valid()
      reads this, sessions.Values, set k | k in sessions :: sessions[k].data
      reads wheel, wheel.entries, waiting.Keys`tdata
    {
      Held() && Timed({}, [], {})
    }

    static ghost function Value(m: Mbuf): Session
      reads m`tail, m`headerLen, m.data
    {
      Session(m.data[..], m.tail, m.headerLen)
    }

    ghost function View(): (v: map<Key, Session>)
      reads this`sessions, sessions.Values, set k | k in sessions :: sessions[k].data
    {
      map k | k in sessions :: Value(sessions[k])
    }

    constructor (now: int)
      ensures Valid() && View() == map[] && wheel.oldTime == now
    {
      sessions, waiting := map[], map[];
      wheel := new TimeWheel.Wheel<Mbuf>(60, 1, 4096, now);
      new;
      Waiting.Starts(wheel);
    }

    ghost function Buffers(): set<object>
      reads this`sessions
    {
      sessions.Values + set k | k in sessions :: sessions[k].data
    }

    ghost function Repr(): set<object>
      reads this`sessions, wheel`entries
    {
      {this, wheel} + wheel.entries + Buffers()
    }

    lemma ValidElim()
      requires Valid()
      ensures Held() && Timed({}, [], {}) && Waiting.Waits(wheel, {}, [], waiting)
      ensures forall l | l in wheel.emptyData :: l in wheel.entries
    {
    }

    lemma ValidIntro()
      requires Held() && Timed({}, [], {})
      ensures Valid()
    {
    }

    lemma OwnParts()
      ensures {this, wheel} <= Repr() && wheel.entries <= Repr() && Buffers() <= Repr()
    {
    }

    /** The pool may have an entry when the allocator has none. */
    function Granted(g: Grants): Grants
      reads wheel`emptyData
    {
      g.(timer := g.timer || wheel.emptyData != [])
    }

    /** `ixc_ipunfrag_add`: the finished mbuf leaves with the last fragment. */
    method Add(f: Packet, g: Grants) returns (r: Mbuf?, ghost blank: seq<Byte>)
      requires Valid() && Delivered(f)
      modifies Repr()
      ensures Valid() && |blank| == BUFFER && old(AllWide(View())) && wheel.oldTime == old(wheel.oldTime)
      ensures forall o | o in Repr() :: o in old(Repr()) || !old(allocated(o))
      ensures View() == old(Arrive(View(), f, Granted(g), blank)).0
      ensures r == null <==> old(Arrive(View(), f, Granted(g), blank)).1.None?
      ensures r != null ==> old(Arrive(View(), f, Granted(g), blank)).1 == Some(Value(r))
    {
      hide *;
      ghost var view, granted := View(), Granted(g);
      blank := Blank();
      ValidElim();
      ViewFacts([]);
      Outcome(view, f, granted, blank);
      var key := Fragments.Key(f.hdr);
      ViewFacts(key);
      OwnParts();
      r := null;
      if Offset(f.hdr) * 8 > MAX_OFFSET {
        Drop(key);
        Shrinks();
        return;
      }
      var there;
      there, blank := Gather(f, g);
      Outcome(view, f, granted, blank);
      if !there || More(f.hdr) { return; }
      ValidElim();
      ViewFacts(key);
      OwnParts();
      r := sessions[key];
      label There:
      Release(key, r);
      Shrinks@There();
    }

    /** The part of `ixc_ipunfrag_add` that stores the fragment, if it is not dropped. */
    method Gather(f: Packet, g: Grants) returns (there: bool, ghost blank: seq<Byte>)
      requires Valid() && Delivered(f) && 8 * Offset(f.hdr) <= MAX_OFFSET
      modifies Repr()
      ensures Valid() && |blank| == BUFFER && old(AllWide(View())) && wheel.oldTime == old(wheel.oldTime)
      ensures forall o | o in Repr() :: o in old(Repr()) || !old(allocated(o))
      ensures var s := old(Gathered(View(), f, Granted(g), blank));
        && (there <==> s.Some?)
        && View() == if there then old(View())[Fragments.Key(f.hdr) := s.value] else old(View())
      ensures there ==> Fragments.Key(f.hdr) in sessions
    {
      hide *;
      ghost var view, granted := View(), Granted(g);
      blank := Blank();
      ValidElim();
      ViewFacts([]);
      Outcome(view, f, granted, blank);
      var key := Fragments.Key(f.hdr);
      ViewFacts(key);
      OwnParts();
      GrantedIs(g);
      var offset := Offset(f.hdr);
      if offset != 0 {
        there := key in sessions;
        if there {
          Extend(key, sessions[key], offset * 8, f.data);
          ValidIntro();
        }
      } else {
        there := key !in sessions && |sessions| != MAX_NUM && g.mbuf && g.entry;
        if there {
          there, blank := Begin(key, f, g.timer);
          Outcome(view, f, granted, blank);
        }
      }
    }

    lemma GrantedIs(g: Grants)
      ensures Granted(g) == g.(timer := g.timer || wheel.emptyData != [])
    {
    }

    lemma ViewFacts(key: Key)
      requires Held()
      ensures AllWide(View()) && View().Keys == sessions.Keys && |View()| == |sessions|
      ensures key in sessions ==>
        sessions[key] in Buffers() && sessions[key].data in Buffers() && View()[key] == Value(sessions[key])
    {
      assert View().Keys == sessions.Keys;
      assert |View()| == |View().Keys| && |sessions| == |sessions.Keys|;
    }

    // ---------- a session grows ----------

    method Extend(ghost key: Key, m: Mbuf, at: nat, data: seq<Byte>)
      requires Held() && key in sessions && sessions[key] == m && 0 < at <= MAX_OFFSET && Fits(at, data)
      modifies m`tail, m.data
      ensures Held() && View() == old(View())[key := Grown(old(View()[key]), at, data)]
    {
      GrownNamed(Value(m), at, data, key);
      m.tail := m.tail + |data|;
      Copy(m.data, at + m.headerLen, data);
      assert Value(m) == Grown(old(Value(m)), at, data);
      SameOthers(key);
    }

    /** One session has a new value, all others the one they had. */
    twostate lemma SameOthers(new key: Key)
      requires key in sessions && old(Held()) && sessions[key].data.Length == BUFFER && Named(Value(sessions[key]), key)
      requires sessions == old(sessions)[key := sessions[key]]
      requires forall k | k in old(sessions) && k != key :: unchanged(sessions[k]) && unchanged(sessions[k].data)
      requires forall k | k in old(sessions) && k != key ::
        sessions[k] != sessions[key] && sessions[k].data != sessions[key].data
      ensures Held() && View() == old(View())[key := Value(sessions[key])]
    {
      hide Named, Value;
      assert forall k | k in old(sessions) && k != key :: Value(sessions[k]) == old(Value(sessions[k]));
    }

    // ---------- a session begins ----------

    /** A session begins, unless the wheel has no memory for it. */
    method Begin(key: Key, f: Packet, grant: bool) returns (ok: bool, ghost blank: seq<Byte>)
      requires Valid() && Delivered(f) && key == Fragments.Key(f.hdr) && key !in sessions
      modifies this`sessions, this`waiting, wheel, wheel.emptyData
      ensures Valid() && |blank| == BUFFER && wheel.oldTime == old(wheel.oldTime)
      ensures forall o | o in Repr() :: o in old(Repr()) || !old(allocated(o))
      ensures ok <==> grant || old(wheel.emptyData) != []
      ensures View() == if ok then old(View())[key := Begun(f, blank)] else old(View())
      ensures sessions.Keys == old(sessions).Keys + if ok then {key} else {}
    {
      hide *;
      ValidElim();
      ViewFacts(key);
      var m;
      m, blank := Fill(key, f);
      ok := Await(key, m, grant);
      Undone(old(View()), key, Begun(f, blank));
      Grows();
      ValidIntro();
    }

    static lemma Undone(view: map<Key, Session>, key: Key, s: Session)
      requires key !in view
      ensures view[key := s] - {key} == view
    {
    }

    /** The buffer of a new session. */
    method Fill(key: Key, f: Packet) returns (m: Mbuf, ghost blank: seq<Byte>)
      requires Held() && Timed({}, [], {}) && Delivered(f) && key == Fragments.Key(f.hdr) && key !in sessions
      modifies this`sessions
      ensures fresh(m) && fresh(m.data) && sessions == old(sessions)[key := m]
      ensures Held() && Timed({}, [], {m}) && |blank| == BUFFER && View() == old(View())[key := Begun(f, blank)]
    {
      hide *;
      m, blank := FirstBuffer(f);
      sessions := sessions[key := m];
      SameOthers(key);
      Joined(key);
    }

    /** The mbuf with the first fragment in it. */
    static method FirstBuffer(f: Packet) returns (m: Mbuf, ghost blank: seq<Byte>)
      requires Delivered(f)
      ensures fresh(m) && fresh(m.data) && m.data.Length == BUFFER && |blank| == BUFFER
      ensures Value(m) == Begun(f, blank) && Named(Value(m), Fragments.Key(f.hdr))
    {
      hide Named, Delivered, Fragments.Key;
      m := new Mbuf();
      blank := m.data[..];
      HeaderFits(f);
      m.tail := |f.hdr| + |f.data|;
      m.headerLen := |f.hdr|;
      Copy(m.data, 0, f.hdr + f.data);
      assert Value(m) == Begun(f, blank);
      BegunNamed(f, blank);
    }

    twostate lemma Joined(new key: Key)
      requires old(Timed({}, [], {})) && key in sessions && sessions == old(sessions)[key := sessions[key]]
      requires key !in old(sessions) && sessions[key] !in old(sessions).Values && waiting == old(waiting)
      requires unchanged(wheel) && (forall e | e in wheel.entries :: unchanged(e))
      requires forall m | m in waiting :: unchanged(m)
      ensures Timed({}, [], {sessions[key]})
    {
      ValuesAdd(old(sessions), key, sessions[key]);
    }

    /** The new session is armed, or ended if that fails. */
    method Await(key: Key, m: Mbuf, grant: bool) returns (ok: bool)
      requires Held() && key in sessions && sessions[key] == m && Timed({}, [], {m})
      modifies this`sessions, this`waiting, wheel, wheel.emptyData, m`tdata
      ensures Held() && Timed({}, [], {}) && wheel.oldTime == old(wheel.oldTime)
      ensures forall o | o in wheel.entries :: o in old(wheel.entries) || !old(allocated(o))
      ensures ok <==> grant || old(wheel.emptyData) != []
      ensures sessions == if ok then old(sessions) else old(sessions) - {key}
      ensures View() == if ok then old(View()) else old(View()) - {key}
    {
      hide *;
      OffElim({}, [], m);
      var tdata := Waiting.Arm(wheel, m, 1, grant, {}, [], waiting);
      ok := tdata != null;
      if ok {
        m.tdata, waiting := tdata, waiting[m := tdata];
        Armed(m);
        SameView();
      } else {
        Remove(key, {}, []);
      }
    }

    lemma OffElim(loose: set<Entry>, rest: seq<Entry>, m: Mbuf)
      requires Timed(loose, rest, {m})
      ensures Waiting.Waits(wheel, loose, rest, waiting) && wheel.tickTimeout == 1
      ensures m !in waiting && m in sessions.Values
    {
    }

    twostate lemma Armed(m: Mbuf)
      requires old(Timed({}, [], {m})) && sessions == old(sessions) && m.tdata != null
      requires waiting == old(waiting)[m := m.tdata] && Waiting.Waits(wheel, {}, [], waiting)
      requires forall d | d in old(waiting) :: d.tdata == old(d.tdata)
      ensures Timed({}, [], {})
    {
    }

    twostate lemma SameView()
      requires old(Held()) && sessions == old(sessions)
      requires forall k | k in sessions :: unchanged(sessions[k].data)
      requires forall k | k in sessions ::
        sessions[k].tail == old(sessions[k].tail) && sessions[k].headerLen == old(sessions[k].headerLen)
      ensures Held() && View() == old(View())
    {
      hide Named;
      assert forall k | k in sessions :: Value(sessions[k]) == old(Value(sessions[k]));
    }

    twostate lemma Grows()
      requires forall o | o in wheel.entries :: o in old(wheel.entries) || !old(allocated(o))
      requires forall m | m in sessions.Values ::
        m in old(sessions).Values || (var d := m.data; !old(allocated(m)) && !old(allocated(d)))
      ensures forall o | o in Repr() :: o in old(Repr()) || !old(allocated(o))
    {
    }

    // ---------- a session ends ----------

    /** `map_del` with `ixc_ipunfrag_map_del_cb`: a session, if there is one, goes without an answer. */
    method Drop(key: Key)
      requires Valid()
      modifies this`sessions, this`waiting, wheel.entries`isDeleted
      ensures Valid() && View() == old(View()) - {key} && sessions == old(sessions) - {key}
    {
      hide *;
      ValidElim();
      if key in sessions {
        Stop(key);
        assert Held();
        Remove(key, {}, []);
      } else {
        NoSuchKey(key);
      }
      ValidIntro();
    }

    lemma NoSuchKey(key: Key)
      requires key !in sessions
      ensures sessions == sessions - {key} && View() == View() - {key}
    {
    }

    /** The wheel entry of a session is marked. */
    method Stop(key: Key)
      requires Timed({}, [], {}) && key in sessions
      modifies this`waiting, wheel.entries`isDeleted
      ensures Timed({}, [], {sessions[key]})
    {
      hide *;
      var m := sessions[key];
      Calls(m);
      Waiting.Cancel(wheel, m.tdata, m, {}, [], waiting);
      waiting := waiting - {m};
      Stopped(m);
    }

    lemma Calls(m: Mbuf)
      requires Timed({}, [], {})
      ensures Waiting.Waits(wheel, {}, [], waiting)
      ensures m in sessions.Values ==> m in waiting && waiting[m] == m.tdata && m.tdata in wheel.entries
    {
    }

    twostate lemma Stopped(m: Mbuf)
      requires old(Timed({}, [], {})) && m in sessions.Values && sessions == old(sessions)
      requires Waiting.Waits(wheel, {}, [], waiting) && waiting == old(waiting) - {m}
      requires forall d | d in waiting :: d.tdata == old(d.tdata)
      ensures Timed({}, [], {m})
    {
    }

    /** A session that does not wait goes. */
    method Remove(key: Key, ghost loose: set<Entry>, ghost rest: seq<Entry>)
      requires Held() && key in sessions && Timed(loose, rest, {sessions[key]})
      modifies this`sessions
      ensures Held() && Timed(loose, rest, {})
      ensures sessions == old(sessions) - {key} && View() == old(View()) - {key}
    {
      hide *;
      ghost var m := sessions[key];
      Single(key);
      OffElim(loose, rest, m);
      sessions := sessions - {key};
      Fewer(key);
      Left(key, loose, rest);
    }

    /** One session is gone, all others have the value they had. */
    twostate lemma Fewer(new key: Key)
      requires old(Held()) && sessions == old(sessions) - {key}
      requires forall k | k in sessions :: unchanged(sessions[k].data)
      requires forall k | k in sessions ::
        sessions[k].tail == old(sessions[k].tail) && sessions[k].headerLen == old(sessions[k].headerLen)
      ensures Held() && View() == old(View()) - {key}
    {
      hide Named;
      assert forall k | k in sessions :: Value(sessions[k]) == old(Value(sessions[k]));
    }

    twostate lemma Left(new key: Key, new loose: set<Entry>, new rest: seq<Entry>)
      requires old(allocated(loose)) && old(allocated(rest))
      requires key in old(sessions) && sessions == old(sessions) - {key}
      requires forall k | k in sessions :: sessions[k] != old(sessions)[key]
      requires old(Timed(loose, rest, {sessions[key]})) && waiting == old(waiting)
      requires Waiting.Waits(wheel, loose, rest, waiting) && forall d | d in waiting :: d.tdata == old(d.tdata)
      ensures Timed(loose, rest, {})
    {
      assert forall k | k in old(sessions) && k != key :: k in sessions && sessions[k] == old(sessions)[k];
      ValuesDel(old(sessions), key);
    }

    /** No other session has its mbuf. */
    lemma Single(key: Key)
      requires Held() && key in sessions
      ensures forall k | k in sessions && k != key ::
        sessions[k] != sessions[key] && sessions[k].data != sessions[key].data
      ensures sessions[key].data.Length == BUFFER && Named(Value(sessions[key]), key) && Wide(Value(sessions[key]))
    {
    }

    /** The finished mbuf leaves. */
    method Release(key: Key, m: Mbuf)
      requires Valid() && key in sessions && sessions[key] == m
      modifies this`sessions, this`waiting, wheel.entries`isDeleted, m.data, m`tdata
      ensures Valid() && View() == old(View()) - {key} && Value(m) == Finished(old(Value(m)))
      ensures sessions == old(sessions) - {key}
    {
      hide *;
      ValidElim();
      Single(key);
      Finish(m);
      FinishedIs(m);
      Stop(key);
      OffElim({}, [], m);
      label Marked:
      sessions := sessions - {key};
      m.tdata := null;
      Fewer(key);
      Left@Marked(key, {}, []);
      ValidIntro();
    }

    twostate lemma FinishedIs(m: Mbuf)
      requires old(Wide(Value(m))) && m.data[..] == Finished(old(Value(m))).buf
      requires m.tail == old(m.tail) && m.headerLen == old(m.headerLen)
      ensures Value(m) == Finished(old(Value(m)))
    {
    }

    // ---------- the wheel ----------

    /** `ixc_ipunfrag_timeout_cb`: the key is made from the header in the buffer, and finds the session. */
    method TimeoutCb(m: Mbuf, ghost loose: set<Entry>, ghost rest: seq<Entry>)
      requires Held() && Timed(loose, rest, {m}) && m.tdata != null && m.tdata in loose
      requires m.data.Length == BUFFER && Wide(Value(m))
      modifies this`sessions, loose`isDeleted
      ensures Held() && Timed(loose, rest, {})
      ensures forall k | k in sessions :: k in old(sessions) && sessions[k] == old(sessions)[k]
    {
      hide *;
      KeyFinds(m, loose, rest);
      var key := Fragments.Key(m.data[..m.headerLen]);
      Remove(key, loose, rest);
      WaitingAll(loose, rest);
      label Removed:
      Waiting.CancelLoose(wheel, m.tdata, loose, rest, waiting);
      StillTimed@Removed(loose, rest, loose);
    }

    /** One turn of `time_wheel_timeout` with this callback. */
    method FireNext(x: Entry, ghost rest: seq<Entry>)
      requires Held() && Timed({}, [x] + rest, {})
      modifies this`sessions, this`waiting, wheel, wheel.entries
      ensures Held() && Timed({}, rest, {}) && wheel.oldTime == old(wheel.oldTime)
      ensures wheel.entries <= old(wheel.entries)
      ensures forall k | k in sessions :: k in old(sessions) && sessions[k] == old(sessions)[k]
      ensures forall m | m in waiting :: m in old(waiting) && waiting[m] == old(waiting)[m] && waiting[m] != x
    {
      hide *;
      Head(x, rest);
      if !x.isDeleted {
        var m := x.data.value;
        waiting := waiting - {m};
        OffOne(x, rest, m);
        TimeoutCb(m, {x}, rest);
      }
      Recycle(x, rest);
    }

    /** The entry to be fired next; whose it is, unless it is marked. */
    lemma Head(x: Entry, rest: seq<Entry>)
      requires Held() && Timed({}, [x] + rest, {})
      ensures x in wheel.entries && forall l | l in wheel.emptyData :: l in wheel.entries
      ensures x.isDeleted ==> Timed({x}, rest, {}) && forall m | m in waiting :: waiting[m] != x
      ensures !x.isDeleted ==>
        && x.data.Some? && x.data.value in sessions.Values && x.data.value.tdata == x
        && Waiting.Waits(wheel, {x}, rest, waiting - {x.data.value})
        && x.data.value.data.Length == BUFFER && Wide(Value(x.data.value))
        && forall m | m in waiting && m != x.data.value :: waiting[m] != x
    {
      hide Waiting.Waits;
      Waiting.Head(wheel, x, rest, waiting);
      Waiting.Lists(wheel, {}, [x] + rest, waiting);
      Waiting.WaitsElim(wheel, {}, [x] + rest, waiting);
      assert forall l :: l in [x] + rest <==> l == x || l in rest;
    }

    twostate lemma OffOne(x: Entry, new rest: seq<Entry>, new m: Mbuf)
      requires old(allocated(rest)) && old(allocated(m))
      requires old(Timed({}, [x] + rest, {})) && !x.isDeleted && x.data == Some(m)
      requires Waiting.Waits(wheel, {x}, rest, waiting) && m in sessions.Values && sessions == old(sessions)
      requires waiting == old(waiting) - {m} && forall d | d in old(waiting) :: unchanged(d)
      ensures Timed({x}, rest, {m})
    {
      hide Waiting.Waits;
    }

    lemma KeyFinds(m: Mbuf, loose: set<Entry>, rest: seq<Entry>)
      requires Held() && Timed(loose, rest, {m}) && m.data.Length == BUFFER && Wide(Value(m))
      ensures m.headerLen <= m.data.Length && IsHeader(m.data[..m.headerLen])
      ensures Waiting.Waits(wheel, loose, rest, waiting)
      ensures var key := Fragments.Key(m.data[..m.headerLen]); key in sessions && sessions[key] == m
    {
      hide Waiting.Waits;
      var key :| key in sessions && sessions[key] == m;
      assert Named(Value(sessions[key]), key);
      assert m.data[..][..m.headerLen] == m.data[..m.headerLen];
    }

    /** After its callback the wheel entry is marked and given back. */
    method Recycle(x: Entry, ghost rest: seq<Entry>)
      requires Timed({x}, rest, {})
      modifies wheel`emptyData, wheel`curDataNum, wheel`entries, x
      ensures Timed({}, rest, {}) && wheel.entries <= old(wheel.entries)
    {
      hide *;
      WaitingAll({x}, rest);
      Waiting.Recycle(wheel, x, rest, waiting);
      StillTimed({x}, rest, {});
    }

    lemma WaitingAll(loose: set<Entry>, rest: seq<Entry>)
      requires Timed(loose, rest, {})
      ensures waiting.Keys == sessions.Values && Waiting.Waits(wheel, loose, rest, waiting)
    {
    }

    twostate lemma StillTimed(new before: set<Entry>, new rest: seq<Entry>, new loose: set<Entry>)
      requires old(allocated(before)) && old(allocated(rest)) && old(Timed(before, rest, {}))
      requires Waiting.Waits(wheel, loose, rest, waiting) && waiting == old(waiting) && sessions == old(sessions)
      requires forall d | d in waiting :: unchanged(d)
      ensures Timed(loose, rest, {})
    {
    }

    /** `time_wheel_handle` on this wheel, polled before a full turn has passed: as soon as a second has
        passed since the wheel last moved, every session ends, however young. */
    method Handle(now: int)
      requires Valid() && wheel.TicksBy(now) < wheel.size
      modifies this`sessions, this`waiting, wheel, wheel.entries
      ensures Valid() && Repr() <= old(Repr())
      ensures now - old(wheel.oldTime) < 1 ==> View() == old(View()) && wheel.oldTime == old(wheel.oldTime)
      ensures now - old(wheel.oldTime) >= 1 ==> View() == map[] && wheel.oldTime == now
    {
      hide *;
      ValidElim();
      InTime(now);
      ghost var ticks := wheel.TicksBy(now);
      var first := Waiting.Take(wheel, now, waiting);
      Taken(first);
      FireAll(first);
      if ticks > 0 {
        NoneLeft();
      }
      Shrinks();
      ValidIntro();
    }

    lemma InTime(now: int)
      requires Timed({}, [], {})
      ensures 0 < wheel.tickTimeout && (wheel.TicksBy(now) == 0 <==> now - wheel.oldTime < 1)
    {
    }

    twostate lemma Taken(new first: seq<Entry>)
      requires old(Timed({}, [], {})) && Waiting.Waits(wheel, {}, first, waiting)
      requires waiting == old(waiting) && sessions == old(sessions) && forall d | d in waiting :: unchanged(d)
      ensures Timed({}, first, {})
    {
    }

    twostate lemma Shrinks()
      requires wheel.entries <= old(wheel.entries)
      requires forall k | k in sessions :: k in old(sessions) && sessions[k] == old(sessions)[k]
      ensures Repr() <= old(Repr())
    {
    }

    /** The entries taken off the wheel, one after the other. */
    method FireAll(first: seq<Entry>)
      requires Held() && Timed({}, first, {})
      modifies this`sessions, this`waiting, wheel, wheel.entries
      ensures Held() && Timed({}, [], {}) && wheel.oldTime == old(wheel.oldTime)
      ensures wheel.entries <= old(wheel.entries)
      ensures forall k | k in sessions :: k in old(sessions) && sessions[k] == old(sessions)[k]
      ensures first == [] ==> sessions == old(sessions)
      ensures forall m | m in waiting :: m in old(waiting) && old(waiting)[m] !in first
    {
      hide *;
      var k := 0;
      assert first[0..] == first;
      while k < |first|
        invariant 0 <= k <= |first| && Held() && Timed({}, first[k..], {}) && wheel.oldTime == old(wheel.oldTime)
        invariant wheel.entries <= old(wheel.entries) && (first == [] ==> sessions == old(sessions))
        invariant forall k | k in sessions :: k in old(sessions) && sessions[k] == old(sessions)[k]
        invariant forall m | m in waiting ::
          m in old(waiting) && waiting[m] == old(waiting)[m] && old(waiting)[m] !in first[..k]
      {
        assert first[k..] == [first[k]] + first[k + 1..] && first[..k + 1] == first[..k] + [first[k]];
        FireNext(first[k], first[k + 1..]);
        k := k + 1;
      }
      assert first[k..] == [] && first[..k] == first;
    }

    lemma NoneLeft()
      requires Timed({}, [], {}) && waiting == map[]
      ensures View() == map[]
    {
      assert forall k | k in sessions :: sessions[k] in waiting.Keys;
      assert View().Keys == {};
    }
  }

  /** `memcpy` into the buffer. */
  method Copy(a: array<Byte>, at: nat, bytes: seq<Byte>)
    requires at + |bytes| <= a.Length
    modifies a
    ensures a[..] == Write(old(a[..]), at, bytes)
  {
    forall i | 0 <= i < |bytes| {
      a[at + i] := bytes[i];
    }
  }

  /** Renew length and checksum of the header in the buffer. */
  method Finish(m: Mbuf)
    requires m.data.Length == BUFFER && Wide(Unfrag.Value(m))
    modifies m.data
    ensures m.data[..] == Finished(old(Unfrag.Value(m))).buf
  {
    var headerLen := m.data[0] % 0x10 * 4;
    var totLen: Word := m.tail % 0x1_0000;
    totLen := Swap(totLen);
    m.data[TOT_LEN], m.data[TOT_LEN + 1] := totLen % 0x100, totLen / 0x100;
    m.data[CSUM], m.data[CSUM + 1] := 0, 0;
    var csum := Netutils.CsumCalc(m.data[..headerLen]);
    m.data[CSUM], m.data[CSUM + 1] := csum % 0x100, csum / 0x100;
  }
}
