/** Fragmentation followed by reassembly is the identity on the payload, whatever else arrives. */
module RoundTrip {
  import opened Bytes
  import opened Fragments
  import opened Reassembly
  import Netutils

  /** A fragment arrives, or the wheel gives up on the packet of this header. */
  datatype Event = Arrival(f: Packet, g: Grants, blank: seq<Byte>) | Expiry(hdr: seq<Byte>)

  ghost predicate Sound(e: Event) {
    match e
    case Arrival(f, _, blank) => Delivered(f) && |blank| == BUFFER
    case Expiry(hdr) => IsHeader(hdr)
  }

  ghost predicate AllSound(events: seq<Event>) {
    forall i | 0 <= i < |events| :: Sound(events[i])
  }

  /** The header an event is about. */
  ghost function Head(e: Event): (hdr: seq<Byte>)
    requires Sound(e)
    ensures IsHeader(hdr)
  {
    if e.Arrival? then e.f.hdr else e.hdr
  }

  /** The event is about the packet of this header: source, destination and identification, bytes 12 to
      19 and 4 and 5, are the same. */
  ghost predicate About(e: Event, hdr: seq<Byte>)
    requires Sound(e) && IsHeader(hdr)
  {
    SameIdentity(Head(e), hdr)
  }

  ghost function Step(view: map<seq<Byte>, Session>, e: Event): (r: (map<seq<Byte>, Session>, Option<Session>))
    requires AllWide(view) && Sound(e)
    ensures AllWide(r.0)
  {
    match e
    case Arrival(f, g, blank) => Arrive(view, f, g, blank)
    case Expiry(hdr) => (view - {Fragments.Key(hdr)}, None)
  }

  ghost function Run(view: map<seq<Byte>, Session>, events: seq<Event>): (r: map<seq<Byte>, Session>)
    requires AllWide(view) && AllSound(events)
    ensures AllWide(r)
    decreases |events|
  {
    if events == [] then view else Run(Step(view, events[0]).0, events[1..])
  }

  /** What a run puts out for one packet. */
  ghost function Outs(view: map<seq<Byte>, Session>, events: seq<Event>, hdr: seq<Byte>): seq<Session>
    requires AllWide(view) && AllSound(events) && IsHeader(hdr)
    decreases |events|
  {
    if events == [] then []
    else
      var r := Step(view, events[0]);
      (if About(events[0], hdr) && r.1.Some? then [r.1.value] else []) + Outs(r.0, events[1..], hdr)
  }

  /** The event is about the packet, and is not the arrival of a fragment with offset zero. */
  ghost predicate Concerns(e: Event, hdr: seq<Byte>)
    requires Sound(e) && IsHeader(hdr)
  {
    About(e, hdr) && !(e.Arrival? && Number(e.f.hdr, 6) % 0x2000 == 0)
  }

  ghost function Concerning(events: seq<Event>, hdr: seq<Byte>): seq<Event>
    requires AllSound(events) && IsHeader(hdr)
  {
    if events == [] then []
    else (if Concerns(events[0], hdr) then [events[0]] else []) + Concerning(events[1..], hdr)
  }

  // ---------- one packet on its way ----------

  /** A packet of at least two pieces, the last of which starts within the offset limit. */
  ghost predicate Cut(p: Packet, slice: nat, n: nat) {
    && IsHeader(p.hdr) && |p.hdr| + |p.data| < 0x1_0000
    && 0 < slice && slice % 8 == 0
    && 2 <= n && (n - 1) * slice < |p.data| <= n * slice && (n - 1) * slice <= MAX_OFFSET
  }

  ghost function PieceNo(p: Packet, slice: nat, i: nat): Packet
    requires IsHeader(p.hdr) && |p.hdr| + |p.data| < 0x1_0000 && i * slice <= |p.data|
  {
    Piece(p, i * slice, slice)
  }

  /** Slices do not overlap. */
  lemma Steps(i: nat, j: nat, slice: nat)
    ensures i < j ==> i * slice + slice <= j * slice
    ensures i <= j ==> i * slice <= j * slice
  {
    if i < j {
      assert j * slice == i * slice + slice + (j - i - 1) * slice;
      Product(j - i - 1, slice);
    }
  }

  lemma Product(a: nat, b: nat)
    ensures 0 <= a * b
  {
  }

  ghost predicate Holds(buf: seq<Byte>, at: nat, bytes: seq<Byte>) {
    at + |bytes| <= |buf| && buf[at..at + |bytes|] == bytes
  }

  lemma WriteHolds(buf: seq<Byte>, at: nat, bytes: seq<Byte>)
    requires at + |bytes| <= |buf|
    ensures Holds(Write(buf, at, bytes), at, bytes)
  {
  }

  lemma WriteElsewhere(buf: seq<Byte>, at: nat, bytes: seq<Byte>, from: nat, other: seq<Byte>)
    requires at + |bytes| <= |buf| && Holds(buf, from, other)
    requires from + |other| <= at || at + |bytes| <= from
    ensures Holds(Write(buf, at, bytes), from, other)
  {
    var r := Write(buf, at, bytes);
    assert forall j | from <= j < from + |other| :: r[j] == buf[j];
  }

  ghost function SliceOf(p: Packet, slice: nat, i: nat): seq<Byte>
    requires i * slice <= |p.data|
  {
    p.data[i * slice..i * slice + SizeAt(p.data, i * slice, slice)]
  }

  /** The bytes of slice i are where they belong. */
  ghost predicate Placed(s: Session, p: Packet, slice: nat, i: nat) {
    i * slice <= |p.data| && Holds(s.buf, s.headerLen + i * slice, SliceOf(p, slice, i))
  }

  /** The pieces in `seen`, the first among them, have arrived. */
  ghost predicate Progress(s: Session, p: Packet, slice: nat, n: nat, seen: set<nat>) {
    && Cut(p, slice, n) && Wide(s) && s.headerLen == |p.hdr| && Holds(s.buf, 0, PieceNo(p, slice, 0).hdr)
    && s.tail == |p.hdr| + slice * |seen|
    && 0 in seen && (forall i | i in seen :: i < n - 1 && Placed(s, p, slice, i))
  }

  /** What a piece of the cut says. */
  lemma PieceFacts(p: Packet, slice: nat, n: nat, i: nat)
    requires Cut(p, slice, n) && i < n
    ensures i * slice < |p.data| && i * slice <= MAX_OFFSET && i * slice % 8 == 0
    ensures var f := PieceNo(p, slice, i);
      && Delivered(f) && Fragments.Key(f.hdr) == Fragments.Key(p.hdr) && 8 * Offset(f.hdr) == i * slice
        && |f.hdr| == |p.hdr|
      && (More(f.hdr) <==> i < n - 1) && (i == 0 ==> FragInfo(f.hdr) == MF)
      && f.data == SliceOf(p, slice, i) && |f.data| == (if i < n - 1 then slice else |p.data| - (n - 1) * slice)
      && (forall j | 0 <= j < |p.hdr| && j !in {2, 3, 6, 7, 10, 11} :: f.hdr[j] == p.hdr[j])
  {
    hide Offset, More, FragInfo, Fragments.Key, TotLen, HeaderOk;
    Steps(i, n - 1, slice);
    EightTimes(slice, i);
    PieceFields(p, i * slice, slice);
    assert n * slice == (n - 1) * slice + slice;
  }

  lemma FirstPiece(p: Packet, slice: nat, n: nat, blank: seq<Byte>)
    requires Cut(p, slice, n) && |blank| == BUFFER
    ensures 0 * slice <= |p.data| && Delivered(PieceNo(p, slice, 0))
      && Progress(Begun(PieceNo(p, slice, 0), blank), p, slice, n, {0})
  {
    hide PieceNo, Write, Holds, Delivered, Offset, More, FragInfo, TotLen, Fragments.Key;
    PieceFacts(p, slice, n, 0);
    var f := PieceNo(p, slice, 0);
    BegunHolds(f, blank);
  }

  lemma BegunHolds(f: Packet, blank: seq<Byte>)
    requires Delivered(f) && |blank| == BUFFER
    ensures var s := Begun(f, blank); Holds(s.buf, 0, f.hdr) && Holds(s.buf, |f.hdr|, f.data)
  {
    var s := Begun(f, blank);
    assert s.buf[0..|f.hdr| + |f.data|] == f.hdr + f.data;
    assert (f.hdr + f.data)[..|f.hdr|] == f.hdr && (f.hdr + f.data)[|f.hdr|..] == f.data;
  }

  /** A fragment that lies elsewhere leaves a slice in place. */
  lemma GrownElsewhere(s: Session, at: nat, data: seq<Byte>, from: nat, other: seq<Byte>)
    requires Wide(s) && 0 < at <= MAX_OFFSET && Fits(at, data) && Holds(s.buf, from, other)
    requires from + |other| <= s.headerLen + at || s.headerLen + at + |data| <= from
    ensures Holds(Grown(s, at, data).buf, from, other)
  {
    WriteElsewhere(s.buf, s.headerLen + at, data, from, other);
  }

  lemma GrownHolds(s: Session, at: nat, data: seq<Byte>)
    requires Wide(s) && 0 < at <= MAX_OFFSET && Fits(at, data)
    ensures Holds(Grown(s, at, data).buf, s.headerLen + at, data)
  {
    WriteHolds(s.buf, s.headerLen + at, data);
  }

  /** Slice j after piece i has arrived. */
  lemma StaysPlaced(s: Session, p: Packet, slice: nat, n: nat, i: nat, j: nat)
    requires Cut(p, slice, n) && Wide(s) && s.headerLen == |p.hdr| && 0 < i < n && j < n && Placed(s, p, slice, j)
      && j != i
    ensures 0 < i * slice <= MAX_OFFSET && i * slice <= |p.data| && Fits(i * slice, SliceOf(p, slice, i))
    ensures Placed(Grown(s, i * slice, SliceOf(p, slice, i)), p, slice, j)
  {
    hide PieceNo, Write, Holds, Delivered, Offset, More, FragInfo, TotLen, Fragments.Key, SizeAt;
    PieceFacts(p, slice, n, i);
    PieceFacts(p, slice, n, j);
    Steps(0, i, slice);
    Steps(i, j, slice);
    Steps(j, i, slice);
    SliceBound(p, slice, n, i);
    SliceBound(p, slice, n, j);
    GrownElsewhere(s, i * slice, SliceOf(p, slice, i), s.headerLen + j * slice, SliceOf(p, slice, j));
  }

  lemma SliceBound(p: Packet, slice: nat, n: nat, i: nat)
    requires Cut(p, slice, n) && i < n
    ensures i * slice <= |p.data| && |SliceOf(p, slice, i)| <= slice && Fits(i * slice, SliceOf(p, slice, i))
  {
    hide SliceOf;
    Steps(i, n - 1, slice);
    SliceFits(p, i * slice, slice, p.data[i * slice..i * slice + SizeAt(p.data, i * slice, slice)]);
    SliceIs(p, slice, i);
  }

  lemma SliceIs(p: Packet, slice: nat, i: nat)
    requires i * slice <= |p.data|
    ensures SliceOf(p, slice, i) == p.data[i * slice..i * slice + SizeAt(p.data, i * slice, slice)]
  {
  }

  lemma SliceFits(p: Packet, at: nat, slice: nat, data: seq<Byte>)
    requires IsHeader(p.hdr) && |p.hdr| + |p.data| < 0x1_0000 && at <= |p.data|
    requires data == p.data[at..at + SizeAt(p.data, at, slice)]
    ensures |data| <= slice && Fits(at, data)
  {
  }

  lemma ProgressElim(s: Session, p: Packet, slice: nat, n: nat, seen: set<nat>)
    requires Progress(s, p, slice, n, seen)
    ensures Cut(p, slice, n) && Wide(s) && s.headerLen == |p.hdr| && s.tail == |p.hdr| + slice * |seen|
    ensures IsHeader(p.hdr) && |p.hdr| + |p.data| < 0x1_0000 && Holds(s.buf, 0, PieceNo(p, slice, 0).hdr)
    ensures 2 <= n && 0 in seen && (forall i | i in seen :: i < n - 1 && Placed(s, p, slice, i))
  {
  }

  lemma ProgressIntro(s: Session, p: Packet, slice: nat, n: nat, seen: set<nat>)
    requires Cut(p, slice, n) && Wide(s) && s.headerLen == |p.hdr| && s.tail == |p.hdr| + slice * |seen|
    requires Holds(s.buf, 0, PieceNo(p, slice, 0).hdr)
    requires 0 in seen && (forall i | i in seen :: i < n - 1 && Placed(s, p, slice, i))
    ensures Progress(s, p, slice, n, seen)
  {
  }

  /** A middle piece that has not been seen makes progress. */
  lemma NextPiece(s: Session, p: Packet, slice: nat, n: nat, seen: set<nat>, i: nat)
    requires Progress(s, p, slice, n, seen) && 0 < i < n - 1 && i !in seen
    ensures 0 < i * slice <= MAX_OFFSET && i * slice <= |p.data| && Delivered(PieceNo(p, slice, i))
    ensures Progress(Grown(s, i * slice, PieceNo(p, slice, i).data), p, slice, n, seen + {i})
  {
    hide *;
    ProgressElim(s, p, slice, n, seen);
    PieceFacts(p, slice, n, 0);
    PieceFacts(p, slice, n, i);
    CutFacts(p, slice, n);
    Steps(0, i, slice);
    var f := PieceNo(p, slice, i);
    DataFits(f);
    PlacedIntro(s, p, slice, n, i);
    GrownElsewhere(s, i * slice, f.data, 0, PieceNo(p, slice, 0).hdr);
    Positive(i, slice);
    OneMoreSlice(seen, i, slice);
    forall j | j in seen + {i}
      ensures j < n - 1 && Placed(Grown(s, i * slice, f.data), p, slice, j)
    {
      if j != i {
        StaysPlaced(s, p, slice, n, i, j);
      }
    }
    ProgressIntro(Grown(s, i * slice, f.data), p, slice, n, seen + {i});
  }

  lemma CutFacts(p: Packet, slice: nat, n: nat)
    requires Cut(p, slice, n)
    ensures IsHeader(p.hdr) && |p.hdr| + |p.data| < 0x1_0000 && 0 < slice && 2 <= n && 20 <= |p.hdr|
  {
  }

  lemma DataFits(f: Packet)
    requires Delivered(f) && 8 * Offset(f.hdr) <= MAX_OFFSET
    ensures Fits(8 * Offset(f.hdr), f.data)
  {
  }

  lemma Positive(i: nat, slice: nat)
    requires 0 < i && 0 < slice
    ensures 0 < i * slice
  {
  }

  lemma OneMoreSlice(seen: set<nat>, i: nat, slice: nat)
    requires i !in seen
    ensures slice * |seen + {i}| == slice * |seen| + slice
  {
    assert |seen + {i}| == |seen| + 1;
  }

  lemma PlacedIntro(s: Session, p: Packet, slice: nat, n: nat, i: nat)
    requires Cut(p, slice, n) && Wide(s) && s.headerLen == |p.hdr| && 0 < i < n
    ensures i * slice <= |p.data| && 0 < i * slice <= MAX_OFFSET && Fits(i * slice, SliceOf(p, slice, i))
    ensures Placed(Grown(s, i * slice, SliceOf(p, slice, i)), p, slice, i)
  {
    hide PieceNo, Write, Holds, Delivered, Offset, More, FragInfo, TotLen, Fragments.Key, SizeAt;
    PieceFacts(p, slice, n, i);
    SliceBound(p, slice, n, i);
    Positive(i, slice);
    GrownHolds(s, i * slice, SliceOf(p, slice, i));
  }

  // ---------- the last piece ----------

  lemma HoldsJoin(buf: seq<Byte>, at: nat, a: seq<Byte>, b: seq<Byte>)
    requires Holds(buf, at, a) && Holds(buf, at + |a|, b)
    ensures Holds(buf, at, a + b)
  {
    assert buf[at..at + |a| + |b|] == buf[at..at + |a|] + buf[at + |a|..at + |a| + |b|];
  }

  /** Slices in place add up. */
  lemma {:induction false} Prefix(s: Session, p: Packet, slice: nat, n: nat, m: nat)
    requires Cut(p, slice, n) && s.headerLen <= |s.buf| && m < n && (forall j | 0 <= j < n :: Placed(s, p, slice, j))
    ensures m * slice <= |p.data| && Holds(s.buf, s.headerLen, p.data[..m * slice])
  {
    hide SizeAt, PieceNo;
    SliceBound(p, slice, n, m);
    if m > 0 {
      Prefix(s, p, slice, n, m - 1);
      MiddleSlice(p, slice, n, m - 1);
      assert Placed(s, p, slice, m - 1);
      HoldsJoin(s.buf, s.headerLen, p.data[..(m - 1) * slice], SliceOf(p, slice, m - 1));
      assert p.data[..(m - 1) * slice] + p.data[(m - 1) * slice..m * slice] == p.data[..m * slice];
    }
  }

  lemma MiddleSlice(p: Packet, slice: nat, n: nat, i: nat)
    requires Cut(p, slice, n) && i < n
    ensures i * slice <= |p.data| && (i + 1) * slice == i * slice + slice
    ensures i + 1 < n ==> (i + 1) * slice <= |p.data| && SliceOf(p, slice, i) == p.data[i * slice..(i + 1) * slice]
    ensures i + 1 == n ==> SliceOf(p, slice, i) == p.data[i * slice..]
  {
    Steps(i, n - 1, slice);
    Steps(i + 1, n - 1, slice);
  }

  lemma AllPlaced(s: Session, p: Packet, slice: nat, n: nat)
    requires Cut(p, slice, n) && s.headerLen <= |s.buf| && (forall j | 0 <= j < n :: Placed(s, p, slice, j))
    ensures Holds(s.buf, s.headerLen, p.data)
  {
    hide SizeAt, PieceNo;
    Prefix(s, p, slice, n, n - 1);
    MiddleSlice(p, slice, n, n - 1);
    assert Placed(s, p, slice, n - 1);
    HoldsJoin(s.buf, s.headerLen, p.data[..(n - 1) * slice], SliceOf(p, slice, n - 1));
    assert p.data[..(n - 1) * slice] + p.data[(n - 1) * slice..] == p.data;
  }

  lemma Full(seen: set<nat>, m: nat)
    requires forall i: nat :: i in seen <==> i < m
    ensures |seen| == m
  {
    if m > 0 {
      var rest := seen - {m - 1};
      assert forall i: nat :: i in rest <==> i < m - 1;
      Full(rest, m - 1);
      assert m - 1 in seen;
    } else {
      assert seen == {};
    }
  }

  /** The payload is back, and the header tells its length and a sound checksum. All other bytes of
      the header are the packet's own, except that the fragment word is the first fragment's: it still
      says that more fragments follow. */
  ghost predicate Restored(out: Session, p: Packet) {
    && IsHeader(p.hdr) && |out.buf| == BUFFER && out.tail == |p.hdr| + |p.data| <= BUFFER
    && Holds(out.buf, |p.hdr|, p.data)
    && Number(out.buf, 2) == out.tail && Number(out.buf, 6) == 0x2000 && HeaderOk(out.buf, |p.hdr|)
    && (forall j | 0 <= j < |p.hdr| && j !in {2, 3, 6, 7, 10, 11} :: out.buf[j] == p.hdr[j])
  }

  lemma Renewed(r: Session, p: Packet, slice: nat, n: nat)
    requires Cut(p, slice, n) && Wide(r) && r.headerLen == |p.hdr| && r.tail == |p.hdr| + |p.data|
    requires Holds(r.buf, 0, PieceNo(p, slice, 0).hdr) && Holds(r.buf, |p.hdr|, p.data)
    ensures Restored(Finished(r), p)
  {
    hide *;
    Constants();
    CutFacts(p, slice, n);
    PieceFacts(p, slice, n, 0);
    WideFacts(r);
    FinishedIs(r);
    var f, w := PieceNo(p, slice, 0), Swap(r.tail % 0x1_0000);
    var a, out := Netutils.Store(r.buf, TOT_LEN, w), Finished(r);
    SummedOk(a, |p.hdr|);
    SwapTwice(r.tail % 0x1_0000);
    FarBytes(r.buf, out.buf, |p.hdr|, w);
    SameTail(r.buf, out.buf, |p.hdr|, p.data);
    DeliveredHeader(f);
    HeadBytes(r.buf, out.buf, |p.hdr|, f.hdr, w);
    TailFits(r.buf, |p.hdr|, p.data);
    RestoredIntro(out, p);
  }

  lemma Constants()
    ensures TOT_LEN == 2 && BUFFER == 67328
  {
  }

  lemma FinishedIs(s: Session)
    requires Wide(s)
    ensures var out := Finished(s);
      && out.tail == s.tail && out.headerLen == s.headerLen && |out.buf| == BUFFER
      && out.buf == Summed(Netutils.Store(s.buf, TOT_LEN, Swap(s.tail % 0x1_0000)), s.headerLen)
  {
  }

  lemma DeliveredHeader(f: Packet)
    requires Delivered(f)
    ensures IsHeader(f.hdr)
  {
  }

  lemma TailFits(buf: seq<Byte>, h: nat, data: seq<Byte>)
    requires Holds(buf, h, data)
    ensures h + |data| <= |buf|
  {
  }

  lemma RestoredIntro(out: Session, p: Packet)
    requires IsHeader(p.hdr) && |out.buf| == BUFFER && out.tail == |p.hdr| + |p.data| <= BUFFER
      && Holds(out.buf, |p.hdr|, p.data)
    requires IsHeader(out.buf[..|p.hdr|]) && TotLen(out.buf[..|p.hdr|]) as int == out.tail && HeaderOk(out.buf, |p.hdr|)
    requires forall j | 0 <= j < |p.hdr| && j !in {2, 3, 6, 7, 10, 11} :: out.buf[j] == p.hdr[j]
    requires FragInfo(out.buf[..|p.hdr|]) == MF
    ensures Restored(out, p)
  {
    Layout(out.buf[..|p.hdr|]);
  }

  lemma SameTail(was: seq<Byte>, now: seq<Byte>, h: nat, data: seq<Byte>)
    requires |now| == |was| && Holds(was, h, data) && forall j | h <= j < |was| :: now[j] == was[j]
    ensures Holds(now, h, data)
  {
    assert now[h..h + |data|] == was[h..h + |data|];
  }

  /** Behind the header nothing changes. */
  lemma FarBytes(was: seq<Byte>, now: seq<Byte>, h: nat, w: Word)
    requires 20 <= h <= |was| && now == Summed(Netutils.Store(was, TOT_LEN, w), h)
    ensures |now| == |was| && forall j | h <= j < |was| :: now[j] == was[j]
  {
    SummedOk(Netutils.Store(was, TOT_LEN, w), h);
  }

  /** The header of the finished buffer, byte by byte. */
  lemma HeadBytes(was: seq<Byte>, now: seq<Byte>, h: nat, hdr: seq<Byte>, w: Word)
    requires 20 <= h == |hdr| <= |was| == |now| && IsHeader(hdr) && Holds(was, 0, hdr)
    requires now == Summed(Netutils.Store(was, TOT_LEN, w), h)
    ensures IsHeader(now[..h]) && TotLen(now[..h]) == Swap(w) && FragInfo(now[..h]) == FragInfo(hdr)
    ensures forall j | 0 <= j < h && j !in {2, 3, 10, 11} :: now[j] == hdr[j]
  {
    var a := Netutils.Store(was, TOT_LEN, w);
    SummedOk(a, h);
    assert forall j | 0 <= j < h :: was[j] == was[0..h][j];
    assert Netutils.Load(now[..h], TOT_LEN) == Netutils.Load(a, TOT_LEN) == w;
    assert Netutils.Load(now[..h], FRAG_INFO) == Netutils.Load(hdr, FRAG_INFO);
  }

  /** With all others seen, the last piece completes the packet. */
  lemma LastPiece(s: Session, p: Packet, slice: nat, n: nat, seen: set<nat>)
    requires Progress(s, p, slice, n, seen) && (forall i: nat | i < n - 1 :: i in seen)
    ensures 0 < (n - 1) * slice <= MAX_OFFSET && (n - 1) * slice <= |p.data| && Delivered(PieceNo(p, slice, n - 1))
    ensures Restored(Finished(Grown(s, (n - 1) * slice, PieceNo(p, slice, n - 1).data)), p)
  {
    hide *;
    ProgressElim(s, p, slice, n, seen);
    PieceFacts(p, slice, n, 0);
    PieceFacts(p, slice, n, n - 1);
    CutFacts(p, slice, n);
    Positive(n - 1, slice);
    var f := PieceNo(p, slice, n - 1);
    DataFits(f);
    var r := Grown(s, (n - 1) * slice, f.data);
    PlacedIntro(s, p, slice, n, n - 1);
    GrownElsewhere(s, (n - 1) * slice, f.data, 0, PieceNo(p, slice, 0).hdr);
    forall j | 0 <= j < n
      ensures Placed(r, p, slice, j)
    {
      if j != n - 1 {
        StaysPlaced(s, p, slice, n, n - 1, j);
      }
    }
    WideFacts(r);
    AllPlaced(r, p, slice, n);
    Full(seen, n - 1);
    Commute(slice, n - 1);
    Renewed(r, p, slice, n);
  }

  lemma WideFacts(s: Session)
    requires Wide(s)
    ensures 20 <= s.headerLen <= 60 <= |s.buf| == BUFFER
  {
  }

  lemma Commute(a: nat, b: nat)
    ensures a * b == b * a
  {
  }

  // ---------- whole runs ----------

  /** Events about other packets leave a session alone, and begin none. */
  lemma OtherEvent(view: map<seq<Byte>, Session>, e: Event, hdr: seq<Byte>)
    requires AllWide(view) && Sound(e) && IsHeader(hdr) && !About(e, hdr)
    ensures var key := Fragments.Key(hdr);
      if key in view then key in Step(view, e).0 && Step(view, e).0[key] == view[key] else key !in Step(view, e).0
  {
    hide Delivered, Offset, More, Fragments.Key, Grown, Begun, Finished, SameIdentity;
    KeyIsIdentity(Head(e), hdr);
    if e.Arrival? {
      Outcome(view, e.f, e.g, e.blank);
    }
  }

  /** So do first fragments of a packet that has a session. */
  lemma Skipped(view: map<seq<Byte>, Session>, e: Event, hdr: seq<Byte>)
    requires AllWide(view) && Sound(e) && IsHeader(hdr) && !Concerns(e, hdr) && Fragments.Key(hdr) in view
    ensures Fragments.Key(hdr) in Step(view, e).0 && Step(view, e).0[Fragments.Key(hdr)] == view[Fragments.Key(hdr)]
    ensures About(e, hdr) ==> Step(view, e).1 == None
  {
    hide Delivered, Offset, More, Fragments.Key, Grown, Begun, Finished, SameIdentity;
    if !About(e, hdr) {
      OtherEvent(view, e, hdr);
    } else {
      KeyIsIdentity(Head(e), hdr);
      Layout(e.f.hdr);
      Outcome(view, e.f, e.g, e.blank);
    }
  }

  lemma MiddleEvent(view: map<seq<Byte>, Session>, e: Event, p: Packet, slice: nat, n: nat, seen: set<nat>, i: nat)
    requires AllWide(view) && Sound(e) && e.Arrival? && Cut(p, slice, n) && 0 < i < n - 1 && i !in seen
    requires i * slice <= |p.data| && e.f == PieceNo(p, slice, i)
    requires Fragments.Key(p.hdr) in view && Progress(view[Fragments.Key(p.hdr)], p, slice, n, seen)
    ensures Concerns(e, p.hdr)
    ensures Step(view, e).1 == None && Fragments.Key(p.hdr) in Step(view, e).0
    ensures Progress(Step(view, e).0[Fragments.Key(p.hdr)], p, slice, n, seen + {i})
  {
    hide Delivered, Offset, More, Fragments.Key, Grown, Begun, Finished, PieceNo, Progress, Cut, Arrive;
    CutFacts(p, slice, n);
    var key := Fragments.Key(p.hdr);
    PieceFacts(p, slice, n, i);
    KeyIsIdentity(e.f.hdr, p.hdr);
    Layout(e.f.hdr);
    NextPiece(view[key], p, slice, n, seen, i);
    Outcome(view, e.f, e.g, e.blank);
  }

  /** The events are arrivals of these middle pieces, in this order. */
  ghost predicate Bring(mine: seq<Event>, p: Packet, slice: nat, n: nat, order: seq<nat>) {
    && Cut(p, slice, n) && |mine| == |order|
    && (forall k | 0 <= k < |order| ::
          && 0 < order[k] < n - 1 && order[k] * slice <= |p.data|
          && mine[k].Arrival? && mine[k].f == PieceNo(p, slice, order[k]))
    && (forall k, l | 0 <= k < l < |order| :: order[k] != order[l])
  }

  ghost function Members(order: seq<nat>): set<nat> {
    set i | i in order
  }

  /** While the middle pieces arrive, each once, in any order, and mixed with anything else, nothing
      comes out for the packet. */
  lemma {:induction false} Middle(view: map<seq<Byte>, Session>, events: seq<Event>, p: Packet, slice: nat, n: nat,
    seen: set<nat>, order: seq<nat>)
    requires AllWide(view) && AllSound(events) && IsHeader(p.hdr)
    requires Fragments.Key(p.hdr) in view && Progress(view[Fragments.Key(p.hdr)], p, slice, n, seen)
    requires Bring(Concerning(events, p.hdr), p, slice, n, order) && forall k | 0 <= k < |order| ::
      order[k] !in seen
    ensures var v := Run(view, events);
      Fragments.Key(p.hdr) in v && Progress(v[Fragments.Key(p.hdr)], p, slice, n, seen + Members(order))
    ensures Outs(view, events, p.hdr) == []
    decreases |events|
  {
    hide Progress, PieceNo, Cut, Step, About, Concerns, Bring;
    var key := Fragments.Key(p.hdr);
    if events == [] {
      NoneLeft(p, slice, n, order);
      assert seen + Members(order) == seen;
    } else if !Concerns(events[0], p.hdr) {
      Skipped(view, events[0], p.hdr);
      assert [] + Concerning(events[1..], p.hdr) == Concerning(events[1..], p.hdr);
      Middle(Step(view, events[0]).0, events[1..], p, slice, n, seen, order);
    } else {
      var i := HeadOf(events, p, slice, n, order);
      MiddleEvent(view, events[0], p, slice, n, seen, i);
      Middle(Step(view, events[0]).0, events[1..], p, slice, n, seen + {i}, order[1..]);
      MembersStep(order);
      assert (seen + {i}) + Members(order[1..]) == seen + Members(order);
    }
  }

  lemma MembersStep(order: seq<nat>)
    requires order != []
    ensures Members(order) == {order[0]} + Members(order[1..])
  {
    assert order == [order[0]] + order[1..];
  }

  lemma NoneLeft(p: Packet, slice: nat, n: nat, order: seq<nat>)
    requires Bring([], p, slice, n, order)
    ensures order == []
  {
  }

  lemma HeadOf(events: seq<Event>, p: Packet, slice: nat, n: nat, order: seq<nat>) returns (i: nat)
    requires AllSound(events) && events != [] && IsHeader(p.hdr) && Concerns(events[0], p.hdr)
    requires Bring(Concerning(events, p.hdr), p, slice, n, order)
    ensures order != [] && i == order[0] && 0 < i < n - 1 && Cut(p, slice, n) && i * slice <= |p.data|
      && |p.hdr| + |p.data| < 0x1_0000
    ensures events[0].Arrival? && events[0].f == PieceNo(p, slice, i)
    ensures Bring(Concerning(events[1..], p.hdr), p, slice, n, order[1..])
    ensures forall k | 0 <= k < |order[1..]| :: order[1..][k] != i && order[1..][k] == order[k + 1]
  {
    hide PieceNo, About, Concerns;
    var mine := Concerning(events, p.hdr);
    assert mine[0] == events[0] && mine[1..] == Concerning(events[1..], p.hdr);
    i := order[0];
  }

  /** The first piece finds room, and so a session starts. */
  ghost predicate Opens(view: map<seq<Byte>, Session>, e: Event, p: Packet, slice: nat, n: nat) {
    && Cut(p, slice, n) && Sound(e) && e.Arrival? && 0 * slice <= |p.data| && e.f == PieceNo(p, slice, 0)
    && e.g.mbuf && e.g.entry && e.g.timer && |view| < MAX_NUM && Fragments.Key(p.hdr) !in view
  }

  /** Among the events between are the middle pieces, each once. */
  ghost predicate Between(between: seq<Event>, p: Packet, slice: nat, n: nat, order: seq<nat>) {
    && AllSound(between) && IsHeader(p.hdr) && Bring(Concerning(between, p.hdr), p, slice, n, order)
    && forall i | 0 < i < n - 1 :: i in order
  }

  /** The last piece arrives. */
  ghost predicate Closes(e: Event, p: Packet, slice: nat, n: nat) {
    Cut(p, slice, n) && Sound(e) && e.Arrival? && (n - 1) * slice <= |p.data| && e.f == PieceNo(p, slice, n - 1)
  }

  lemma FirstEvent(view: map<seq<Byte>, Session>, e: Event, p: Packet, slice: nat, n: nat)
    requires AllWide(view) && Opens(view, e, p, slice, n)
    ensures Step(view, e).1 == None && Fragments.Key(p.hdr) in Step(view, e).0
    ensures Progress(Step(view, e).0[Fragments.Key(p.hdr)], p, slice, n, {0})
  {
    hide Delivered, Offset, More, Fragments.Key, Grown, Begun, Finished, PieceNo, Progress, Cut, Arrive;
    CutFacts(p, slice, n);
    PieceFacts(p, slice, n, 0);
    FirstPiece(p, slice, n, e.blank);
    Outcome(view, e.f, e.g, e.blank);
  }

  lemma LastEvent(view: map<seq<Byte>, Session>, e: Event, p: Packet, slice: nat, n: nat, seen: set<nat>)
    requires AllWide(view) && Sound(e) && e.Arrival? && Cut(p, slice, n) && (forall i: nat | i < n - 1 :: i in seen)
    requires (n - 1) * slice <= |p.data| && e.f == PieceNo(p, slice, n - 1)
    requires Fragments.Key(p.hdr) in view && Progress(view[Fragments.Key(p.hdr)], p, slice, n, seen)
    ensures Fragments.Key(p.hdr) !in Step(view, e).0 && Step(view, e).1.Some? && Restored(Step(view, e).1.value, p)
  {
    hide Delivered, Offset, More, Fragments.Key, Grown, Begun, Finished, PieceNo, Progress, Cut, Arrive, Restored;
    CutFacts(p, slice, n);
    var key := Fragments.Key(p.hdr);
    PieceFacts(p, slice, n, n - 1);
    LastPiece(view[key], p, slice, n, seen);
    Outcome(view, e.f, e.g, e.blank);
  }

  /** Nothing comes out for the packet until the last event; then the whole packet does, and its
      session is gone. */
  ghost predicate Delivers(view: map<seq<Byte>, Session>, first: Event, between: seq<Event>, last: Event, p: Packet)
    requires AllWide(view) && Sound(first) && AllSound(between) && Sound(last) && IsHeader(p.hdr)
  {
    var key, started := Fragments.Key(p.hdr), Step(view, first);
    var waiting := Run(started.0, between);
    var done := Step(waiting, last);
    && started.1 == None && Outs(started.0, between, p.hdr) == [] && key in waiting
    && done.1.Some? && Restored(done.1.value, p) && key !in done.0
  }

  lemma DeliversIntro(view: map<seq<Byte>, Session>, first: Event, between: seq<Event>, last: Event, p: Packet)
    requires AllWide(view) && Sound(first) && AllSound(between) && Sound(last) && IsHeader(p.hdr)
    requires Step(view, first).1 == None && Outs(Step(view, first).0, between, p.hdr) == []
    requires Fragments.Key(p.hdr) in Run(Step(view, first).0, between)
    requires var done := Step(Run(Step(view, first).0, between), last);
      done.1.Some? && Restored(done.1.value, p) && Fragments.Key(p.hdr) !in done.0
    ensures Delivers(view, first, between, last, p)
  {
  }

  /** RFC 791 section 3.2: feed the pieces of a packet to the reassembly, the first one first, the last
      one last, those between in any order, each once, and among them anything that concerns other
      packets, and copies of the first. Then exactly the packet comes out, and only with the last piece. */
  lemma Reassembles(view: map<seq<Byte>, Session>, first: Event, between: seq<Event>, last: Event,
                    p: Packet, slice: nat, n: nat, order: seq<nat>)
    requires AllWide(view) && Opens(view, first, p, slice, n)
    requires Between(between, p, slice, n, order) && Closes(last, p, slice, n)
    ensures Delivers(view, first, between, last, p)
  {
    hide *;
    OpensElim(view, first, p, slice, n);
    BetweenElim(between, p, slice, n, order);
    ClosesElim(last, p, slice, n);
    FirstEvent(view, first, p, slice, n);
    NotFirst(order, p, slice, n, Concerning(between, p.hdr));
    Middle(Step(view, first).0, between, p, slice, n, {0}, order);
    AllSeen(order, n);
    LastEvent(Run(Step(view, first).0, between), last, p, slice, n, {0} + Members(order));
    DeliversIntro(view, first, between, last, p);
  }

  lemma OpensElim(view: map<seq<Byte>, Session>, e: Event, p: Packet, slice: nat, n: nat)
    requires Opens(view, e, p, slice, n)
    ensures Cut(p, slice, n) && Sound(e) && IsHeader(p.hdr) && |p.hdr| + |p.data| < 0x1_0000 && 2 <= n
  {
  }

  lemma BetweenElim(between: seq<Event>, p: Packet, slice: nat, n: nat, order: seq<nat>)
    requires Between(between, p, slice, n, order)
    ensures AllSound(between) && IsHeader(p.hdr) && Bring(Concerning(between, p.hdr), p, slice, n, order)
    ensures forall i | 0 < i < n - 1 :: i in order
  {
  }

  lemma ClosesElim(e: Event, p: Packet, slice: nat, n: nat)
    requires Closes(e, p, slice, n)
    ensures Sound(e) && e.Arrival? && IsHeader(p.hdr) && |p.hdr| + |p.data| < 0x1_0000 && 0 < n
    ensures (n - 1) * slice <= |p.data| && e.f == PieceNo(p, slice, n - 1)
  {
  }

  lemma NotFirst(order: seq<nat>, p: Packet, slice: nat, n: nat, mine: seq<Event>)
    requires Bring(mine, p, slice, n, order)
    ensures forall k | 0 <= k < |order| :: order[k] !in {0}
  {
  }

  lemma AllSeen(order: seq<nat>, n: nat)
    requires 2 <= n && forall i | 0 < i < n - 1 :: i in order
    ensures forall i: nat | i < n - 1 :: i in {0} + Members(order)
  {
  }

  // ---------- the length ----------

  /** How many bytes the later fragments of a packet bring. */
  ghost function Brought(events: seq<Event>, hdr: seq<Byte>): nat
    requires AllSound(events) && IsHeader(hdr)
  {
    if events == [] then 0
    else
      (if Concerns(events[0], hdr) && events[0].Arrival? then |events[0].f.data| else 0) + Brought(events[1..], hdr)
  }

  /** The length a session will give its packet is that of all fragments that have arrived, whatever
      their offsets: a piece that comes twice counts twice. */
  lemma {:induction false} TailCounts(view: map<seq<Byte>, Session>, events: seq<Event>, hdr: seq<Byte>)
    requires AllWide(view) && AllSound(events) && IsHeader(hdr) && Fragments.Key(hdr) in view
    requires forall i | 0 <= i < |events| && Concerns(events[i], hdr) ::
      events[i].Arrival? && 8 * (Number(events[i].f.hdr, 6) % 0x2000) <= 0xff00
        && Number(events[i].f.hdr, 6) / 0x2000 % 2 == 1
    ensures var key := Fragments.Key(hdr);
      key in Run(view, events) && Run(view, events)[key].tail == view[key].tail + Brought(events, hdr)
    decreases |events|
  {
    hide Step, About, Concerns, Fragments.Key, Delivered;
    if events != [] {
      if Concerns(events[0], hdr) {
        Lengthens(view, events[0], hdr);
      } else {
        Skipped(view, events[0], hdr);
      }
      TailCounts(Step(view, events[0]).0, events[1..], hdr);
    }
  }

  lemma Lengthens(view: map<seq<Byte>, Session>, e: Event, hdr: seq<Byte>)
    requires AllWide(view) && Sound(e) && IsHeader(hdr) && Concerns(e, hdr) && e.Arrival? && Fragments.Key(hdr) in view
    requires 8 * (Number(e.f.hdr, 6) % 0x2000) <= 0xff00 && Number(e.f.hdr, 6) / 0x2000 % 2 == 1
    ensures var key := Fragments.Key(hdr);
      key in Step(view, e).0 && Step(view, e).0[key].tail == view[key].tail + |e.f.data|
  {
    hide Delivered, Offset, More, Fragments.Key, Begun, Finished, SameIdentity;
    KeyIsIdentity(Head(e), hdr);
    Layout(e.f.hdr);
    Outcome(view, e.f, e.g, e.blank);
  }

  /** Without an event about the packet there is no session for it. */
  lemma {:induction false} NoneBefore(view: map<seq<Byte>, Session>, events: seq<Event>, hdr: seq<Byte>)
    requires AllWide(view) && AllSound(events) && IsHeader(hdr) && Fragments.Key(hdr) !in view
    requires forall i | 0 <= i < |events| :: !About(events[i], hdr)
    ensures Fragments.Key(hdr) !in Run(view, events)
    decreases |events|
  {
    hide Step, About, Fragments.Key;
    if events != [] {
      OtherEvent(view, events[0], hdr);
      NoneBefore(Step(view, events[0]).0, events[1..], hdr);
    }
  }

  /** The same from the start: after any events about other packets that leave fewer than 256 sessions. */
  lemma ReassemblesAfter(before: seq<Event>, first: Event, between: seq<Event>, last: Event,
                         p: Packet, slice: nat, n: nat, order: seq<nat>)
    requires AllSound(before) && IsHeader(p.hdr) && |Run(map[], before)| < 256
    requires forall i | 0 <= i < |before| :: !About(before[i], p.hdr)
    requires Cut(p, slice, n) && Sound(first) && first.Arrival? && 0 * slice <= |p.data|
    requires first.f == PieceNo(p, slice, 0) && first.g.mbuf && first.g.entry && first.g.timer
    requires Between(between, p, slice, n, order) && Closes(last, p, slice, n)
    ensures Delivers(Run(map[], before), first, between, last, p)
  {
    NoneBefore(map[], before, p.hdr);
    Reassembles(Run(map[], before), first, between, last, p, slice, n, order);
  }

  /** What the fragmenter makes of a packet is such a cut, whatever the MTU, as long as the last piece
      starts within the offset limit. */
  lemma FragmenterCuts(p: Packet, mtu: nat)
    requires IsHeader(p.hdr) && |p.hdr| + |p.data| < 0x1_0000 && |p.hdr| + 8 <= mtu < |p.hdr| + |p.data|
    requires (|Pieces(p, 0, SliceSize(mtu, |p.hdr|))| - 1) * SliceSize(mtu, |p.hdr|) <= MAX_OFFSET
    ensures var slice := SliceSize(mtu, |p.hdr|); var fs := Pieces(p, 0, slice);
      && Cut(p, slice, |fs|)
      && forall i | 0 <= i < |fs| :: i * slice <= |p.data| && fs[i] == PieceNo(p, slice, i)
  {
    hide Piece, Pieces, SliceSize;
    SliceFacts(mtu, |p.hdr|);
    var slice := SliceSize(mtu, |p.hdr|);
    var n := |Pieces(p, 0, slice)|;
    PiecesEnd(p, 0, slice);
    PieceAt(p, 0, slice, 0);
    PieceAt(p, 0, slice, n - 1);
    MoreThanOne(p, slice, n);
    forall i | 0 <= i < n
      ensures i * slice <= |p.data| && Pieces(p, 0, slice)[i] == PieceNo(p, slice, i)
    {
      PieceAt(p, 0, slice, i);
    }
  }

  lemma MoreThanOne(p: Packet, slice: nat, n: nat)
    requires 0 < n && 0 < slice < |p.data| && (0 + 1 < n <==> 0 + 0 * slice + slice < |p.data|)
    ensures 2 <= n && n * slice == (n - 1) * slice + slice
  {
  }
}