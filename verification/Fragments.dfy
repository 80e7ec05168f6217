/** IPv4 headers as the fragmenter of `nat.c` and the reassembly of `ipunfrag.c` see them, and the
    fragmenter itself. */
module Fragments {
  import opened Bytes
  import Netutils

  // byte offsets in the header
  const TOT_LEN := 2
  const ID := 4
  const FRAG_INFO := 6
  const CSUM := 10
  const SRC := 12

  const MF := 0x2000

  datatype Packet = Packet(hdr: seq<Byte>, data: seq<Byte>)

  function HeaderLen(b: seq<Byte>): nat
    requires 0 < |b|
  {
    b[0] % 0x10 * 4
  }

  /** A header that knows its own length: the low half of byte 0, in words of four bytes. */
  predicate IsHeader(hdr: seq<Byte>) {
    20 <= |hdr| && hdr[0] % 0x10 * 4 == |hdr|
  }

  function FragInfo(hdr: seq<Byte>): Word
    requires IsHeader(hdr)
  {
    Swap(Netutils.Load(hdr, FRAG_INFO))
  }

  function Offset(hdr: seq<Byte>): nat
    requires IsHeader(hdr)
  {
    FragInfo(hdr) % 0x2000
  }

  function More(hdr: seq<Byte>): bool
    requires IsHeader(hdr)
  {
    FragInfo(hdr) / 0x2000 % 2 == 1
  }

  function TotLen(hdr: seq<Byte>): Word
    requires IsHeader(hdr)
  {
    Swap(Netutils.Load(hdr, TOT_LEN))
  }

  /** Source, destination and identification. */
  function Key(hdr: seq<Byte>): (k: seq<Byte>)
    requires IsHeader(hdr)
    ensures |k| == 10
  {
    hdr[SRC..SRC + 8] + hdr[ID..ID + 2]
  }

  /** Two bytes in network order. */
  function Number(hdr: seq<Byte>, i: nat): nat
    requires i + 1 < |hdr|
  {
    var high: int, low: int := hdr[i], hdr[i + 1];
    high * 0x100 + low
  }

  /** RFC 791 section 3.1: the total length is in bytes 2 and 3; bytes 6 and 7 hold the flag for more
      fragments and 13 bits of offset. */
  lemma Layout(hdr: seq<Byte>)
    requires IsHeader(hdr)
    ensures TotLen(hdr) == Number(hdr, 2) && FragInfo(hdr) == Number(hdr, 6)
    ensures (More(hdr) <==> Number(hdr, 6) / 0x2000 % 2 == 1) && Offset(hdr) == Number(hdr, 6) % 0x2000
  {
    WordAt(hdr, 2);
    WordAt(hdr, 6);
  }

  lemma WordAt(hdr: seq<Byte>, i: nat)
    requires i + 1 < |hdr|
    ensures Swap(Netutils.Load(hdr, i)) == Number(hdr, i)
  {
    var w: int := Netutils.Load(hdr, i);
    assert w % 0x100 == hdr[i] && w / 0x100 == hdr[i + 1];
  }

  /** Two headers are of one packet: source, destination and identification are the same. */
  predicate SameIdentity(a: seq<Byte>, b: seq<Byte>)
    requires 20 <= |a| && 20 <= |b|
  {
    (forall i | 12 <= i < 20 :: a[i] == b[i]) && a[4] == b[4] && a[5] == b[5]
  }

  /** They have the same key exactly then. */
  lemma KeyIsIdentity(a: seq<Byte>, b: seq<Byte>)
    requires IsHeader(a) && IsHeader(b)
    ensures Key(a) == Key(b) <==> SameIdentity(a, b)
  {
    var k, l := Key(a), Key(b);
    assert forall i | 0 <= i < 8 :: k[i] == a[i + 12] && l[i] == b[i + 12];
    assert k[8] == a[4] && k[9] == a[5] && l[8] == b[4] && l[9] == b[5];
    if k == l {
      forall i | 12 <= i < 20
        ensures a[i] == b[i]
      {
        assert k[i - 12] == l[i - 12];
      }
    }
    assert SameIdentity(a, b) ==> k == l;
  }

  /** The checksum of the first n bytes of a buffer is the one a full computation gives. */
  ghost predicate HeaderOk(b: seq<Byte>, n: nat)
    requires 20 <= n <= |b|
  {
    Netutils.Load(b, CSUM) == Netutils.Csum(Netutils.Store(b[..n], CSUM, 0))
  }

  /** The checksum field recomputed over the first n bytes. */
  ghost function Summed(b: seq<Byte>, n: nat): (r: seq<Byte>)
    requires 20 <= n <= |b|
    ensures |r| == |b|
  {
    Netutils.Store(b, CSUM, Netutils.Csum(Netutils.Store(b[..n], CSUM, 0)))
  }

  lemma SummedOk(b: seq<Byte>, n: nat)
    requires 20 <= n <= |b|
    ensures HeaderOk(Summed(b, n), n)
    ensures forall i | 0 <= i < |b| && i != CSUM && i != CSUM + 1 :: Summed(b, n)[i] == b[i]
  {
    assert Netutils.Store(Summed(b, n)[..n], CSUM, 0) == Netutils.Store(b[..n], CSUM, 0);
  }

  /** The header of one fragment. */
  ghost function FragHeader(hdr: seq<Byte>, size: nat, info: Word): (r: seq<Byte>)
    requires IsHeader(hdr) && |hdr| + size < 0x1_0000
    ensures |r| == |hdr|
  {
    var a := Netutils.Store(hdr, TOT_LEN, Swap(|hdr| + size));
    var b := Netutils.Store(a, FRAG_INFO, Swap(info));
    Summed(b, |hdr|)
  }

  lemma SwapTwice(w: Word)
    ensures Swap(Swap(w)) == w
  {
    var v: int := Swap(w);
    assert v / 0x100 == w % 0x100 && v % 0x100 == w / 0x100;
  }

  lemma FragHeaderFields(hdr: seq<Byte>, size: nat, info: Word)
    requires IsHeader(hdr) && |hdr| + size < 0x1_0000
    ensures var r := FragHeader(hdr, size, info);
      && IsHeader(r) && TotLen(r) == |hdr| + size && FragInfo(r) == info && Key(r) == Key(hdr) && HeaderOk(r, |r|)
      && (forall i | 0 <= i < |hdr| && i !in {2, 3, 6, 7, 10, 11} :: r[i] == hdr[i])
  {
    var a := Netutils.Store(hdr, TOT_LEN, Swap(|hdr| + size));
    var b := Netutils.Store(a, FRAG_INFO, Swap(info));
    SummedOk(b, |hdr|);
    SwapTwice(|hdr| + size);
    SwapTwice(info);
    var r := FragHeader(hdr, size, info);
    assert Netutils.Load(r, TOT_LEN) == Netutils.Load(a, TOT_LEN);
    assert Netutils.Load(r, FRAG_INFO) == Netutils.Load(b, FRAG_INFO);
    assert r[SRC..SRC + 8] == hdr[SRC..SRC + 8] && r[ID..ID + 2] == hdr[ID..ID + 2];
  }

  // ---------- the pieces of a packet ----------

  function SliceSize(mtu: nat, hdrLen: nat): nat
    requires hdrLen <= mtu
  {
    (mtu - hdrLen) / 8 * 8
  }

  function SizeAt(data: seq<Byte>, at: nat, slice: nat): nat
    requires at <= |data|
  {
    if |data| - at > slice then slice else |data| - at
  }

  /** The fragment that starts at byte `at` of the data. */
  ghost function Piece(p: Packet, at: nat, slice: nat): (f: Packet)
    requires IsHeader(p.hdr) && |p.hdr| + |p.data| < 0x1_0000 && at <= |p.data|
  {
    var size := SizeAt(p.data, at, slice);
    var mf := if |p.data| - at > slice then MF else 0;
    Packet(FragHeader(p.hdr, size, mf + at / 8), p.data[at..at + size])
  }

  ghost function Pieces(p: Packet, at: nat, slice: nat): (r: seq<Packet>)
    requires IsHeader(p.hdr) && |p.hdr| + |p.data| < 0x1_0000 && 0 < slice
    decreases if at < |p.data| then |p.data| - at else 0
  {
    if at >= |p.data| then [] else [Piece(p, at, slice)] + Pieces(p, at + slice, slice)
  }

  lemma InfoParts(more: bool, o: nat)
    requires o < 0x2000
    ensures var info := (if more then MF else 0) + o; info % 0x2000 == o && (info / 0x2000 % 2 == 1 <==> more)
  {
  }

  /** What one piece says about itself. */
  lemma PieceFields(p: Packet, at: nat, slice: nat)
    requires IsHeader(p.hdr) && |p.hdr| + |p.data| < 0x1_0000 && at < |p.data| && 0 < slice && slice % 8 == 0
      && at % 8 == 0
    ensures var f := Piece(p, at, slice);
      && IsHeader(f.hdr) && |f.hdr| == |p.hdr| && TotLen(f.hdr) == |f.hdr| + |f.data| && HeaderOk(f.hdr, |f.hdr|)
      && Key(f.hdr) == Key(p.hdr) && 8 * Offset(f.hdr) == at && (More(f.hdr) <==> at + slice < |p.data|)
      && FragInfo(f.hdr) as int == (if at + slice < |p.data| then MF else 0) + at / 8
      && |f.data| == SizeAt(p.data, at, slice) > 0 && f.data == p.data[at..at + |f.data|]
      && (forall i | 0 <= i < |p.hdr| && i !in {2, 3, 6, 7, 10, 11} :: f.hdr[i] == p.hdr[i])
  {
    hide FragHeader, HeaderOk, Key, IsHeader;
    var size := SizeAt(p.data, at, slice);
    var mf := if |p.data| - at > slice then MF else 0;
    assert at / 8 < 0x2000;
    FragHeaderFields(p.hdr, size, mf + at / 8);
    InfoParts(|p.data| - at > slice, at / 8);
  }

  /** `ixc_nat_ipfrag_send`: a packet within the MTU goes out as it is, any other in pieces; the loop
      ends early when the mbuf pool (`avail`) is exhausted. */
  method IpfragSend(p: Packet, mtu: nat, avail: nat) returns (out: seq<Packet>)
    requires IsHeader(p.hdr) && |p.hdr| + |p.data| < 0x1_0000 && |p.hdr| + 8 <= mtu
    ensures |p.hdr| + |p.data| <= mtu ==> out == [p]
    ensures |p.hdr| + |p.data| > mtu ==>
      var all := Pieces(p, 0, SliceSize(mtu, |p.hdr|)); out == if avail < |all| then all[..avail] else all
  {
    hide FragHeader, Pieces;
    var sliceSize := SliceSize(mtu, |p.hdr|);
    if |p.hdr| + |p.data| <= mtu { return [p]; }
    out := [];
    var curLen, offset, left: nat := 0, 0, avail;
    ghost var all := Pieces(p, 0, sliceSize);
    while curLen < |p.data|
      invariant 0 < sliceSize && sliceSize % 8 == 0 && offset == curLen / 8 && left == avail - |out|
      invariant curLen < |p.data| ==> curLen % 8 == 0
      invariant all == out + Pieces(p, curLen, sliceSize)
      decreases |p.data| - curLen
    {
      if left == 0 { break; }
      left := left - 1;
      var dataSize, mf := |p.data| - curLen, MF;
      if dataSize > sliceSize {
        dataSize := sliceSize;
      } else {
        mf := 0;
      }
      var fragInfo := mf + offset;
      PiecesStep(p, curLen, sliceSize);
      var hdr := MakeHeader(p.hdr, dataSize, fragInfo);
      out := out + [Packet(hdr, p.data[curLen..curLen + dataSize])];
      offset := offset + dataSize / 8;
      curLen := curLen + dataSize;
    }
    PiecesEnd(p, curLen, sliceSize);
  }

  method MakeHeader(hdr: seq<Byte>, size: nat, info: Word) returns (r: seq<Byte>)
    requires IsHeader(hdr) && |hdr| + size < 0x1_0000
    ensures r == FragHeader(hdr, size, info)
  {
    r := Netutils.Store(hdr, TOT_LEN, Swap(|hdr| + size));
    r := Netutils.Store(r, FRAG_INFO, Swap(info));
    assert r[..|hdr|] == r;
    var csum := Netutils.CsumCalc(Netutils.Store(r, CSUM, 0));
    r := Netutils.Store(r, CSUM, csum);
  }

  lemma PiecesStep(p: Packet, at: nat, slice: nat)
    requires IsHeader(p.hdr) && |p.hdr| + |p.data| < 0x1_0000 && 0 < slice && at < |p.data|
    ensures Pieces(p, at, slice) == [Piece(p, at, slice)] + Pieces(p, at + slice, slice)
    ensures Pieces(p, at, slice) == [Piece(p, at, slice)] + Pieces(p, at + SizeAt(p.data, at, slice), slice)
  {
    hide Piece;
  }

  lemma PiecesEnd(p: Packet, at: nat, slice: nat)
    requires IsHeader(p.hdr) && |p.hdr| + |p.data| < 0x1_0000 && 0 < slice
    ensures Pieces(p, at, slice) == [] <==> at >= |p.data|
  {
    hide Piece;
  }

  // ---------- what the pieces are together ----------

  ghost function Joined(fs: seq<Packet>): seq<Byte> {
    if fs == [] then [] else fs[0].data + Joined(fs[1..])
  }

  /** Put together in order the pieces are the payload. */
  lemma {:induction false} PiecesJoin(p: Packet, at: nat, slice: nat)
    requires IsHeader(p.hdr) && |p.hdr| + |p.data| < 0x1_0000 && 0 < slice && at <= |p.data|
    ensures Joined(Pieces(p, at, slice)) == p.data[at..]
    decreases |p.data| - at
  {
    hide Piece, Pieces;
    PiecesEnd(p, at, slice);
    if at < |p.data| {
      PiecesStep(p, at, slice);
      PieceData(p, at, slice);
      var next := at + SizeAt(p.data, at, slice);
      PiecesJoin(p, next, slice);
      assert p.data[at..] == p.data[at..next] + p.data[next..];
      assert Pieces(p, at, slice)[1..] == Pieces(p, next, slice);
    }
  }

  lemma PieceData(p: Packet, at: nat, slice: nat)
    requires IsHeader(p.hdr) && |p.hdr| + |p.data| < 0x1_0000 && at <= |p.data|
    ensures Piece(p, at, slice).data == p.data[at..at + SizeAt(p.data, at, slice)]
  {
  }

  /** Piece i starts at slice number i, and one follows exactly when its slice does not reach the end. */
  lemma {:induction false} PieceAt(p: Packet, at: nat, slice: nat, i: nat)
    requires IsHeader(p.hdr) && |p.hdr| + |p.data| < 0x1_0000 && 0 < slice && i < |Pieces(p, at, slice)|
    ensures at + i * slice < |p.data| && Pieces(p, at, slice)[i] == Piece(p, at + i * slice, slice)
    ensures i + 1 < |Pieces(p, at, slice)| <==> at + i * slice + slice < |p.data|
    decreases i
  {
    hide Piece;
    PiecesEnd(p, at, slice);
    PiecesStep(p, at, slice);
    PiecesEnd(p, at + slice, slice);
    if i > 0 {
      PieceAt(p, at + slice, slice, i - 1);
      assert at + slice + (i - 1) * slice == at + i * slice;
    }
  }

  lemma EightTimes(slice: nat, i: nat)
    requires slice % 8 == 0
    ensures i * slice % 8 == 0
  {
    assert i * slice == 8 * (i * (slice / 8));
  }

  lemma SliceFacts(mtu: nat, h: nat)
    requires h + 8 <= mtu
    ensures 0 < SliceSize(mtu, h) && SliceSize(mtu, h) % 8 == 0
    ensures h + SliceSize(mtu, h) <= mtu < h + SliceSize(mtu, h) + 8
  {
  }

  /** RFC 791 section 3.2: every piece fits the MTU, and in all but the last less than eight bytes of it
      are free; these carry a multiple of eight bytes and say that more follow; each says where its bytes
      belong, how long it is, and is otherwise the packet's header, with an exact checksum; together
      they are the payload. */
  lemma PiecesTile(p: Packet, mtu: nat)
    requires IsHeader(p.hdr) && |p.hdr| + |p.data| < 0x1_0000 && |p.hdr| + 8 <= mtu && p.data != []
    ensures var fs := Pieces(p, 0, SliceSize(mtu, |p.hdr|));
      fs != [] && Joined(fs) == p.data && forall i | 0 <= i < |fs| :: Tile(p, mtu, fs, i)
  {
    hide Piece, Pieces, Tile, SliceSize;
    SliceFacts(mtu, |p.hdr|);
    var slice := SliceSize(mtu, |p.hdr|);
    PiecesJoin(p, 0, slice);
    PiecesEnd(p, 0, slice);
    forall i | 0 <= i < |Pieces(p, 0, slice)|
      ensures Tile(p, mtu, Pieces(p, 0, slice), i)
    {
      TileAt(p, mtu, i);
    }
  }

  ghost predicate Tile(p: Packet, mtu: nat, fs: seq<Packet>, i: nat)
    requires i < |fs| && 20 <= |p.hdr|
  {
    var f := fs[i];
    && |f.hdr| == |p.hdr| && f.data != [] && |f.hdr| + |f.data| <= mtu
    && (i + 1 < |fs| ==> |f.data| % 8 == 0 && mtu < |f.hdr| + |f.data| + 8)
    && 8 * (Number(f.hdr, 6) % 0x2000) == i * |fs[0].data|
    && Number(f.hdr, 6) / 0x2000 == (if i + 1 < |fs| then 1 else 0)
    && Number(f.hdr, 2) == |f.hdr| + |f.data|
    && (forall j | 0 <= j < |p.hdr| && j !in {2, 3, 6, 7, 10, 11} :: f.hdr[j] == p.hdr[j])
    && HeaderOk(f.hdr, |f.hdr|)
  }

  lemma TileAt(p: Packet, mtu: nat, i: nat)
    requires IsHeader(p.hdr) && |p.hdr| + |p.data| < 0x1_0000 && |p.hdr| + 8 <= mtu && p.data != []
    requires i < |Pieces(p, 0, SliceSize(mtu, |p.hdr|))|
    ensures Tile(p, mtu, Pieces(p, 0, SliceSize(mtu, |p.hdr|)), i)
  {
    hide *;
    SliceFacts(mtu, |p.hdr|);
    HeaderSize(p.hdr);
    var slice := SliceSize(mtu, |p.hdr|);
    var fs := Pieces(p, 0, slice);
    PieceAt(p, 0, slice, 0);
    PieceAt(p, 0, slice, i);
    EightTimes(slice, i);
    PieceFields(p, 0, slice);
    PieceFields(p, i * slice, slice);
    Layout(fs[i].hdr);
    SizeIs(p.data, 0, slice);
    SizeIs(p.data, i * slice, slice);
    InfoSplit(i * slice < |p.data| - slice, i * slice / 8);
    TileIntro(p, mtu, slice, fs, i);
  }

  lemma HeaderSize(hdr: seq<Byte>)
    requires IsHeader(hdr)
    ensures 20 <= |hdr|
  {
  }

  lemma SizeIs(data: seq<Byte>, at: nat, slice: nat)
    requires at <= |data|
    ensures SizeAt(data, at, slice) == if at + slice < |data| then slice else |data| - at
  {
  }

  lemma InfoSplit(more: bool, o: nat)
    requires o < 0x2000
    ensures var info := (if more then MF else 0) + o; info % 0x2000 == o && info / 0x2000 == if more then 1 else 0
  {
  }

  lemma TileIntro(p: Packet, mtu: nat, slice: nat, fs: seq<Packet>, i: nat)
    requires 20 <= |p.hdr| && 0 < slice && slice % 8 == 0 && |p.hdr| + slice <= mtu < |p.hdr| + slice + 8 && i < |fs|
    requires i * slice < |p.data|
    requires |fs[i].data| == (if i * slice + slice < |p.data| then slice else |p.data| - i * slice)
    requires |fs[0].data| == (if slice < |p.data| then slice else |p.data|)
    requires i + 1 < |fs| <==> i * slice + slice < |p.data|
    requires |fs[i].hdr| == |p.hdr| && HeaderOk(fs[i].hdr, |p.hdr|)
    requires i * slice % 8 == 0 && Number(fs[i].hdr, 6) % 0x2000 == i * slice / 8
    requires Number(fs[i].hdr, 6) / 0x2000 == (if i * slice + slice < |p.data| then 1 else 0)
    requires Number(fs[i].hdr, 2) == |p.hdr| + |fs[i].data|
    requires forall j | 0 <= j < |p.hdr| && j !in {2, 3, 6, 7, 10, 11} :: fs[i].hdr[j] == p.hdr[j]
    ensures Tile(p, mtu, fs, i)
  {
    hide HeaderOk, Number;
    if slice >= |p.data| {
      Beyond(i, slice, |p.data|);
    }
  }

  lemma Beyond(i: nat, slice: nat, total: nat)
    requires total <= slice && i * slice < total
    ensures i == 0
  {
    More8(if i > 0 then 1 else 0, i, slice);
  }

  // ---------- how few pieces there are ----------

  ghost function Total(sizes: seq<nat>): nat {
    if sizes == [] then 0 else sizes[0] + Total(sizes[1..])
  }

  /** A cut of so many bytes into pieces that have room for `room` bytes each and start at multiples of
      eight. */
  ghost predicate IsCut(sizes: seq<nat>, total: nat, room: nat) {
    && sizes != [] && Total(sizes) == total && (forall i | 0 <= i < |sizes| :: sizes[i] <= room)
    && (forall i | 0 <= i < |sizes| - 1 :: sizes[i] % 8 == 0)
  }

  lemma {:induction false} CutBound(sizes: seq<nat>, total: nat, room: nat)
    requires IsCut(sizes, total, room)
    ensures total <= (|sizes| - 1) * (room / 8 * 8) + room
  {
    if |sizes| > 1 {
      var rest := sizes[1..];
      assert forall i | 0 <= i < |rest| :: rest[i] == sizes[i + 1];
      CutBound(rest, total - sizes[0], room);
      assert sizes[0] <= room / 8 * 8;
      assert (|sizes| - 1) * (room / 8 * 8) == (|rest| - 1) * (room / 8 * 8) + room / 8 * 8;
    } else {
      assert sizes[1..] == [];
    }
  }

  /** So many pieces of one size and a last one. */
  lemma {:induction false} EvenCut(slice: nat, n: nat, last: nat) returns (sizes: seq<nat>)
    ensures |sizes| == n + 1 && Total(sizes) == n * slice + last && sizes[n] == last
    ensures forall i | 0 <= i < n :: sizes[i] == slice
  {
    if n == 0 {
      sizes := [last];
      assert sizes[1..] == [];
    } else {
      var rest := EvenCut(slice, n - 1, last);
      sizes := [slice] + rest;
      assert sizes[1..] == rest && n * slice == (n - 1) * slice + slice;
    }
  }

  /** No cut has fewer pieces than the fragmenter makes, except that the last two can be one if both fit
      the MTU together: the fragmenter never fills the last piece beyond a multiple of eight. Then one
      piece less would do, and never more than one. */
  lemma Fewest(p: Packet, mtu: nat)
    requires IsHeader(p.hdr) && |p.hdr| + |p.data| < 0x1_0000 && |p.hdr| + 8 <= mtu < |p.hdr| + |p.data|
    ensures var fs, room := Pieces(p, 0, SliceSize(mtu, |p.hdr|)), mtu - |p.hdr|;
      && 2 <= |fs|
      && (forall sizes | IsCut(sizes, |p.data|, room) :: |sizes| >= |fs| - 1)
      && ((exists sizes :: IsCut(sizes, |p.data|, room) && |sizes| < |fs|) <==>
            |fs[|fs| - 2].data| + |fs[|fs| - 1].data| <= room)
  {
    hide *;
    SliceFacts(mtu, |p.hdr|);
    var room, slice := mtu - |p.hdr|, SliceSize(mtu, |p.hdr|);
    var n := |Pieces(p, 0, slice)|;
    LastTwo(p, slice);
    Room(mtu, |p.hdr|);
    forall sizes | IsCut(sizes, |p.data|, room)
      ensures |sizes| >= n - 1 && (|sizes| < n ==> slice + (|p.data| - (n - 1) * slice) <= room)
    {
      NotEmpty(sizes, |p.data|, room);
      CutBound(sizes, |p.data|, room);
      FewEnough(|sizes|, n, slice, |p.data|, room);
    }
    if slice + (|p.data| - (n - 1) * slice) <= room {
      Times(n - 1, slice);
      var sizes := EvenCut(slice, n - 2, slice + (|p.data| - (n - 1) * slice));
      CutIntro(sizes, |p.data|, room, slice);
    }
  }

  lemma NotEmpty(sizes: seq<nat>, total: nat, room: nat)
    requires IsCut(sizes, total, room)
    ensures |sizes| > 0
  {
  }

  lemma Room(mtu: nat, h: nat)
    requires h + 8 <= mtu
    ensures SliceSize(mtu, h) == (mtu - h) / 8 * 8 && SliceSize(mtu, h) <= mtu - h < SliceSize(mtu, h) + 8
    ensures 8 <= SliceSize(mtu, h)
  {
  }

  lemma CutIntro(sizes: seq<nat>, total: nat, room: nat, slice: nat)
    requires sizes != [] && Total(sizes) == total && slice <= room && slice % 8 == 0 && sizes[|sizes| - 1] <= room
    requires forall i | 0 <= i < |sizes| - 1 :: sizes[i] == slice
    ensures IsCut(sizes, total, room)
  {
  }

  /** The last two pieces of a packet that is cut. */
  lemma LastTwo(p: Packet, slice: nat)
    requires IsHeader(p.hdr) && |p.hdr| + |p.data| < 0x1_0000 && 0 < slice < |p.data|
    ensures var fs := Pieces(p, 0, slice); var n := |fs|;
      && 2 <= n && (n - 1) * slice < |p.data| <= (n - 1) * slice + slice
      && |fs[n - 2].data| == slice && |fs[n - 1].data| == |p.data| - (n - 1) * slice
  {
    hide Piece, Pieces, IsHeader;
    PiecesEnd(p, 0, slice);
    PieceAt(p, 0, slice, 0);
    var n := |Pieces(p, 0, slice)|;
    PieceAt(p, 0, slice, n - 1);
    PieceAt(p, 0, slice, n - 2);
    PieceData(p, (n - 1) * slice, slice);
    PieceData(p, (n - 2) * slice, slice);
    Times(n - 1, slice);
  }

  lemma Times(n: nat, slice: nat)
    requires 0 < n
    ensures n * slice == (n - 1) * slice + slice
  {
  }

  lemma FewEnough(m: nat, n: nat, slice: nat, total: nat, room: nat)
    requires 0 < m && 2 <= n && (n - 1) * slice < total <= (m - 1) * slice + room && room < slice + 8 && 8 <= slice
    ensures m >= n - 1
    ensures m < n ==> slice + (total - (n - 1) * slice) <= room
  {
    Times(n - 1, slice);
    if m < n - 1 {
      Times(n - 2, slice);
      More8(m - 1, n - 3, slice);
    }
  }

  lemma More8(a: nat, b: nat, slice: nat)
    requires a <= b
    ensures a * slice <= b * slice
  {
    assert b * slice == a * slice + (b - a) * slice;
  }

  /** 2965 bytes behind a header of 20, with an MTU of 1505: three pieces, where 1480 and 1485 bytes fit. */
  lemma OnePieceMore(p: Packet)
    requires IsHeader(p.hdr) && |p.hdr| == 20 && |p.data| == 2965
    ensures |Pieces(p, 0, SliceSize(1505, 20))| == 3 && IsCut([1480, 1485], 2965, 1485)
  {
    hide Piece;
    assert [1480, 1485][1..] == [1485] && [1485][1..] == [];
    assert Total([1485]) == 1485;
    PiecesStep(p, 0, 1480);
    PiecesStep(p, 1480, 1480);
    PiecesStep(p, 2960, 1480);
    PiecesEnd(p, 4440, 1480);
  }
}
