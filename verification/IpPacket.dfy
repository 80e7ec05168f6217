/** Address rewriting of `pywind/clib/netutils.c` on a packet held as the 16-bit words a
    little-endian host loads, and why the checksums it patches stay exact. */
module IpPacket {
  import opened Bytes
  import Netutils

  // word offsets in the IPv4 header
  const FRAG := 3
  const TTL_PROTO := 4
  const CSUM := 5
  const SRC := 6
  const DST := 8

  const TCP := 6
  const UDP := 17

  function HeaderWords(p: seq<Word>): nat
    requires |p| > 0
  {
    p[0] % 0x10 * 2
  }

  function Protocol(p: seq<Word>): (protocol: nat)
    requires |p| > TTL_PROTO
    ensures protocol < 0x100
  {
    p[TTL_PROTO] / 0x100
  }

  function FragOffset(p: seq<Word>): nat
    requires |p| > FRAG
  {
    Swap(p[FRAG]) % 0x2000
  }

  /** Where the transport checksum that `rewrite_ip_addr` patches sits, from the transport header. */
  function CsumOffset(protocol: nat): nat {
    if protocol == TCP then 8 else 3
  }

  /** What the code takes for granted of a packet: a whole header, and in a first fragment of TCP
      or UDP a whole transport header. */
  ghost predicate WellFormed(p: seq<Word>) {
    && 10 <= |p| && 10 <= HeaderWords(p) <= |p|
    && (Patched(p) ==> HeaderWords(p) + CsumOffset(Protocol(p)) < |p|)
  }

  predicate Patched(p: seq<Word>)
    requires |p| > TTL_PROTO
  {
    FragOffset(p) == 0 && (Protocol(p) == TCP || Protocol(p) == UDP)
  }

  // ---------- sums ----------

  ghost function Sum(ws: seq<Word>): nat {
    if ws == [] then 0 else ws[0] + Sum(ws[1..])
  }

  lemma {:induction false} SumUpdate(ws: seq<Word>, i: nat, w: Word)
    requires i < |ws|
    ensures Sum(ws[i := w]) == Sum(ws) - ws[i] + w
    ensures Sum(ws) >= ws[i]
  {
    if i == 0 {
      assert ws[0 := w][1..] == ws[1..];
    } else {
      SumUpdate(ws[1..], i - 1, w);
      assert ws[i := w][1..] == ws[1..][i - 1 := w];
    }
  }

  /** The header sum without the checksum field. */
  ghost function HeaderSum(p: seq<Word>): nat
    requires 10 <= |p| && 10 <= HeaderWords(p) <= |p|
  {
    Sum(p[..HeaderWords(p)][CSUM := 0])
  }

  /** The IP checksum is the one a full computation would give. */
  ghost predicate HeaderOk(p: seq<Word>)
    requires 10 <= |p| && 10 <= HeaderWords(p) <= |p|
  {
    p[CSUM] == 0xffff - Netutils.Fold(HeaderSum(p))
  }

  /** Pseudo header and segment without the checksum field; `length` is the segment length. */
  ghost function SegmentSum(p: seq<Word>, c: nat, length: Word): nat
    requires 10 <= |p| && 10 <= HeaderWords(p) && HeaderWords(p) + c < |p|
  {
    p[SRC] + p[SRC + 1] + p[DST] + p[DST + 1] + 0x100 * Protocol(p) + Swap(length) + Sum(p[HeaderWords(p)..][c := 0])
  }

  ghost predicate SegmentOk(p: seq<Word>, c: nat, length: Word)
    requires 10 <= |p| && 10 <= HeaderWords(p) && HeaderWords(p) + c < |p|
  {
    p[HeaderWords(p) + c] == 0xffff - Netutils.Fold(SegmentSum(p, c, length))
  }

  /** The bytes of a packet in memory. */
  ghost function Octets(ws: seq<Word>): (b: seq<Byte>)
    ensures |b| == 2 * |ws|
  {
    if ws == [] then [] else [ws[0] % 0x100, ws[0] / 0x100] + Octets(ws[1..])
  }

  /** The word sum of the bytes is the sum of the words. */
  lemma {:induction false} SumOfOctets(ws: seq<Word>, rest: seq<Byte>)
    ensures Netutils.WordSum(Octets(ws) + rest) == Sum(ws) + Netutils.WordSum(rest)
  {
    if ws == [] {
      assert Octets(ws) + rest == rest;
    } else {
      var b := Octets(ws) + rest;
      assert b[2..] == Octets(ws[1..]) + rest;
      SumOfOctets(ws[1..], rest);
    }
  }

  /** What an exact checksum means in bytes. Of the IP header it is what `csum_calc` makes of the header
      without the checksum field; of a segment, as RFC 793 section 3.1 and RFC 768 have it, what it makes
      of the addresses, a zero byte, the protocol, the length and the segment without the checksum field;
      of an ICMP message it is that of the message alone. */
  lemma ExactMeans(p: seq<Word>, c: nat, length: Word)
    requires 10 <= |p| && 10 <= HeaderWords(p) && HeaderWords(p) + c < |p|
    ensures HeaderOk(p) <==> p[5] == Netutils.Csum(Octets(p[..HeaderWords(p)][5 := 0]))
    ensures SegmentOk(p, c, length) <==>
      var h := p[0] % 0x10 * 2;
      var pseudo := Octets(p[6..10]) + [0, p[4] / 0x100, length / 0x100, length % 0x100];
      p[h + c] == Netutils.Csum(pseudo + Octets(p[h..][c := 0]))
    ensures 0xffff - Netutils.Fold(MessageSum(p, c)) == Netutils.Csum(Octets(p[p[0] % 0x10 * 2..][c := 0]))
  {
    hide Netutils.WordSum, Netutils.Fold, Sum, Octets;
    var h := HeaderWords(p);
    SumOfOctets(p[..h][5 := 0], []);
    assert Octets(p[..h][5 := 0]) + [] == Octets(p[..h][5 := 0]);
    var middle: seq<Byte> := [0, p[4] / 0x100, length / 0x100, length % 0x100];
    var segment := Octets(p[h..][c := 0]);
    SumOfOctets(p[6..10], middle + segment);
    assert Octets(p[6..10]) + middle + segment == Octets(p[6..10]) + (middle + segment);
    FourBytes(middle, segment);
    SumOfOctets(p[h..][c := 0], []);
    assert segment + [] == segment;
    FourWords(p);
    NoBytes();
  }

  lemma NoBytes()
    ensures Netutils.WordSum([]) == 0
  {
  }

  lemma FourBytes(b: seq<Byte>, rest: seq<Byte>)
    requires |b| == 4
    ensures Netutils.WordSum(b + rest) ==
      (b[0] as int + 0x100 * b[1] as int) + (b[2] as int + 0x100 * b[3] as int) + Netutils.WordSum(rest)
  {
    var all := b + rest;
    assert all[2..][2..] == rest && all[2..] != [];
  }

  lemma FourWords(p: seq<Word>)
    requires 10 <= |p|
    ensures Sum(p[6..10]) == p[6] as int + p[7] as int + p[8] as int + p[9] as int
  {
    var s := p[6..10];
    assert s == [p[6], p[7], p[8], p[9]];
    assert Sum(s[1..][1..][1..]) == p[9];
    assert Sum(s[1..][1..]) == p[8] as int + p[9] as int;
    assert Sum(s[1..]) == p[7] as int + p[8] as int + p[9] as int;
  }

  // ---------- rewrite_ip_addr ----------

  /** One field of the address pair after the other, through the incremental checksum. */
  function Patch(csum: Word, old0: Word, old1: Word, new0: Word, new1: Word): Word {
    Netutils.CsumIncre(old1, new1, Netutils.CsumIncre(old0, new0, csum))
  }

  /** The packet after `rewrite_ip_addr`; `at` is SRC or DST. */
  ghost function Rewritten(p: seq<Word>, at: nat, new0: Word, new1: Word): (q: seq<Word>)
    requires WellFormed(p) && (at == SRC || at == DST)
    ensures |q| == |p|
  {
    var q := p[CSUM := Patch(p[CSUM], p[at], p[at + 1], new0, new1)];
    var c := HeaderWords(p) + CsumOffset(Protocol(p));
    var r := if Patched(p) then q[c := Patch(q[c], p[at], p[at + 1], new0, new1)] else q;
    r[at := new0][at + 1 := new1]
  }

  /** The transport header's checksum, in a first fragment of TCP or UDP: word 8 or word 3 behind the IP
      header. */
  ghost predicate Transport(p: seq<Word>, i: int)
    requires 5 <= |p|
  {
    && p[3] % 0x20 == 0 && p[3] / 0x100 == 0
    && ((p[4] / 0x100 == 6 && i == p[0] % 0x10 * 2 + 8) || (p[4] / 0x100 == 17 && i == p[0] % 0x10 * 2 + 3))
  }

  /** Words 6 and 7 of the header are the source, words 8 and 9 the destination: one of them is the new
      address, and of the rest only checksums change. */
  ghost predicate Readdressed(p: seq<Word>, q: seq<Word>, isSrc: bool, new0: Word, new1: Word)
    requires 10 <= |p|
  {
    && |q| == |p|
    && (if isSrc then q[6] == new0 && q[7] == new1 else q[8] == new0 && q[9] == new1)
    && forall i | 0 <= i < |p| && i != 5 && !Transport(p, i) && !(if isSrc then 6 <= i < 8 else 8 <= i < 10) ::
      q[i] == p[i]
  }

  lemma RewrittenWords(p: seq<Word>, isSrc: bool, new0: Word, new1: Word)
    requires WellFormed(p)
    ensures Readdressed(p, Rewritten(p, if isSrc then SRC else DST, new0, new1), isSrc, new0, new1)
  {
    hide Netutils.CsumIncre, FragOffset;
    FirstFragment(p);
  }

  lemma FirstFragment(p: seq<Word>)
    requires 5 <= |p|
    ensures FragOffset(p) == 0 <==> p[3] % 0x20 == 0 && p[3] / 0x100 == 0
  {
    OffsetBits(p[3]);
  }

  lemma OffsetBits(w: Word)
    ensures Swap(w) % 0x2000 == w % 0x20 * 0x100 + w / 0x100
  {
    var low: int, high: int := w % 0x100, w / 0x100;
    assert low * 0x100 + high == 0x2000 * (low / 0x20) + (low % 0x20 * 0x100 + high);
    assert low % 0x20 == w % 0x20;
  }

  method RewriteIpAddr(pkt: array<Word>, new0: Word, new1: Word, isSrc: bool)
    requires WellFormed(pkt[..])
    modifies pkt
    ensures pkt[..] == Rewritten(old(pkt[..]), if isSrc then SRC else DST, new0, new1)
    ensures Readdressed(old(pkt[..]), pkt[..], isSrc, new0, new1)
  {
    ghost var p := pkt[..];
    RewrittenWords(p, isSrc, new0, new1);
    var at := if isSrc then SRC else DST;
    var csum := pkt[CSUM];
    csum := Netutils.CsumIncre(pkt[at], new0, csum);
    csum := Netutils.CsumIncre(pkt[at + 1], new1, csum);
    var hdrLen := pkt[0] % 0x10 * 2;
    var protocol := pkt[TTL_PROTO] / 0x100;
    var offset := Swap(pkt[FRAG]) % 0x2000;
    pkt[CSUM] := csum;
    if offset == 0 {
      if protocol == TCP || protocol == UDP {
        var c := hdrLen + if protocol == TCP then 8 else 3;
        csum := pkt[c];
        csum := Netutils.CsumIncre(pkt[at], new0, csum);
        csum := Netutils.CsumIncre(pkt[at + 1], new1, csum);
        pkt[c] := csum;
      }
    }
    pkt[at] := new0;
    pkt[at + 1] := new1;
  }

  // ---------- the patched checksums are the recomputed ones ----------

  /** Two patches amount to a recomputation as long as something else in the sum is not zero. */
  lemma PatchExact(s: nat, old0: Word, old1: Word, new0: Word, new1: Word)
    requires s > old0 + old1
    ensures Patch(0xffff - Netutils.Fold(s), old0, old1, new0, new1)
      == 0xffff - Netutils.Fold(s - old0 - old1 + new0 + new1)
  {
    hide Netutils.CsumIncre, Netutils.Fold;
    Netutils.IncreOnSums(s, old0, new0);
    Netutils.IncreOnSums(s - old0 + new0, old1, new1);
  }

  lemma SumOfPair(ws: seq<Word>, i: nat, w0: Word, w1: Word)
    requires i + 1 < |ws|
    ensures Sum(ws[i := w0][i + 1 := w1]) == Sum(ws) - ws[i] - ws[i + 1] + w0 + w1
    ensures 0 < i && ws[0] > 0 ==> Sum(ws) > ws[i] as int + ws[i + 1] as int
    ensures Sum(ws) >= ws[i] as int + ws[i + 1] as int
  {
    SumUpdate(ws, i, w0);
    SumUpdate(ws[i := w0], i + 1, w1);
    SumUpdate(ws, i, 0);
    SumUpdate(ws[i := 0], i + 1, 0);
    if 0 < i {
      SumUpdate(ws[i := 0][i + 1 := 0], 0, 0);
    }
  }

  /** The layout is not touched. */
  lemma RewrittenLayout(p: seq<Word>, at: nat, new0: Word, new1: Word)
    requires WellFormed(p) && (at == SRC || at == DST)
    ensures var q := Rewritten(p, at, new0, new1);
      && WellFormed(q) && HeaderWords(q) == HeaderWords(p) && Protocol(q) == Protocol(p) && Patched(q) == Patched(p)
      && q[at] == new0 && q[at + 1] == new1
      && (forall i | 0 <= i < |p| && i != CSUM && i != at && i != at + 1 &&
            !(Patched(p) && i == HeaderWords(p) + CsumOffset(Protocol(p))) :: q[i] == p[i])
  {
  }

  /** Rewriting an address keeps the IP header checksum exact. */
  lemma RewriteKeepsHeader(p: seq<Word>, at: nat, new0: Word, new1: Word)
    requires WellFormed(p) && (at == SRC || at == DST) && HeaderOk(p)
    ensures HeaderOk(Rewritten(p, at, new0, new1))
  {
    hide Netutils.CsumIncre, Netutils.Fold, Sum, Patch;
    var q := Rewritten(p, at, new0, new1);
    RewrittenLayout(p, at, new0, new1);
    var h := HeaderWords(p);
    var a: seq<Word>, b: seq<Word> := p[..h][CSUM := 0], q[..h][CSUM := 0];
    assert b == a[at := new0][at + 1 := new1];
    SumOfPair(a, at, new0, new1);
    PatchExact(Sum(a), p[at], p[at + 1], new0, new1);
  }

  /** In a first fragment the TCP or UDP checksum stays exact as well. */
  lemma RewriteKeepsSegment(p: seq<Word>, at: nat, new0: Word, new1: Word, length: Word)
    requires WellFormed(p) && (at == SRC || at == DST) && Patched(p)
    requires SegmentOk(p, CsumOffset(Protocol(p)), length)
    ensures SegmentOk(Rewritten(p, at, new0, new1), CsumOffset(Protocol(p)), length)
  {
    hide Netutils.CsumIncre, Netutils.Fold, Sum, Patch;
    var q := Rewritten(p, at, new0, new1);
    RewrittenLayout(p, at, new0, new1);
    var h, c := HeaderWords(p), CsumOffset(Protocol(p));
    assert q[h..][c := 0] == p[h..][c := 0];
    var s := SegmentSum(p, c, length);
    assert s > p[at] + p[at + 1];
    PatchExact(s, p[at], p[at + 1], new0, new1);
    assert SegmentSum(q, c, length) == s - p[at] - p[at + 1] + new0 + new1;
  }

  /** The port or identifier rewrite of `ixc_nat_do`: word `at` of the transport header and its checksum. */
  ghost function IdRewritten(p: seq<Word>, at: nat, c: nat, newId: Word): (q: seq<Word>)
    requires 0 < |p| && HeaderWords(p) + at < |p| && HeaderWords(p) + c < |p|
    ensures |q| == |p|
  {
    var h := HeaderWords(p);
    p[h + at := newId][h + c := Netutils.CsumIncre(p[h + at], newId, p[h + c])]
  }

  /** With a pseudo header in the sum the patched checksum is exact whatever the new port. */
  lemma IdRewriteKeepsSegment(p: seq<Word>, at: nat, c: nat, newId: Word, length: Word)
    requires 10 <= |p| && 10 <= HeaderWords(p) && HeaderWords(p) + c < |p| && HeaderWords(p) + at < |p| && at != c
    requires Protocol(p) > 0 && SegmentOk(p, c, length)
    ensures SegmentOk(IdRewritten(p, at, c, newId), c, length)
  {
    hide Netutils.CsumIncre, Netutils.Fold;
    var q := IdRewritten(p, at, c, newId);
    var h := HeaderWords(p);
    var a: seq<Word>, b: seq<Word> := p[h..][c := 0], q[h..][c := 0];
    assert b == a[at := newId];
    SumUpdate(a, at, newId);
    Netutils.IncreOnSums(SegmentSum(p, c, length), p[h + at], newId);
  }

  /** An ICMP message is summed without a pseudo header. */
  ghost function MessageSum(p: seq<Word>, c: nat): nat
    requires 0 < |p| && HeaderWords(p) + c < |p|
  {
    Sum(p[HeaderWords(p)..][c := 0])
  }

  /** For an ICMP echo the patched checksum is exact if and only if the new message does not sum to zero. */
  lemma IdRewriteOfEcho(p: seq<Word>, at: nat, c: nat, newId: Word)
    requires 0 < |p| && 10 <= HeaderWords(p) && HeaderWords(p) + c < |p| && HeaderWords(p) + at < |p| && at != c
    requires p[HeaderWords(p) + c] == 0xffff - Netutils.Fold(MessageSum(p, c))
    ensures var q := IdRewritten(p, at, c, newId);
      q[HeaderWords(q) + c] == 0xffff - Netutils.Fold(MessageSum(q, c)) <==> MessageSum(q, c) != 0
  {
    hide Netutils.CsumIncre, Netutils.Fold;
    var q := IdRewritten(p, at, c, newId);
    var h := HeaderWords(p);
    var a: seq<Word>, b: seq<Word> := p[h..][c := 0], q[h..][c := 0];
    assert b == a[at := newId];
    SumUpdate(a, at, newId);
    Netutils.IncreOnSums(MessageSum(p, c), p[h + at], newId);
  }

  /** An echo reply with sequence number 0, translated back to identifier 0: the patched checksum is
      0 where a recomputation gives 0xffff. */
  lemma EchoCounterexample() returns (p: seq<Word>)
    ensures |p| == 14 && HeaderWords(p) == 10 && Protocol(p) == 1
    ensures p[11] == 0xffff - Netutils.Fold(MessageSum(p, 1))
    ensures var q := IdRewritten(p, 2, 1, 0); q[11] != 0xffff - Netutils.Fold(MessageSum(q, 1))
  {
    hide Netutils.CsumIncre, Sum;
    p := [69, 0, 0, 0, 0x140, 0, 0, 0, 0, 0, 0, 0xfffa, 5, 0];
    SumOfFour(0, 0, 5, 0);
    SumOfFour(0, 0, 0, 0);
    assert p[10..][1 := 0] == [0, 0, 5, 0];
    var q := IdRewritten(p, 2, 1, 0);
    assert q[10..][1 := 0] == [0, 0, 0, 0];
    IdRewriteOfEcho(p, 2, 1, 0);
  }

  lemma SumOfFour(a: Word, b: Word, c: Word, d: Word)
    ensures Sum([a, b, c, d]) == a + b + c + d
  {
    assert [a, b, c, d][1..] == [b, c, d] && [b, c, d][1..] == [c, d] && [c, d][1..] == [d] && [d][1..] == [];
    assert Sum([d]) == d;
    assert Sum([c, d]) == c + d;
    assert Sum([b, c, d]) == b + c + d;
  }

  // ---------- the TTL step of ixc_route_handle_for_ip ----------

  function Ttl(p: seq<Word>): nat
    requires |p| > TTL_PROTO
  {
    p[TTL_PROTO] % 0x100
  }

  /** The TTL shares its word with the protocol, but the checksum is patched with the bare TTL. */
  method DecrementTtl(pkt: array<Word>)
    requires WellFormed(pkt[..]) && pkt[4] % 0x100 > 1 && HeaderOk(pkt[..])
    modifies pkt
    ensures pkt[..] == old(pkt[..])[5 := pkt[5]][4 := old(pkt[4]) - 1]
    ensures pkt[4] % 0x100 == old(pkt[4]) % 0x100 - 1 && pkt[4] / 0x100 == old(pkt[4]) / 0x100
    ensures HeaderOk(pkt[..])
  {
    hide HeaderOk, Netutils.CsumIncre;
    ghost var p := pkt[..];
    var ttl := pkt[TTL_PROTO] % 0x100;
    pkt[CSUM] := Netutils.CsumIncre(ttl, ttl - 1, pkt[CSUM]);
    pkt[TTL_PROTO] := pkt[TTL_PROTO] - 1;
    TtlPatch(p, pkt[..]);
  }

  lemma LowByteFits(w: Word)
    ensures w % 0x100 <= w
  {
  }

  lemma TtlPatch(p: seq<Word>, q: seq<Word>)
    requires WellFormed(p) && Ttl(p) > 1 && HeaderOk(p)
    requires q == p[CSUM := Netutils.CsumIncre(Ttl(p), Ttl(p) - 1, p[CSUM])][TTL_PROTO := p[TTL_PROTO] - 1]
    ensures HeaderOk(q)
  {
    hide Netutils.CsumIncre, Netutils.Fold;
    var h := HeaderWords(p);
    var a: seq<Word>, b: seq<Word> := p[..h][CSUM := 0], q[..h][CSUM := 0];
    var w: Word := p[TTL_PROTO];
    LowByteFits(w);
    assert b == a[TTL_PROTO := w - 1];
    SumUpdate(a, TTL_PROTO, w - 1);
    SumUpdate(b, 0, 0);
    Netutils.OnlyDifference(Ttl(p), Ttl(p) - 1, w, w - 1, p[CSUM]);
    Netutils.IncreOnSums(Sum(a), w, w - 1);
  }
}
