/** The one's-complement checksum of `pywind/clib/netutils.c`: the full computation over a
    buffer, and the incremental update that the NAT, the router and the TTL code rely on. */
module Netutils {
  import opened Bytes

  const TWO_TO_THE_64: int := 0x1_0000_0000_0000_0000

  // ---------- the buffer as the C code sees it ----------

  /** The 16-bit load of a little-endian host. */
  function Load(b: seq<Byte>, i: nat): Word
    requires i + 1 < |b|
  {
    var low: int, high: int := b[i], b[i + 1];
    low + 0x100 * high
  }

  function Store(b: seq<Byte>, i: nat, w: Word): (r: seq<Byte>)
    requires i + 1 < |b|
    ensures |r| == |b| && Load(r, i) == w
  {
    b[i := w % 0x100][i + 1 := w / 0x100]
  }

  /** Sum of the 16-bit words of the buffer; an odd last byte counts as itself. */
  ghost function WordSum(b: seq<Byte>): nat {
    if b == [] then 0
    else if |b| == 1 then b[0]
    else Load(b, 0) + WordSum(b[2..])
  }

  /** The one's-complement residue that repeated folding of a sum arrives at. */
  ghost function Fold(s: nat): Word {
    if s == 0 then 0 else (s - 1) % 0xffff + 1
  }

  /** The checksum of a buffer. */
  ghost function Csum(b: seq<Byte>): Word {
    0xffff - Fold(WordSum(b))
  }

  lemma {:induction false} WordSumAppend(b: seq<Byte>, i: nat)
    requires i % 2 == 0 && i <= |b|
    ensures WordSum(b) == WordSum(b[..i]) + WordSum(b[i..])
  {
    if i == 0 {
      assert b[0..] == b;
    } else {
      WordSumAppend(b[2..], i - 2);
      assert b[..i][2..] == b[2..][..i - 2];
      assert b[2..][i - 2..] == b[i..];
    }
  }

  lemma FoldStep(s: nat)
    requires s >= 0x1_0000
    ensures Fold(s % 0x1_0000 + s / 0x1_0000) == Fold(s)
    ensures s % 0x1_0000 + s / 0x1_0000 < s
  {
    var q, r := s / 0x1_0000, s % 0x1_0000;
    assert s - 1 == 0xffff * q + (q + r - 1);
    ModShift(q + r - 1, q);
  }

  lemma ModShift(x: nat, q: nat)
    ensures (0xffff * q + x) % 0xffff == x % 0xffff
  {
  }

  /** `csum_calc`: accumulate words, add the odd byte, fold until 16 bits are left. */
  method CsumCalc(buffer: seq<Byte>) returns (r: Word)
    ensures r == Csum(buffer)
  {
    var sum: nat := 0;
    var at: nat := 0;
    var size: nat := |buffer|;
    while size > 1
      invariant at + size == |buffer|
      invariant sum + WordSum(buffer[at..]) == WordSum(buffer)
    {
      assert buffer[at..][2..] == buffer[at + 2..];
      sum := sum + Load(buffer, at);
      at := at + 2;
      size := size - 2;
    }
    if size != 0 {
      sum := sum + buffer[at];
    }
    while sum >= 0x1_0000
      invariant Fold(sum) == Fold(WordSum(buffer))
      decreases sum
    {
      FoldStep(sum);
      sum := sum % 0x1_0000 + sum / 0x1_0000;
    }
    r := 0xffff - sum;
  }

  /** Folding keeps the residue modulo 0xffff, and gives 0 for 0 only. */
  lemma FoldIs(s: nat)
    ensures Fold(s) % 0xffff == s % 0xffff && (Fold(s) == 0 <==> s == 0)
  {
    if s > 0 {
      var q := (s - 1) / 0xffff;
      assert s == 0xffff * q + Fold(s);
      ModShift(Fold(s), q);
    }
  }

  /** RFC 1071: a buffer that carries its checksum, at whatever aligned place, sums to 0xffff. */
  lemma Verifies(b: seq<Byte>, i: nat)
    requires i % 2 == 0 && i + 1 < |b|
    ensures Fold(WordSum(Store(b, i, Csum(Store(b, i, 0))))) == 0xffff
  {
    hide Fold;
    var blank := Store(b, i, 0);
    var s := WordSum(blank);
    WordSumStore(b, i, 0);
    WordSumStore(b, i, Csum(blank));
    FoldComplement(s);
  }

  lemma FoldComplement(s: nat)
    ensures Fold(s + (0xffff - Fold(s))) == 0xffff
  {
    if s > 0 {
      var q := (s - 1) / 0xffff;
      assert s + (0xffff - Fold(s)) - 1 == 0xffff * q + 0xfffe;
      ModShift(0xfffe, q);
    }
  }

  /** An odd last byte counts as if a zero byte followed. */
  lemma {:induction false} OddByte(b: seq<Byte>)
    requires |b| % 2 == 1
    ensures Csum(b) == Csum(b + [0])
  {
    OddSum(b);
  }

  lemma {:induction false} OddSum(b: seq<Byte>)
    requires |b| % 2 == 1
    ensures WordSum(b) == WordSum(b + [0])
  {
    if |b| == 1 {
      assert (b + [0])[2..] == [];
    } else {
      OddSum(b[2..]);
      assert (b + [0])[2..] == b[2..] + [0];
    }
  }

  /** A 64-bit accumulator never wraps on a buffer below 2^49 bytes. */
  lemma {:induction false} WordSumFits(b: seq<Byte>)
    ensures 2 * WordSum(b) <= 0xffff * (|b| + 1)
    ensures |b| < 0x2_0000_0000_0000 ==> WordSum(b) < TWO_TO_THE_64
  {
    if |b| > 1 {
      WordSumFits(b[2..]);
    }
  }

  // ---------- the incremental form ----------

  /** Conversion of a C int to the 64-bit `unsigned long`. */
  function ToU64(x: int): (r: nat)
    ensures r < TWO_TO_THE_64
  {
    x % TWO_TO_THE_64
  }

  /** The two folding statements. Neither sum can pass 2^64 again: the first is below 2^49. */
  function FoldTwice(csum: nat): Word {
    var folded := csum / 0x1_0000 + csum % 0x1_0000;
    (folded + folded / 0x1_0000) % 0x1_0000
  }

  /** `csum_calc_incre`: the difference is an int that may be negative, so the unsigned
      accumulator starts near 2^64 and both folding steps see its high bits. */
  function CsumIncre(oldField: Word, newField: Word, oldCsum: Word): Word {
    FoldTwice(ToU64(oldCsum - (0xffff - oldField) - newField))
  }

  lemma FoldTwiceOf(csum: nat, high: nat, low: Word, carry: nat, rest: Word)
    requires csum == 0x1_0000 * high + low
    requires high + low == 0x1_0000 * carry + rest
    ensures FoldTwice(csum) == (rest + carry) % 0x1_0000
  {
    Halves(csum, high, low);
    Halves(high + low, carry, rest);
    assert high + low + carry == 0x1_0000 * carry + (rest + carry);
    ModWord(rest + carry, carry);
  }

  lemma Halves(x: nat, high: nat, low: nat)
    requires x == 0x1_0000 * high + low && low < 0x1_0000
    ensures x / 0x1_0000 == high && x % 0x1_0000 == low
  {
  }

  lemma ModWord(x: nat, q: nat)
    ensures (0x1_0000 * q + x) % 0x1_0000 == x % 0x1_0000
  {
  }

  /** What the wrapped arithmetic comes down to. */
  lemma IncreResidue(oldField: Word, newField: Word, oldCsum: Word)
    ensures var v := oldCsum - (0xffff - oldField) - newField;
            CsumIncre(oldField, newField, oldCsum) ==
              if v >= 0 then v else if v >= -0xffff then v + 0xffff else v + 0x1_fffe
  {
    var v: int := oldCsum - (0xffff - oldField) - newField;
    var csum := ToU64(v);
    if v >= 0 {
      FoldTwiceOf(csum, 0, v, 0, v);
    } else {
      WrapsOnce(v);
      if v >= -0xffff {
        FoldTwiceOf(csum, 0xffff_ffff_ffff, v + 0x1_0000, 0x1_0000_0000, v + 0xffff);
      } else if v == -0x1_0000 {
        FoldTwiceOf(csum, 0xffff_ffff_ffff, 0, 0xffff_ffff, 0xffff);
      } else {
        FoldTwiceOf(csum, 0xffff_ffff_fffe, v + 0x2_0000, 0x1_0000_0000, v + 0x1_fffe);
      }
    }
  }

  lemma WrapsOnce(v: int)
    requires -TWO_TO_THE_64 <= v < 0
    ensures ToU64(v) == v + TWO_TO_THE_64
  {
  }

  /** The sum of a buffer moves by exactly the change of the word. */
  lemma {:induction false} WordSumStore(b: seq<Byte>, i: nat, w: Word)
    requires i % 2 == 0 && i + 1 < |b|
    ensures WordSum(Store(b, i, w)) == WordSum(b) - Load(b, i) + w
    ensures WordSum(b) >= Load(b, i)
  {
    var c := Store(b, i, w);
    if i > 0 {
      WordSumStore(b[2..], i - 2, w);
      assert c[2..] == Store(b[2..], i - 2, w);
      assert Load(c, 0) == Load(b, 0);
    } else {
      assert c[2..] == b[2..];
    }
  }

  /** On sums: the incremental update of the checksum of `s` is the checksum of the new sum
      exactly when the new sum is not zero; for a zero sum it yields 0 instead of 0xffff. */
  lemma IncreOnSums(s: nat, oldField: Word, newField: Word)
    requires s >= oldField
    ensures var t := s - oldField + newField;
            var r := CsumIncre(oldField, newField, 0xffff - Fold(s));
            (r == 0xffff - Fold(t) <==> t != 0) && (t == 0 ==> r == 0)
  {
    hide CsumIncre;
    var f: int := Fold(s);
    var t := s - oldField + newField;
    IncreResidue(oldField, newField, 0xffff - f);
    var r: int := CsumIncre(oldField, newField, 0xffff - f);
    if t != 0 {
      var q := if s == 0 then 0 else (s - 1) / 0xffff;
      assert s == 0xffff * q + f;
      assert exists m: int :: t - 1 == 0xffff * m + (0xfffe - r) by {
        var v := oldField - newField - f;
        assert t == 0xffff * q - v;
        if v >= 0 {
          assert t - 1 == 0xffff * (q - 1) + (0xfffe - r);
        } else if v >= -0xffff {
          assert t - 1 == 0xffff * q + (0xfffe - r);
        } else {
          assert t - 1 == 0xffff * (q + 1) + (0xfffe - r);
        }
      }
      var m: int :| t - 1 == 0xffff * m + (0xfffe - r);
      assert 0 <= 0xfffe - r < 0xffff;
      ModUnique(t - 1, m, 0xfffe - r);
    }
  }

  lemma ModUnique(x: int, q: int, r: int)
    requires x == 0xffff * q + r && 0 <= r < 0xffff
    ensures x % 0xffff == r
  {
  }

  /** Main theorem: on any buffer and any aligned word of it, the incremental checksum equals
      the checksum of the changed buffer bit for bit if and only if the changed buffer does
      not sum to zero. */
  lemma IncreExact(b: seq<Byte>, i: nat, w: Word)
    requires i % 2 == 0 && i + 1 < |b|
    ensures CsumIncre(Load(b, i), w, Csum(b)) == Csum(Store(b, i, w)) <==> WordSum(Store(b, i, w)) != 0
  {
    WordSumStore(b, i, w);
    IncreOnSums(WordSum(b), Load(b, i), w);
  }

  /** The failing family is not empty. */
  lemma IncreZeroCounterexample()
    ensures Csum([1, 0]) == 0xfffe
    ensures CsumIncre(1, 0, 0xfffe) == 0 && Csum([0, 0]) == 0xffff
  {
    assert WordSum([1, 0]) == 1 by { assert [1, 0][2..] == []; }
    assert WordSum([0, 0]) == 0 by { assert [0, 0][2..] == []; }
    IncreResidue(1, 0, 0xfffe);
  }

  // ---------- byte order ----------

  /** The update sees only the change of the field. */
  lemma OnlyDifference(old1: Word, new1: Word, old2: Word, new2: Word, csum: Word)
    requires old1 as int - new1 == old2 as int - new2
    ensures CsumIncre(old1, new1, csum) == CsumIncre(old2, new2, csum)
  {
    IncreResidue(old1, new1, csum);
    IncreResidue(old2, new2, csum);
  }

  /** How often 0xffff is added to bring the plain difference into the range of a word. */
  ghost function Wraps(oldField: Word, newField: Word, oldCsum: Word): int {
    var v: int := oldCsum as int - (0xffff - oldField) - newField;
    if v >= 0 then -1 else if v >= -0xffff then 0 else 1
  }

  /** The update is addition modulo 0xffff. */
  lemma IncreCongruent(oldField: Word, newField: Word, oldCsum: Word)
    ensures CsumIncre(oldField, newField, oldCsum) as int
         == oldCsum as int + oldField - newField + 0xffff * Wraps(oldField, newField, oldCsum)
    ensures CsumIncre(oldField, newField, oldCsum) == 0xffff <==> oldCsum == oldField == 0xffff && newField == 0
  {
    IncreResidue(oldField, newField, oldCsum);
  }

  /** Swapping the bytes of a word multiplies it by 256, modulo 0xffff. */
  lemma SwapCongruent(w: Word)
    ensures Swap(w) as int == 0x100 * w - 0xffff * (w / 0x100)
    ensures Swap(w) == 0xffff <==> w == 0xffff
    ensures Swap(w) == 0 <==> w == 0
    ensures Swap(Swap(w)) == w
  {
  }

  lemma SameResidue(x: int, y: int, k: int)
    requires x == y + 0xffff * k && 0 <= x < 0xffff && 0 <= y < 0xffff
    ensures x == y
  {
  }

  /** Computing on byte-swapped words and swapping the result back changes nothing. */
  lemma ByteOrderFree(oldField: Word, newField: Word, csum: Word)
    ensures Swap(CsumIncre(Swap(oldField), Swap(newField), Swap(csum))) == CsumIncre(oldField, newField, csum)
  {
    var o, n, c := Swap(oldField), Swap(newField), Swap(csum);
    var r, t := CsumIncre(oldField, newField, csum), CsumIncre(o, n, c);
    IncreCongruent(oldField, newField, csum);
    IncreCongruent(o, n, c);
    SwapCongruent(oldField);
    SwapCongruent(newField);
    SwapCongruent(csum);
    SwapCongruent(r);
    var ko, kn, kc, kr: int := oldField / 0x100, newField / 0x100, csum / 0x100, r / 0x100;
    var k: int := Wraps(o, n, c) - kc - ko + kn - 0x100 * Wraps(oldField, newField, csum) + kr;
    assert t as int == Swap(r) as int + 0xffff * k;
    if r != 0xffff {
      SameResidue(t, Swap(r), k);
    }
  }

  // ---------- the MSS clamp ----------

  /** The value of a TCP option, which is in network order and may begin anywhere. */
  function Field(b: seq<Byte>, i: nat): Word
    requires i + 1 < |b|
  {
    var high: int, low: int := b[i], b[i + 1];
    0x100 * high + low
  }

  function SetField(b: seq<Byte>, i: nat, w: Word): (r: seq<Byte>)
    requires i + 1 < |b|
    ensures |r| == |b| && Field(r, i) == w
  {
    b[i := w / 0x100][i + 1 := w % 0x100]
  }

  /** Where the value begins at an odd offset its high byte is the high byte of one word and its low
      byte the low byte of the next, so the sum moves by the plain difference. */
  lemma {:induction false} SumOddField(b: seq<Byte>, i: nat, w: Word)
    requires i % 2 == 1 && i + 1 < |b|
    ensures WordSum(b) >= Field(b, i) && WordSum(SetField(b, i, w)) == WordSum(b) - Field(b, i) + w
  {
    var c := SetField(b, i, w);
    if i > 1 {
      SumOddField(b[2..], i - 2, w);
      assert c[2..] == SetField(b[2..], i - 2, w);
      assert Load(c, 0) == Load(b, 0);
    } else {
      assert b[2..] != [] && c[2..] != [] && c[2..][1..] == b[2..][1..];
      FirstByte(b[2..]);
      FirstByte(c[2..]);
    }
  }

  /** The first byte counts as itself. */
  lemma FirstByte(b: seq<Byte>)
    requires b != []
    ensures WordSum(b) == b[0] + WordSum([0] + b[1..])
  {
    var c: seq<Byte> := [0] + b[1..];
    if |b| > 1 {
      assert c[2..] == b[2..];
    }
  }

  lemma SumEvenField(b: seq<Byte>, i: nat, w: Word)
    requires i % 2 == 0 && i + 1 < |b|
    ensures WordSum(b) >= Swap(Field(b, i))
    ensures WordSum(SetField(b, i, w)) == WordSum(b) - Swap(Field(b, i)) + Swap(w)
  {
    hide WordSum, Swap;
    SwapBytes(w);
    assert SetField(b, i, w) == Store(b, i, Swap(w));
    FieldIsSwapped(b, i);
    WordSumStore(b, i, Swap(w));
  }

  lemma SwapBytes(w: Word)
    ensures Swap(w) % 0x100 == w / 0x100 && Swap(w) / 0x100 == w % 0x100
  {
  }

  lemma FieldIsSwapped(b: seq<Byte>, i: nat)
    requires i + 1 < |b|
    ensures Load(b, i) == Swap(Field(b, i))
  {
    var w := Field(b, i);
    assert w / 0x100 == b[i] && w % 0x100 == b[i + 1];
  }

  /** What the clamp writes for the checksum of a segment whose words and pseudo header sum to `s`: it
      patches in host order, as if the option value began on a word boundary. */
  ghost function Clamped(s: nat, oldMss: Word, newMss: Word): Word {
    Swap(CsumIncre(oldMss, newMss, Swap(0xffff - Fold(s))))
  }

  /** Where the value does begin on a word boundary the patch is exact for every non-zero sum. `rest` is
      the sum of the pseudo header; the checksum field of the segment `b` is zero. */
  lemma MssPatchAligned(b: seq<Byte>, i: nat, newMss: Word, rest: nat)
    requires i % 2 == 0 && i + 1 < |b|
    ensures var t := rest + WordSum(SetField(b, i, newMss));
      Clamped(rest + WordSum(b), Field(b, i), newMss) == 0xffff - Fold(t) <==> t != 0
  {
    hide Clamped, Fold, Field, SetField, WordSum, Swap;
    SumEvenField(b, i, newMss);
    ClampedEven(rest + WordSum(b), Field(b, i), newMss);
  }

  lemma ClampedEven(s: nat, oldMss: Word, newMss: Word)
    requires s >= Swap(oldMss)
    ensures var t := s - Swap(oldMss) + Swap(newMss); Clamped(s, oldMss, newMss) == 0xffff - Fold(t) <==> t != 0
  {
    hide CsumIncre, Fold;
    SwapCongruent(oldMss);
    SwapCongruent(newMss);
    ByteOrderFree(Swap(oldMss), Swap(newMss), 0xffff - Fold(s));
    IncreOnSums(s, Swap(oldMss), Swap(newMss));
  }

  /** Where it begins at an odd offset the patch is exact if and only if the change is a multiple of 257. */
  lemma MssPatchOdd(b: seq<Byte>, i: nat, newMss: Word, rest: nat)
    requires i % 2 == 1 && i + 1 < |b| && rest > 0
    ensures var t := rest + WordSum(SetField(b, i, newMss));
      Clamped(rest + WordSum(b), Field(b, i), newMss) == 0xffff - Fold(t) <==> (Field(b, i) as int - newMss) % 257 == 0
  {
    hide Clamped, Fold, Field, SetField, WordSum;
    SumOddField(b, i, newMss);
    ClampedOdd(rest + WordSum(b), Field(b, i), newMss);
  }

  lemma ClampedOdd(s: nat, oldMss: Word, newMss: Word)
    requires s > oldMss
    ensures Clamped(s, oldMss, newMss) == 0xffff - Fold(s - oldMss + newMss) <==> (oldMss as int - newMss) % 257 == 0
  {
    hide CsumIncre, Fold, Swap, Wraps;
    var csum: Word := 0xffff - Fold(s);
    var o, n := Swap(oldMss), Swap(newMss);
    SwapCongruent(oldMss);
    SwapCongruent(newMss);
    ByteOrderFree(o, n, csum);
    // r is what the clamp writes, e what a recomputation gives
    var r, e := CsumIncre(o, n, csum), CsumIncre(oldMss, newMss, csum);
    IncreOnSums(s, oldMss, newMss);
    FoldPositive(s);
    IncreCongruent(o, n, csum);
    IncreCongruent(oldMss, newMss, csum);
    var d: int := oldMss as int - newMss;
    var ko, kn: int := oldMss / 0x100, newMss / 0x100;
    var k: int := Wraps(o, n, csum) - Wraps(oldMss, newMss, csum) - ko + kn;
    assert r as int - e == 255 * d + 0xffff * k;
    MultipleOf257(r, e, d, k);
  }

  /** An MSS of 1460 behind a single padding byte, clamped to 1400. */
  lemma MssOddCounterexample()
    ensures var b: seq<Byte> := [1, 2, 4, 5, 0xb4, 0];
      Field(b, 3) == 1460 && Clamped(6 + WordSum(b), 1460, 1400) != 0xffff - Fold(6 + WordSum(SetField(b, 3, 1400)))
  {
    MssPatchOdd([1, 2, 4, 5, 0xb4, 0], 3, 1400, 6);
  }

  lemma FoldPositive(s: nat)
    ensures Fold(s) == 0 <==> s == 0
  {
  }

  lemma MultipleOf257(r: Word, e: Word, d: int, k: int)
    requires r as int - e == 255 * d + 0xffff * k && r < 0xffff && e < 0xffff
    ensures r == e <==> d % 257 == 0
  {
    if r == e {
      assert d == 257 * -k;
    }
    if d % 257 == 0 {
      var q := d / 257;
      assert d == 257 * q;
      SameResidue(r, e, k + q);
    }
  }
}
