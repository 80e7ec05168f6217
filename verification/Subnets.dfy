/** Masks and subnets of `pywind/clib/netutils.c`. Addresses are bytes in network order; the wide
    AND instructions the code uses are taken byte by byte. */
module Subnets {
  import opened Bytes

  /** Bit k of a number, the least significant one first. */
  function LowBit(b: nat, k: nat): bool {
    if k == 0 then b % 2 == 1 else LowBit(b / 2, k - 1)
  }

  /** `&` on the low w bits. */
  function AndLow(a: nat, b: nat, w: nat): (r: nat)
    ensures r <= a
  {
    if w == 0 then 0 else (if a % 2 == 1 && b % 2 == 1 then 1 else 0) + 2 * AndLow(a / 2, b / 2, w - 1)
  }

  function And(a: Byte, b: Byte): Byte {
    AndLow(a, b, 8)
  }

  /** Bit j of a byte, the most significant one first. */
  function Bit(b: Byte, j: nat): bool
    requires j < 8
  {
    LowBit(b, 7 - j)
  }

  lemma {:induction false} LowBitOfAnd(a: nat, b: nat, w: nat, k: nat)
    requires k < w
    ensures LowBit(AndLow(a, b, w), k) <==> LowBit(a, k) && LowBit(b, k)
  {
    var r := AndLow(a, b, w);
    assert r / 2 == AndLow(a / 2, b / 2, w - 1);
    if k > 0 {
      LowBitOfAnd(a / 2, b / 2, w - 1, k - 1);
    }
  }

  /** Numbers with the same eight bits are the same byte. */
  lemma {:induction false} SameBits(a: nat, b: nat, w: nat)
    requires forall k: nat | k < w :: LowBit(a, k) == LowBit(b, k)
    requires a < Power(w) && b < Power(w)
    ensures a == b
  {
    if w > 0 {
      assert LowBit(a, 0) == LowBit(b, 0);
      forall k: nat | k < w - 1
        ensures LowBit(a / 2, k) == LowBit(b / 2, k)
      {
        assert LowBit(a, k + 1) == LowBit(b, k + 1);
      }
      SameBits(a / 2, b / 2, w - 1);
    }
  }

  function Power(w: nat): nat {
    if w == 0 then 1 else 2 * Power(w - 1)
  }

  lemma SameByte(a: Byte, b: Byte)
    requires forall j: nat | j < 8 :: Bit(a, j) == Bit(b, j)
    ensures a == b
  {
    forall k: nat | k < 8
      ensures LowBit(a, k) == LowBit(b, k)
    {
      assert Bit(a, 7 - k) == Bit(b, 7 - k);
    }
    assert Power(8) == 0x100 by {
      assert Power(4) == 16;
    }
    SameBits(a, b, 8);
  }

  /** The table of `msk_calc`: a byte whose first n bits are set. */
  function HighBits(n: nat): Byte
    requires n <= 8
  {
    [0, 128, 192, 224, 240, 248, 252, 254, 255][n]
  }

  lemma {:induction false} BitOfHighMask(w: nat, k: nat, i: nat)
    requires k <= w && i < w
    ensures Power(k) <= Power(w) && (LowBit(Power(w) - Power(k), i) <==> i >= k)
  {
    if i > 0 {
      BitOfHighMask(w - 1, if k == 0 then 0 else k - 1, i - 1);
    } else if w > 1 {
      BitOfHighMask(w - 1, if k == 0 then 0 else k - 1, 0);
    }
  }

  lemma Powers()
    ensures Power(0) == 1 && Power(1) == 2 && Power(2) == 4 && Power(3) == 8 && Power(4) == 16
    ensures Power(5) == 32 && Power(6) == 64 && Power(7) == 128 && Power(8) == 256
  {
    assert Power(4) == 16;
  }

  lemma BitOfHighBits(n: nat, j: nat)
    requires n <= 8 && j < 8
    ensures Bit(HighBits(n), j) <==> j < n
  {
    Powers();
    assert HighBits(n) == Power(8) - Power(8 - n);
    BitOfHighMask(8, 8 - n, 7 - j);
  }

  /** As a number the byte is 256 less the power of two of the bits that are not set. */
  lemma TableIs(n: nat)
    requires n <= 8
    ensures HighBits(n) == Power(8) - Power(8 - n) && Power(8) == 256
  {
    Powers();
  }

  // ---------- addresses ----------

  type Address = seq<Byte>

  function BitAt(a: Address, i: nat): bool
    requires i < 8 * |a|
  {
    Bit(a[i / 8], i % 8)
  }

  lemma {:induction false} ZeroBits(k: nat)
    ensures !LowBit(0, k)
  {
    if k > 0 {
      ZeroBits(k - 1);
    }
  }

  /** `subnet_calc_with_msk`. */
  function Masked(address: Address, msk: Address): (r: Address)
    requires |msk| == |address|
    ensures |r| == |address|
    ensures forall i | 0 <= i < |r| :: r[i] == And(address[i], msk[i])
  {
    seq(|address|, i requires 0 <= i < |address| => And(address[i], msk[i]))
  }

  /** The mask of a prefix length: exactly its first bits are set. */
  ghost predicate IsMask(msk: Address, prefix: nat) {
    forall i: nat | i < 8 * |msk| :: BitAt(msk, i) <==> i < prefix
  }

  /** `msk_calc`; `res` is as long as an address of the family. */
  method MskCalc(prefix: Byte, res: array<Byte>) returns (rs: int)
    modifies res
    ensures rs == (if prefix > 8 * res.Length then -1 else 0)
    ensures if rs == 0 then IsMask(res[..], prefix) else res[..] == old(res[..])
  {
    if prefix > 8 * res.Length { return -1; }
    var a, b := prefix / 8, prefix % 8;
    forall i | 0 <= i < res.Length {
      res[i] := 0;
    }
    for n := 0 to a
      invariant forall i | 0 <= i < res.Length :: res[i] == if i < n then HighBits(8) else HighBits(0)
    {
      res[n] := 0xff;
    }
    if b != 0 {
      res[a] := HighBits(b);
    }
    forall i: nat | i < 8 * res.Length
      ensures BitAt(res[..], i) <==> i < prefix
    {
      BitOfHighBits(if i / 8 < a then 8 else if i / 8 == a then b else 0, i % 8);
    }
    return 0;
  }

  lemma BitOfMasked(address: Address, msk: Address, prefix: nat, i: nat)
    requires |msk| == |address| && IsMask(msk, prefix) && i < 8 * |address|
    ensures BitAt(Masked(address, msk), i) <==> BitAt(address, i) && i < prefix
  {
    LowBitOfAnd(address[i / 8], msk[i / 8], 8, 7 - i % 8);
    assert BitAt(msk, i) <==> i < prefix;
  }

  lemma SameAddress(a: Address, b: Address)
    requires |a| == |b| && forall i: nat | i < 8 * |a| :: BitAt(a, i) == BitAt(b, i)
    ensures a == b
  {
    forall k | 0 <= k < |a|
      ensures a[k] == b[k]
    {
      forall j: nat | j < 8
        ensures Bit(a[k], j) == Bit(b[k], j)
      {
        assert BitAt(a, 8 * k + j) == BitAt(b, 8 * k + j);
      }
      SameByte(a[k], b[k]);
    }
  }

  /** The subnet contains the address: the first bits agree. */
  ghost predicate Contains(subnet: Address, prefix: nat, address: Address) {
    |subnet| == |address| && forall i: nat | i < prefix && i < 8 * |address| :: BitAt(subnet, i) == BitAt(address, i)
  }

  /** No bit behind the prefix is set. */
  ghost predicate Normal(subnet: Address, prefix: nat) {
    forall i: nat | prefix <= i < 8 * |subnet| :: !BitAt(subnet, i)
  }

  /** What the lookup compares: the masked address is the stored subnet exactly when the subnet
      contains the address and has no host bits. */
  lemma MaskedIsSubnet(subnet: Address, prefix: nat, address: Address, msk: Address)
    requires |msk| == |address| == |subnet| && IsMask(msk, prefix)
    ensures Masked(address, msk) == subnet <==> Contains(subnet, prefix, address) && Normal(subnet, prefix)
  {
    forall i: nat | i < 8 * |address|
      ensures BitAt(Masked(address, msk), i) <==> BitAt(address, i) && i < prefix
    {
      BitOfMasked(address, msk, prefix, i);
    }
    if Contains(subnet, prefix, address) && Normal(subnet, prefix) {
      SameAddress(Masked(address, msk), subnet);
    }
  }

  // ---------- as numbers ----------

  /** The address as one number, the first byte the most significant. */
  function Number(a: Address): nat {
    if a == [] then 0 else 0x100 * Number(a[..|a| - 1]) + a[|a| - 1]
  }

  /** A number without its low m bits, and these bits. */
  function High(x: nat, m: nat): nat {
    if m == 0 then x else High(x / 2, m - 1)
  }

  function Low(x: nat, m: nat): nat {
    if m == 0 then 0 else 2 * Low(x / 2, m - 1) + x % 2
  }

  lemma {:induction false} BitOfHigh(x: nat, m: nat, k: nat)
    ensures LowBit(High(x, m), k) == LowBit(x, k + m)
  {
    if m > 0 {
      BitOfHigh(x / 2, m - 1, k);
    }
  }

  lemma {:induction false} BitOfLow(x: nat, m: nat, k: nat)
    ensures LowBit(Low(x, m), k) == (k < m && LowBit(x, k))
    decreases m
  {
    if m == 0 {
      ZeroBits(k);
    } else if k > 0 {
      assert Low(x, m) / 2 == Low(x / 2, m - 1);
      BitOfLow(x / 2, m - 1, k - 1);
    }
  }

  lemma {:induction false} Splits(x: nat, m: nat)
    ensures x == Power(m) * High(x, m) + Low(x, m) && Low(x, m) < Power(m)
  {
    if m > 0 {
      Splits(x / 2, m - 1);
      Doubles(Power(m - 1), High(x / 2, m - 1));
    }
  }

  lemma Doubles(p: nat, h: nat)
    ensures (2 * p) * h == 2 * (p * h)
  {
  }

  lemma Times(p: nat, a: int, b: int)
    requires a <= b
    ensures p * a <= p * b
  {
  }

  lemma Divides(x: nat, p: nat, q: nat, r: nat)
    requires r < p && x == p * q + r
    ensures x % p == r
  {
    var d := q - x / p;
    assert x == p * (x / p) + x % p;
    assert p * d == x % p - r;
    if d >= 1 {
      Times(p, 1, d);
    } else if d <= -1 {
      Times(p, d, -1);
    }
  }

  lemma {:induction false} HighBound(x: nat, m: nat, n: nat)
    requires x < Power(m + n)
    ensures High(x, m) < Power(n)
  {
    if m > 0 {
      HighBound(x / 2, m - 1, n);
    }
  }

  lemma {:induction false} BitOfSum(high: nat, low: nat, w: nat, k: nat)
    requires low < Power(w)
    ensures LowBit(Power(w) * high + low, k) == if k < w then LowBit(low, k) else LowBit(high, k - w)
    decreases w
  {
    if w > 0 {
      var p := Power(w - 1);
      var x := Power(w) * high + low;
      assert x == 2 * (p * high) + low && x / 2 == p * high + low / 2 && x % 2 == low % 2;
      if k > 0 {
        BitOfSum(high, low / 2, w - 1, k - 1);
      }
    }
  }

  /** The bits of an address are those of its number. */
  lemma {:induction false} BitOfNumber(a: Address, k: nat)
    ensures LowBit(Number(a), k) == (k < 8 * |a| && BitAt(a, 8 * |a| - 1 - k))
  {
    if a == [] {
      ZeroBits(k);
    } else {
      var n := |a| - 1;
      Powers();
      BitOfSum(Number(a[..n]), a[n], 8, k);
      if k < 8 {
        assert (8 * n + 7 - k) / 8 == n && (8 * n + 7 - k) % 8 == 7 - k;
      } else {
        BitOfNumber(a[..n], k - 8);
        if k < 8 * |a| {
          var i := 8 * n - 1 - (k - 8);
          assert i == 8 * |a| - 1 - k && i / 8 < n && a[..n][i / 8] == a[i / 8];
        }
      }
    }
  }

  lemma {:induction false} NumberBound(a: Address)
    ensures Number(a) < Power(8 * |a|)
  {
    if a != [] {
      NumberBound(a[..|a| - 1]);
      EightMore(8 * |a| - 8);
    }
  }

  lemma EightMore(w: nat)
    ensures Power(w + 8) == 0x100 * Power(w)
  {
    assert Power(w + 1) == 2 * Power(w) && Power(w + 2) == 2 * Power(w + 1) && Power(w + 3) == 2 * Power(w + 2);
    assert Power(w + 4) == 2 * Power(w + 3) && Power(w + 5) == 2 * Power(w + 4) && Power(w + 6) == 2 * Power(w + 5);
    assert Power(w + 7) == 2 * Power(w + 6) && Power(w + 8) == 2 * Power(w + 7);
  }

  /** A subnet contains an address when the two agree above the host bits. */
  lemma ContainsIsHigh(subnet: Address, prefix: nat, address: Address)
    requires |subnet| == |address| && prefix <= 8 * |address|
    ensures var h := 8 * |address| - prefix;
      Contains(subnet, prefix, address) <==> High(Number(subnet), h) == High(Number(address), h)
  {
    var h := 8 * |address| - prefix;
    var s, a := High(Number(subnet), h), High(Number(address), h);
    forall i: nat | i < prefix
      ensures LowBit(s, prefix - 1 - i) == BitAt(subnet, i) && LowBit(a, prefix - 1 - i) == BitAt(address, i)
    {
      BitOfHigh(Number(subnet), h, prefix - 1 - i);
      BitOfHigh(Number(address), h, prefix - 1 - i);
      BitOfNumber(subnet, prefix - 1 - i + h);
      BitOfNumber(address, prefix - 1 - i + h);
    }
    if Contains(subnet, prefix, address) {
      forall k: nat | k < prefix
        ensures LowBit(s, k) == LowBit(a, k)
      {
        var i := prefix - 1 - k;
        assert BitAt(subnet, i) == BitAt(address, i) && k == prefix - 1 - i;
      }
      NumberBound(subnet);
      NumberBound(address);
      HighBound(Number(subnet), h, prefix);
      HighBound(Number(address), h, prefix);
      SameBits(s, a, prefix);
    }
  }

  /** A subnet has no host bits when they are zero in its number. */
  lemma NormalIsLow(subnet: Address, prefix: nat)
    requires prefix <= 8 * |subnet|
    ensures Normal(subnet, prefix) <==> Low(Number(subnet), 8 * |subnet| - prefix) == 0
  {
    var w := 8 * |subnet|;
    var h := w - prefix;
    var l := Low(Number(subnet), h);
    forall k: nat
      ensures LowBit(l, k) == (k < h && BitAt(subnet, w - 1 - k)) && !LowBit(0, k)
    {
      BitOfLow(Number(subnet), h, k);
      BitOfNumber(subnet, k);
      ZeroBits(k);
    }
    if Normal(subnet, prefix) {
      Splits(Number(subnet), h);
      SameBits(l, 0, h);
    } else {
      var i: nat :| prefix <= i < w && BitAt(subnet, i);
      assert LowBit(l, w - 1 - i);
    }
  }

  /** The addresses that match a stored subnet are one range of numbers: it begins at the subnet's own
      number, which is a multiple of its length, and its length is a power of two. */
  lemma MatchIsRange(subnet: Address, prefix: nat, address: Address, msk: Address)
    requires |msk| == |address| == |subnet| && IsMask(msk, prefix) && prefix <= 8 * |address|
    ensures var p := Power(8 * |address| - prefix);
      p > 0 && (Masked(address, msk) == subnet <==>
        Number(subnet) % p == 0 && Number(subnet) <= Number(address) < Number(subnet) + p)
  {
    hide *;
    MaskedIsSubnet(subnet, prefix, address, msk);
    RangeIs(subnet, prefix, address);
  }

  lemma RangeIs(subnet: Address, prefix: nat, address: Address)
    requires |subnet| == |address| && prefix <= 8 * |address|
    ensures var p := Power(8 * |address| - prefix);
      p > 0 && (Contains(subnet, prefix, address) && Normal(subnet, prefix) <==>
        Number(subnet) % p == 0 && Number(subnet) <= Number(address) < Number(subnet) + p)
  {
    hide *;
    ContainsIsHigh(subnet, prefix, address);
    NormalIsLow(subnet, prefix);
    InRange(Number(subnet), Number(address), 8 * |address| - prefix);
  }

  lemma InRange(s: nat, a: nat, h: nat)
    ensures Power(h) > 0
    ensures High(s, h) == High(a, h) && Low(s, h) == 0 <==> s % Power(h) == 0 && s <= a < s + Power(h)
  {
    Splits(s, h);
    Splits(a, h);
    Ranges(s, a, Power(h), High(s, h), High(a, h), Low(s, h), Low(a, h));
  }

  lemma Ranges(s: nat, a: nat, p: nat, s1: nat, a1: nat, s0: nat, a0: nat)
    requires s == p * s1 + s0 && a == p * a1 + a0 && s0 < p && a0 < p
    ensures s1 == a1 && s0 == 0 <==> s % p == 0 && s <= a < s + p
  {
    Divides(s, p, s1, s0);
    if s1 < a1 {
      Times(p, s1 + 1, a1);
    } else if a1 < s1 {
      Times(p, a1 + 1, s1);
    }
  }

  /** A subnet written with host bits does not even match itself: 10.0.0.1/8. */
  lemma HostBitsNeverMatch(msk: Address)
    requires |msk| == 4 && IsMask(msk, 8)
    ensures Contains([10, 0, 0, 1], 8, [10, 0, 0, 1]) && Masked([10, 0, 0, 1], msk) != [10, 0, 0, 1]
  {
    assert BitAt([10, 0, 0, 1], 31);
    MaskedIsSubnet([10, 0, 0, 1], 8, [10, 0, 0, 1], msk);
  }
}
