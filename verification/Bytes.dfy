/** Bytes, big-endian numbers and the number-to-buffer conversions of `@ganache/utils`. */
module Bytes {

  type Byte = b: int | 0 <= b < 256

  function Pow256(k: nat): nat {
    if k == 0 then 1 else 256 * Pow256(k - 1)
  }

  /** The number a big-endian buffer stands for. */
  function ToNat(bs: seq<Byte>): nat {
    if bs == [] then 0 else 256 * ToNat(bs[..|bs| - 1]) + bs[|bs| - 1]
  }

  /** The shortest big-endian buffer of `n`; empty for 0. */
  function BigEndian(n: nat): seq<Byte> {
    if n == 0 then [] else BigEndian(n / 256) + [n % 256]
  }

  predicate NoLeadingZero(bs: seq<Byte>) {
    bs == [] || bs[0] != 0
  }

  lemma {:induction false} BigEndianValue(n: nat)
    ensures ToNat(BigEndian(n)) == n
    ensures NoLeadingZero(BigEndian(n))
  {
    if n == 0 {
    } else {
      BigEndianValue(n / 256);
      var hi := BigEndian(n / 256);
      assert (hi + [n % 256])[..|hi|] == hi;
    }
  }

  lemma {:induction false} BigEndianUnique(bs: seq<Byte>)
    requires NoLeadingZero(bs)
    ensures BigEndian(ToNat(bs)) == bs
  {
    if bs == [] {
    } else {
      var hi, lo := bs[..|bs| - 1], bs[|bs| - 1];
      BigEndianUnique(hi);
      assert ToNat(bs) / 256 == ToNat(hi) && ToNat(bs) % 256 == lo;
      if hi == [] { assert lo != 0; }
      assert bs == hi + [lo];
    }
  }

  lemma {:induction false} BigEndianLength(n: nat, k: nat)
    ensures |BigEndian(n)| <= k <==> n < Pow256(k)
  {
    if n == 0 {
      PowPositive(k);
    } else if k == 0 {
    } else {
      BigEndianLength(n / 256, k - 1);
    }
  }

  lemma {:induction false} PowPositive(k: nat)
    ensures Pow256(k) > 0
  {
    if k > 0 { PowPositive(k - 1); }
  }

  lemma {:induction false} HighByte(bs: seq<Byte>)
    requires bs != []
    ensures ToNat(bs) == bs[0] * Pow256(|bs| - 1) + ToNat(bs[1..])
  {
    if |bs| == 1 {
      assert bs[..0] == [] && bs[1..] == [];
    } else {
      var front := bs[..|bs| - 1];
      HighByte(front);
      assert front[1..] == bs[1..][..|bs| - 2];
      var p := Pow256(|bs| - 2);
      assert bs[0] * (256 * p) == 256 * (bs[0] * p);
    }
  }

  lemma {:induction false} ToNatBound(bs: seq<Byte>)
    ensures ToNat(bs) < Pow256(|bs|)
  {
    if bs == [] {
    } else {
      ToNatBound(bs[..|bs| - 1]);
    }
  }

  const MAX_UINT32: int := 0xffff_ffff

  /** `uint32ToBuf`: one byte is peeled off for every shift that leaves something. */
  function Uint32ToBuf(num: nat): (buf: seq<Byte>)
    requires num <= MAX_UINT32
  {
    var second := num / 0x100;
    if second != 0 then
      var third := second / 0x100;
      if third != 0 then
        var top := third / 0x100;
        if top != 0 then [top % 256, third % 256, second % 256, num % 256]
        else [third % 256, second % 256, num % 256]
      else [second % 256, num % 256]
    else [num % 256]
  }

  /** `uintWideToBuf`: the high word decides the size, the low word always fills four bytes. */
  function UintWideToBuf(num: nat): (buf: seq<Byte>)
    requires MAX_UINT32 < num < 0x1_0000_0000_0000_0000
  {
    var hi := num / 0x1_0000_0000;
    var six := hi / 0x100;
    var five := six / 0x100;
    var top := five / 0x100;
    var high: seq<Byte> :=
      if six != 0 then
        if five != 0 then
          if top != 0 then [top % 256, five % 256, six % 256, hi % 256]
          else [five % 256, six % 256, hi % 256]
        else [six % 256, hi % 256]
      else [hi % 256];
    var lo := num % 0x1_0000_0000;
    var two := lo / 0x100;
    var one := two / 0x100;
    var low: seq<Byte> :=
      if two != 0 then
        if one != 0 then [(one / 0x100) % 256, one % 256, two % 256, lo % 256]
        else [0, 0, two % 256, lo % 256]
      else [0, 0, 0, lo % 256];
    high + low
  }

  /** `uintToBuffer`: JavaScript numbers below 2^64. */
  function UintToBuffer(num: nat): (buf: seq<Byte>)
    requires num < 0x1_0000_0000_0000_0000
    ensures num != 0 ==> buf == BigEndian(num)
    ensures num == 0 ==> buf == [0]
  {
    assert num != 0 ==> (if num > MAX_UINT32 then UintWideToBuf(num) else Uint32ToBuf(num)) == BigEndian(num) by {
      if num > MAX_UINT32 { WideIsBigEndian(num); } else if num != 0 { NarrowIsBigEndian(num); }
    }
    if num > MAX_UINT32 then UintWideToBuf(num) else Uint32ToBuf(num)
  }

  lemma {:induction false} NarrowIsBigEndian(num: nat)
    requires 0 < num <= MAX_UINT32
    ensures Uint32ToBuf(num) == BigEndian(num)
  {
    var a, b, c := num / 0x100, num / 0x100 / 0x100, num / 0x100 / 0x100 / 0x100;
    assert BigEndian(num) == BigEndian(a) + [num % 256];
    if a != 0 {
      assert BigEndian(a) == BigEndian(b) + [a % 256];
      if b != 0 {
        assert BigEndian(b) == BigEndian(c) + [b % 256];
        if c != 0 {
          assert c / 256 == 0;
          assert BigEndian(c) == BigEndian(c / 256) + [c % 256];
        }
      }
    }
  }

  /** The low word of a wide number occupy exactly the last four bytes. */
  lemma {:induction false} WideIsBigEndian(num: nat)
    requires MAX_UINT32 < num < 0x1_0000_0000_0000_0000
    ensures UintWideToBuf(num) == BigEndian(num)
  {
    var hi, lo := num / 0x1_0000_0000, num % 0x1_0000_0000;
    var l1 := lo / 256;
    var l2 := l1 / 256;
    var l3 := l2 / 256;
    NarrowIsBigEndian(hi);
    Peel(num, hi * 0x100_0000 + l1, lo % 256);
    Peel(hi * 0x100_0000 + l1, hi * 0x1_0000 + l2, l1 % 256);
    Peel(hi * 0x1_0000 + l2, hi * 0x100 + l3, l2 % 256);
    Peel(hi * 0x100 + l3, hi, l3);
    WideShape(num);
  }

  lemma Peel(n: nat, q: nat, r: Byte)
    requires n == 256 * q + r && n != 0
    ensures BigEndian(n) == BigEndian(q) + [r]
  {
    assert n / 256 == q && n % 256 == r;
  }

  lemma WideShape(num: nat)
    requires MAX_UINT32 < num < 0x1_0000_0000_0000_0000
    ensures var lo := num % 0x1_0000_0000;
            UintWideToBuf(num)
            == Uint32ToBuf(num / 0x1_0000_0000)
               + [lo / 256 / 256 / 256, lo / 256 / 256 % 256, lo / 256 % 256, lo % 256]
  {
    var lo := num % 0x1_0000_0000;
    assert lo / 256 / 256 / 256 < 256;
  }
}
