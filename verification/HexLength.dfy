/** How many hexadecimal digits a number has, computed from its binary logarithm. */
module HexLength {

  // ----- the plain definitions

  function Pow(b: nat, e: nat): nat {
    if e == 0 then 1 else b * Pow(b, e - 1)
  }

  /** Position of the highest set bit, which is 63 minus the number of leading zeros of a word. */
  function Log2(n: nat): nat
    requires n > 0
  {
    if n < 2 then 0 else 1 + Log2(n / 2)
  }

  lemma {:induction false} Log2Bounds(n: nat)
    requires n > 0
    ensures Pow(2, Log2(n)) <= n < Pow(2, Log2(n) + 1)
  {
    if n >= 2 {
      Log2Bounds(n / 2);
    }
  }

  /** producer::hexlen. */
  function HexLen(n: nat): nat {
    if n == 0 then 1 else 1 + Log2(n) / 4
  }

  function HexDigit(d: nat): (c: char)
    requires d < 16
    ensures '0' <= c <= '9' || 'a' <= c <= 'f'
  {
    if d < 10 then ('0' as int + d) as char else ('a' as int + d - 10) as char
  }

  /** What std::to_chars writes in base 16. */
  function Hex(n: nat): (digits: string)
    ensures digits != []
  {
    if n < 16 then [HexDigit(n)] else Hex(n / 16) + [HexDigit(n % 16)]
  }

  lemma Log2Of16(n: nat)
    requires n >= 16
    ensures Log2(n) == 4 + Log2(n / 16)
  {
    assert n / 2 / 2 / 2 / 2 == n / 16;
    assert Log2(n) == 1 + Log2(n / 2);
    assert Log2(n / 2) == 1 + Log2(n / 2 / 2);
    assert Log2(n / 2 / 2) == 1 + Log2(n / 2 / 2 / 2);
    assert Log2(n / 2 / 2 / 2) == 1 + Log2(n / 2 / 2 / 2 / 2);
  }

  lemma Log2Below16(n: nat)
    requires 0 < n < 16
    ensures Log2(n) < 4
  {
    assert n / 2 / 2 / 2 < 2;
    assert n >= 2 ==> Log2(n) == 1 + Log2(n / 2);
    assert n / 2 >= 2 ==> Log2(n / 2) == 1 + Log2(n / 2 / 2);
    assert n / 2 / 2 >= 2 ==> Log2(n / 2 / 2) == 1 + Log2(n / 2 / 2 / 2);
  }

  /** hexlen is exactly the number of digits that are written, without leading zeros. */
  lemma {:induction false} HexLenIsExact(n: nat)
    ensures |Hex(n)| == HexLen(n)
    ensures n > 0 ==> Pow(16, HexLen(n) - 1) <= n < Pow(16, HexLen(n))
  {
    hide Log2, HexDigit;
    if n >= 16 {
      HexLenIsExact(n / 16);
      Log2Of16(n);
      assert HexLen(n) == 1 + HexLen(n / 16);
      Times16(n, Pow(16, HexLen(n / 16) - 1), Pow(16, HexLen(n / 16)));
    } else if n > 0 {
      Log2Below16(n);
      assert Pow(16, 1) == 16 * Pow(16, 0) == 16;
    }
  }

  lemma Times16(n: nat, low: nat, high: nat)
    requires low <= n / 16 < high
    ensures 16 * low <= n < 16 * high
  {}

  // ----- the branch-free form

  function Half(n: bv64): bv64 {
    n >> 1
  }

  /** The number a machine word denotes. */
  function Val(n: bv64): nat {
    if n == 0 then 0
    else
      HalfIsSmaller(n);
      2 * Val(Half(n)) + (if n & 1 == 1 then 1 else 0)
  }

  lemma HalfIsSmaller(n: bv64)
    requires n != 0
    ensures Half(n) < n
  {}

  function Low(n: bv64): nat {
    if n & 1 == 1 then 1 else 0
  }

  function Next(n: bv64): bv64 {
    n + 1
  }

  lemma EvenNext(n: bv64)
    requires n & 1 == 0
    ensures (n + 1) >> 1 == n >> 1 && (n + 1) & 1 == 1
  {}

  lemma OddNext(n: bv64)
    requires n & 1 == 1 && n != 0xffffffffffffffff
    ensures (n + 1) >> 1 == (n >> 1) + 1 && (n + 1) & 1 == 0 && n >> 1 != 0xffffffffffffffff && n != 0
  {}

  lemma EvenOrOdd(n: bv64)
    ensures n & 1 == 0 || n & 1 == 1
  {}

  lemma NextHalves(n: bv64)
    requires n != 0xffffffffffffffff
    ensures Low(n) == 0 ==> Half(Next(n)) == Half(n) && Low(Next(n)) == 1
    ensures Low(n) == 1 ==> Half(Next(n)) == Next(Half(n)) && Low(Next(n)) == 0
    ensures Low(n) == 1 ==> Half(n) != 0xffffffffffffffff && n != 0
  {
    EvenOrOdd(n);
    if n & 1 == 0 {
      EvenNext(n);
    } else {
      OddNext(n);
    }
  }

  lemma ValIs(n: bv64)
    ensures Val(n) == 2 * Val(Half(n)) + Low(n)
  {
    if n == 0 {
      ZeroHalves();
    }
  }

  lemma ZeroHalves()
    ensures Half(0) == 0 && Low(0) == 0
  {}

  /** Val counts: it is 0 for 0, and one more for the next word. So it is the number of every word. */
  lemma {:induction false} ValCounts(n: bv64)
    ensures Val(0) == 0
    ensures n != 0xffffffffffffffff ==> Val(Next(n)) == Val(n) + 1
    decreases Val(n)
  {
    hide Half, Low, Next, Val;
    ValOfZero();
    ValIs(n);
    ValIs(Next(n));
    if n != 0xffffffffffffffff {
      NextHalves(n);
      if Low(n) == 1 {
        ValCounts(Half(n));
      } else {
        assert Low(n) == 0 by { LowIsBit(n); }
      }
    }
  }

  lemma ValOfZero()
    ensures Val(0) == 0
  {}

  lemma LowIsBit(n: bv64)
    ensures Low(n) == 0 || Low(n) == 1
  {}

  /** Copies the highest set bit into all lower ones. */
  function Smear(n: bv64): bv64 {
    var n := n | (n >> 1);
    var n := n | (n >> 2);
    var n := n | (n >> 4);
    var n := n | (n >> 8);
    var n := n | (n >> 16);
    n | (n >> 32)
  }

  function Hash(n: bv64): bv6 {
    ((n * 0x03f6eaf2cd271461) >> 58) as bv6
  }

  function Table(i: nat): nat
    requires i < 64
  {
    if i < 16 then [0, 58, 1, 59, 47, 53, 2, 60, 39, 48, 27, 54, 33, 42, 3, 61][i]
    else if i < 32 then [51, 37, 40, 49, 18, 28, 20, 55, 30, 34, 11, 43, 14, 22, 4, 62][i - 16]
    else if i < 48 then [57, 46, 52, 38, 26, 32, 41, 50, 36, 17, 19, 29, 10, 13, 21, 56][i - 32]
    else [45, 25, 31, 35, 16, 9, 12, 44, 24, 15, 8, 23, 7, 6, 5, 63][i - 48]
  }

  function Lookup(n: bv64): nat {
    Table(Hash(n) as nat)
  }

  function FastLogBase2(n: bv64): nat {
    Lookup(Smear(n))
  }

  /** One more bit at the low end. */
  function Grow(n: bv64): bv64 {
    (n << 1) | 1
  }

  /** No bit of n is outside m. */
  predicate Within(n: bv64, m: bv64) {
    n | m == m
  }

  /** The set bits are the lowest ones. */
  predicate IsRun(n: bv64) {
    n & (n + 1) == 0
  }

  /** The k + 1 lowest bits. */
  function Mask(k: nat): bv64 {
    if k == 0 then 1 else Grow(Mask(k - 1))
  }

  lemma Masks0()
    ensures Mask(0) == 0x1 && Mask(1) == 0x3 && Mask(2) == 0x7 && Mask(3) == 0xf
    ensures Mask(4) == 0x1f && Mask(5) == 0x3f && Mask(6) == 0x7f && Mask(7) == 0xff
    ensures Mask(8) == 0x1ff && Mask(9) == 0x3ff && Mask(10) == 0x7ff && Mask(11) == 0xfff
    ensures Mask(12) == 0x1fff && Mask(13) == 0x3fff && Mask(14) == 0x7fff && Mask(15) == 0xffff
  {}

  lemma Masks1()
    ensures Mask(16) == 0x1ffff && Mask(17) == 0x3ffff && Mask(18) == 0x7ffff && Mask(19) == 0xfffff
    ensures Mask(20) == 0x1fffff && Mask(21) == 0x3fffff && Mask(22) == 0x7fffff && Mask(23) == 0xffffff
    ensures Mask(24) == 0x1ffffff && Mask(25) == 0x3ffffff && Mask(26) == 0x7ffffff && Mask(27) == 0xfffffff
    ensures Mask(28) == 0x1fffffff && Mask(29) == 0x3fffffff && Mask(30) == 0x7fffffff && Mask(31) == 0xffffffff
  {
    Masks0();
  }

  lemma Masks2()
    ensures Mask(32) == 0x1ffffffff && Mask(33) == 0x3ffffffff && Mask(34) == 0x7ffffffff && Mask(35) == 0xfffffffff
    ensures Mask(36) == 0x1fffffffff && Mask(37) == 0x3fffffffff && Mask(38) == 0x7fffffffff && Mask(39) == 0xffffffffff
    ensures Mask(40) == 0x1ffffffffff && Mask(41) == 0x3ffffffffff && Mask(42) == 0x7ffffffffff && Mask(43) == 0xfffffffffff
    ensures Mask(44) == 0x1fffffffffff && Mask(45) == 0x3fffffffffff && Mask(46) == 0x7fffffffffff && Mask(47) == 0xffffffffffff
  {
    Masks1();
  }

  lemma Masks3()
    ensures Mask(48) == 0x1ffffffffffff && Mask(49) == 0x3ffffffffffff && Mask(50) == 0x7ffffffffffff && Mask(51) == 0xfffffffffffff
    ensures Mask(52) == 0x1fffffffffffff && Mask(53) == 0x3fffffffffffff && Mask(54) == 0x7fffffffffffff && Mask(55) == 0xffffffffffffff
    ensures Mask(56) == 0x1ffffffffffffff && Mask(57) == 0x3ffffffffffffff && Mask(58) == 0x7ffffffffffffff && Mask(59) == 0xfffffffffffffff
    ensures Mask(60) == 0x1fffffffffffffff && Mask(61) == 0x3fffffffffffffff && Mask(62) == 0x7fffffffffffffff && Mask(63) == 0xffffffffffffffff
  {
    Masks2();
  }

  lemma Lookup0()
    ensures Lookup(0x1) == 0 && Lookup(0x3) == 1 && Lookup(0x7) == 2 && Lookup(0xf) == 3
    ensures Lookup(0x1f) == 4 && Lookup(0x3f) == 5 && Lookup(0x7f) == 6 && Lookup(0xff) == 7
  {
    assert Hash(0x1) == 0 && Hash(0x3) == 2 && Hash(0x7) == 6 && Hash(0xf) == 14;
    assert Hash(0x1f) == 30 && Hash(0x3f) == 62 && Hash(0x7f) == 61 && Hash(0xff) == 60;
  }

  lemma Lookup1()
    ensures Lookup(0x1ff) == 8 && Lookup(0x3ff) == 9 && Lookup(0x7ff) == 10 && Lookup(0xfff) == 11
    ensures Lookup(0x1fff) == 12 && Lookup(0x3fff) == 13 && Lookup(0x7fff) == 14 && Lookup(0xffff) == 15
  {
    assert Hash(0x1ff) == 58 && Hash(0x3ff) == 53 && Hash(0x7ff) == 44 && Hash(0xfff) == 26;
    assert Hash(0x1fff) == 54 && Hash(0x3fff) == 45 && Hash(0x7fff) == 28 && Hash(0xffff) == 57;
  }

  lemma Lookup2()
    ensures Lookup(0x1ffff) == 16 && Lookup(0x3ffff) == 17 && Lookup(0x7ffff) == 18 && Lookup(0xfffff) == 19
    ensures Lookup(0x1fffff) == 20 && Lookup(0x3fffff) == 21 && Lookup(0x7fffff) == 22 && Lookup(0xffffff) == 23
  {
    assert Hash(0x1ffff) == 52 && Hash(0x3ffff) == 41 && Hash(0x7ffff) == 20 && Hash(0xfffff) == 42;
    assert Hash(0x1fffff) == 22 && Hash(0x3fffff) == 46 && Hash(0x7fffff) == 29 && Hash(0xffffff) == 59;
  }

  lemma Lookup3()
    ensures Lookup(0x1ffffff) == 24 && Lookup(0x3ffffff) == 25 && Lookup(0x7ffffff) == 26 && Lookup(0xfffffff) == 27
    ensures Lookup(0x1fffffff) == 28 && Lookup(0x3fffffff) == 29 && Lookup(0x7fffffff) == 30 && Lookup(0xffffffff) == 31
  {
    assert Hash(0x1ffffff) == 56 && Hash(0x3ffffff) == 49 && Hash(0x7ffffff) == 36 && Hash(0xfffffff) == 10;
    assert Hash(0x1fffffff) == 21 && Hash(0x3fffffff) == 43 && Hash(0x7fffffff) == 24 && Hash(0xffffffff) == 50;
  }

  lemma Lookup4()
    ensures Lookup(0x1ffffffff) == 32 && Lookup(0x3ffffffff) == 33 && Lookup(0x7ffffffff) == 34 && Lookup(0xfffffffff) == 35
    ensures Lookup(0x1fffffffff) == 36 && Lookup(0x3fffffffff) == 37 && Lookup(0x7fffffffff) == 38 && Lookup(0xffffffffff) == 39
  {
    assert Hash(0x1ffffffff) == 37 && Hash(0x3ffffffff) == 12 && Hash(0x7ffffffff) == 25 && Hash(0xfffffffff) == 51;
    assert Hash(0x1fffffffff) == 40 && Hash(0x3fffffffff) == 17 && Hash(0x7fffffffff) == 35 && Hash(0xffffffffff) == 8;
  }

  lemma Lookup5()
    ensures Lookup(0x1ffffffffff) == 40 && Lookup(0x3ffffffffff) == 41 && Lookup(0x7ffffffffff) == 42 && Lookup(0xfffffffffff) == 43
    ensures Lookup(0x1fffffffffff) == 44 && Lookup(0x3fffffffffff) == 45 && Lookup(0x7fffffffffff) == 46 && Lookup(0xffffffffffff) == 47
  {
    assert Hash(0x1ffffffffff) == 18 && Hash(0x3ffffffffff) == 38 && Hash(0x7ffffffffff) == 13 && Hash(0xfffffffffff) == 27;
    assert Hash(0x1fffffffffff) == 55 && Hash(0x3fffffffffff) == 48 && Hash(0x7fffffffffff) == 33 && Hash(0xffffffffffff) == 4;
  }

  lemma Lookup6()
    ensures Lookup(0x1ffffffffffff) == 48 && Lookup(0x3ffffffffffff) == 49 && Lookup(0x7ffffffffffff) == 50 && Lookup(0xfffffffffffff) == 51
    ensures Lookup(0x1fffffffffffff) == 52 && Lookup(0x3fffffffffffff) == 53 && Lookup(0x7fffffffffffff) == 54 && Lookup(0xffffffffffffff) == 55
  {
    assert Hash(0x1ffffffffffff) == 9 && Hash(0x3ffffffffffff) == 19 && Hash(0x7ffffffffffff) == 39 && Hash(0xfffffffffffff) == 16;
    assert Hash(0x1fffffffffffff) == 34 && Hash(0x3fffffffffffff) == 5 && Hash(0x7fffffffffffff) == 11 && Hash(0xffffffffffffff) == 23;
  }

  lemma Lookup7()
    ensures Lookup(0x1ffffffffffffff) == 56 && Lookup(0x3ffffffffffffff) == 57 && Lookup(0x7ffffffffffffff) == 58 && Lookup(0xfffffffffffffff) == 59
    ensures Lookup(0x1fffffffffffffff) == 60 && Lookup(0x3fffffffffffffff) == 61 && Lookup(0x7fffffffffffffff) == 62 && Lookup(0xffffffffffffffff) == 63
  {
    assert Hash(0x1ffffffffffffff) == 47 && Hash(0x3ffffffffffffff) == 32 && Hash(0x7ffffffffffffff) == 1 && Hash(0xfffffffffffffff) == 3;
    assert Hash(0x1fffffffffffffff) == 7 && Hash(0x3fffffffffffffff) == 15 && Hash(0x7fffffffffffffff) == 31 && Hash(0xffffffffffffffff) == 63;
  }

  /** The hash tells all masks apart, and the table holds their lengths at the right places. */
  lemma LookupOfMask(k: nat)
    requires k < 64
    ensures Lookup(Mask(k)) == k
  {
    hide Mask, Lookup;
    Masks0(); Masks1(); Masks2(); Masks3();
    if k < 32 {
      Lookup0(); Lookup1(); Lookup2(); Lookup3();
    } else {
      Lookup4(); Lookup5(); Lookup6(); Lookup7();
    }
  }

  // ----- facts about bits alone

  lemma SmearShifted(n: bv64)
    ensures Smear(n) >> 1 == Smear(n >> 1)
  {}

  lemma SmearLow(n: bv64)
    requires n != 0
    ensures Smear(n) & 1 == 1
  {}

  lemma Rebuild(n: bv64)
    requires n & 1 == 1
    ensures n == ((n >> 1) << 1) | 1
  {}

  lemma SmearHalf(n: bv64)
    ensures Half(Smear(n)) == Smear(Half(n))
  {
    hide Smear;
    SmearShifted(n);
  }

  lemma SmearIsOdd(n: bv64)
    requires n != 0
    ensures Smear(n) == Grow(Half(Smear(n)))
  {
    hide Smear;
    SmearLow(n);
    Rebuild(Smear(n));
  }

  lemma HalvesWithin(n: bv64, m: bv64)
    requires Within(n, m)
    ensures Within(Half(n), Half(m))
  {}

  lemma WithinOne(n: bv64)
    requires Within(n, 1)
    ensures Half(n) == 0
  {}

  lemma AllWithin(n: bv64)
    ensures Within(n, 0xffffffffffffffff)
  {}

  lemma GrowKeepsRun(n: bv64)
    requires IsRun(n)
    ensures IsRun(Grow(n)) && (n != 0xffffffffffffffff ==> Half(Grow(n)) == n)
  {}

  // ----- smearing gives a mask

  lemma {:induction false} MaskIsRun(k: nat)
    ensures IsRun(Mask(k))
  {
    hide IsRun, Grow;
    if k == 0 {
      assert IsRun(1) by { OneIsRun(); }
    } else {
      MaskIsRun(k - 1);
      GrowKeepsRun(Mask(k - 1));
    }
  }

  lemma OneIsRun()
    ensures IsRun(1)
  {}

  lemma MaskIsNotFull(k: nat)
    requires k < 63
    ensures Mask(k) != 0xffffffffffffffff
  {
    hide Mask;
    Masks0(); Masks1(); Masks2(); Masks3();
  }

  lemma HalfMask(k: nat)
    requires 0 < k < 64
    ensures Half(Mask(k)) == Mask(k - 1)
  {
    hide IsRun, Grow, Half;
    MaskIsRun(k - 1);
    MaskIsNotFull(k - 1);
    GrowKeepsRun(Mask(k - 1));
  }

  lemma SmearStep(n: bv64, k: nat)
    requires n != 0 && Smear(Half(n)) == Mask(k)
    ensures Smear(n) == Mask(k + 1)
  {
    hide Smear, Grow, Half;
    SmearHalf(n);
    SmearIsOdd(n);
  }

  lemma LogStep(n: bv64)
    requires Half(n) != 0 && Val(Half(n)) > 0
    ensures Val(n) > 0 && Log2(Val(n)) == Log2(Val(Half(n))) + 1
  {
    hide Half;
    HalfOfZero();
    assert Val(n) / 2 == Val(Half(n));
  }

  lemma HalfOfZero()
    ensures Half(0) == 0
  {}

  /** Smearing leaves the mask of the logarithm; `bound` is a position that no bit of n exceeds. */
  lemma {:induction false} SmearIsMask(n: bv64, bound: nat)
    requires n != 0 && bound < 64 && Within(n, Mask(bound))
    ensures Val(n) > 0 && Log2(Val(n)) <= bound && Smear(n) == Mask(Log2(Val(n)))
    decreases bound
  {
    hide Smear, Mask, Val, Log2, Within, Half;
    if Half(n) == 0 {
      OneIsItsMask(n);
    } else {
      if bound == 0 {
        Masks0();
        WithinOne(n);
      }
      HalvesWithin(n, Mask(bound));
      HalfMask(bound);
      SmearIsMask(Half(n), bound - 1);
      LogStep(n);
      SmearStep(n, Log2(Val(Half(n))));
    }
  }

  lemma OneIsItsMask(n: bv64)
    requires n != 0 && Half(n) == 0
    ensures Val(n) == 1 && Log2(1) == 0 && Smear(n) == Mask(0)
  {
    assert n == 1;
    assert Val(1) == 2 * Val(0) + 1;
  }

  /** The branch-free form computes the logarithm of every word but zero. */
  lemma FastLogIsLog(n: bv64)
    requires n != 0
    ensures Val(n) > 0 && FastLogBase2(n) == Log2(Val(n))
  {
    hide Smear, Lookup, Val, Log2, Mask;
    Masks3();
    AllWithin(n);
    SmearIsMask(n, 63);
    LookupOfMask(Log2(Val(n)));
  }

  /** So both forms of hexlen agree, and give the number of digits. */
  lemma FastHexLen(n: bv64)
    ensures |Hex(Val(n))| == if n == 0 then 1 else 1 + FastLogBase2(n) / 4
  {
    HexLenIsExact(Val(n));
    if n != 0 {
      FastLogIsLog(n);
    }
  }
}
