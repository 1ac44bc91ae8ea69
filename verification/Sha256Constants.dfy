/**
 Where the constants of SHA-256 come from, as sections 4.2.2 and 5.3.3 of FIPS 180-4
 define them: they are the fractional parts of roots of the first primes.
 */
module Sha256Constants {
  import opened Blocks
  import Sha256

  predicate Prime(n: nat) { n >= 2 && forall d :: 2 <= d < n ==> n % d != 0 }

  /** The primes below n, in order. */
  ghost function PrimesBelow(n: nat): seq<nat> {
    if n == 0 then [] else PrimesBelow(n - 1) + if Prime(n - 1) then [n - 1] else []
  }

  // ----- the first 64 primes -----

  predicate Through(n: nat, q: nat)
    requires q > 0
  {
    n == q || n % q != 0
  }

  /** No prime up to 17 divides n, unless it is n. */
  predicate Sieved(n: nat) {
    && n >= 2 && Through(n, 2) && Through(n, 3) && Through(n, 5) && Through(n, 7) && Through(n, 11) && Through(n, 13)
    && Through(n, 17)
  }

  /** Below the square of 19 nothing but a prime gets through. */
  lemma {:induction false} SieveExact(n: nat)
    requires n < 361
    ensures Prime(n) <==> Sieved(n)
  {
    if Sieved(n) {
      forall d | 2 <= d < n ensures n % d != 0 {
        if n % d == 0 {
          CofactorSmall(n, d);
        }
      }
    }
  }

  lemma {:induction false} Cofactor(n: nat, d: nat) returns (e: nat)
    requires n < 361 && 2 <= d < n && n % d == 0
    ensures n == d * e && 2 <= e < n && (d <= 18 || e <= 18)
  {
    e := n / d;
    assert n == d * e;
    AtLeastTwo(d, e);
    NotBothLarge(d, e);
    assert d * e >= 2 * e;
  }

  lemma {:induction false} AtLeastTwo(d: nat, e: nat)
    requires d < d * e
    ensures e >= 2
  {
  }

  lemma {:induction false} NotBothLarge(d: nat, e: nat)
    requires d * e < 361
    ensures d <= 18 || e <= 18
  {
    if d >= 19 {
      assert d * e >= 19 * e;
    }
  }

  lemma {:induction false} Blocked(n: nat, q: nat, x: nat)
    requires q > 0 && n == q * x && n > q
    ensures !Through(n, q)
  {
    var m, r := n / q, n % q;
    assert n == q * m + r;
    if x > m {
      Products(q, m + 1, x);
    } else if x < m {
      Products(q, x + 1, m);
    }
  }

  lemma {:induction false} Products(q: nat, a: nat, b: nat)
    requires a <= b
    ensures q * a <= q * b && q * a == q * (a - 1) + q
  {
    assert q * (b - a) >= 0;
  }

  lemma {:induction false} Composite(n: nat, q: nat, x: nat)
    requires n == q * x && n > q
    requires q == 2 || q == 3 || q == 5 || q == 7 || q == 11 || q == 13 || q == 17
    ensures !Sieved(n)
  {
    hide Through;
    Blocked(n, q, x);
  }

  /** A number with a divisor up to 18 is divided by one of the primes up to 17. */
  lemma {:induction false} SmallSieved(n: nat, d: nat, e: nat)
    requires 2 <= d <= 18 && n == d * e && d < n
    ensures !Sieved(n)
  {
    hide Sieved;
    if d % 2 == 0 {
      Regroup(2, d / 2, e);
      Composite(n, 2, d / 2 * e);
    } else if d % 3 == 0 {
      Regroup(3, d / 3, e);
      Composite(n, 3, d / 3 * e);
    } else {
      Composite(n, d, e);
    }
  }

  lemma {:induction false} Regroup(q: nat, l: nat, e: nat)
    ensures q * l * e == q * (l * e)
  {
  }

  lemma {:induction false} CofactorSmall(n: nat, d: nat)
    requires n < 361 && 2 <= d < n && n % d == 0
    ensures !Sieved(n)
  {
    hide Sieved;
    var e := Cofactor(n, d);
    if d <= 18 {
      SmallSieved(n, d, e);
    } else {
      assert n == e * d;
      SmallSieved(n, e, d);
    }
  }

  /** The numbers from lo on and below hi that get through. */
  function SievedBetween(lo: nat, hi: nat): seq<nat>
    decreases hi - lo
  {
    if lo >= hi then [] else (if Sieved(lo) then [lo] else []) + SievedBetween(lo + 1, hi)
  }

  lemma {:induction false} PrimesMore(lo: nat, hi: nat)
    requires lo <= hi <= 361
    ensures PrimesBelow(hi) == PrimesBelow(lo) + SievedBetween(lo, hi)
    decreases hi - lo
  {
    hide Prime, Sieved;
    if lo < hi {
      SieveExact(lo);
      PrimesMore(lo + 1, hi);
      var first := if Sieved(lo) then [lo] else [];
      assert PrimesBelow(lo + 1) == PrimesBelow(lo) + first;
      assert PrimesBelow(lo) + (first + SievedBetween(lo + 1, hi))
          == PrimesBelow(lo) + first + SievedBetween(lo + 1, hi);
    }
  }

  /** The primes in rows of eight, and where each row ends. */
  const ROWS: seq<seq<nat>> := [
    [2, 3, 5, 7, 11, 13, 17, 19],
    [23, 29, 31, 37, 41, 43, 47, 53],
    [59, 61, 67, 71, 73, 79, 83, 89],
    [97, 101, 103, 107, 109, 113, 127, 131],
    [137, 139, 149, 151, 157, 163, 167, 173],
    [179, 181, 191, 193, 197, 199, 211, 223],
    [227, 229, 233, 239, 241, 251, 257, 263],
    [269, 271, 277, 281, 283, 293, 307, 311]
  ]

  const BOUNDS: seq<nat> := [2, 23, 59, 97, 137, 179, 227, 269, 312]

  /** Nothing between the two gets through. */
  predicate Gap(p: nat, q: nat)
    decreases q - p
  {
    p + 1 >= q || (!Sieved(p + 1) && Gap(p + 1, q))
  }

  lemma {:induction false} NextPrime(p: nat, q: nat, hi: nat)
    requires Sieved(p) && p < q <= hi && Gap(p, q)
    ensures SievedBetween(p, hi) == [p] + SievedBetween(q, hi)
  {
    hide Sieved;
    SkipGap(p, q, hi);
  }

  lemma {:induction false} SkipGap(p: nat, q: nat, hi: nat)
    requires p < q <= hi && Gap(p, q)
    ensures SievedBetween(p + 1, hi) == SievedBetween(q, hi)
    decreases q - p
  {
    hide Sieved;
    if p + 1 < q {
      SkipGap(p + 1, q, hi);
    }
  }

  lemma {:induction false} NothingSieved(hi: nat)
    ensures SievedBetween(hi, hi) == []
  {
  }

  lemma {:induction false} HalfRow0()
    ensures SievedBetween(2, 23) == [2, 3, 5, 7] + SievedBetween(11, 23)
  {
    hide SievedBetween;
    NextPrime(2, 3, 23);
    NextPrime(3, 5, 23);
    NextPrime(5, 7, 23);
    NextPrime(7, 11, 23);
  }

  lemma {:induction false} Row0()
    ensures SievedBetween(2, 23) == ROWS[0]
  {
    hide SievedBetween;
    HalfRow0();
    NextPrime(11, 13, 23);
    NextPrime(13, 17, 23);
    NextPrime(17, 19, 23);
    NextPrime(19, 23, 23);
    NothingSieved(23);
    assert SievedBetween(2, 23) == [2, 3, 5, 7, 11, 13, 17, 19];
  }

  lemma {:induction false} HalfRow1()
    ensures SievedBetween(23, 59) == [23, 29, 31, 37] + SievedBetween(41, 59)
  {
    hide SievedBetween;
    NextPrime(23, 29, 59);
    NextPrime(29, 31, 59);
    NextPrime(31, 37, 59);
    NextPrime(37, 41, 59);
  }

  lemma {:induction false} Row1()
    ensures SievedBetween(23, 59) == ROWS[1]
  {
    hide SievedBetween;
    HalfRow1();
    NextPrime(41, 43, 59);
    NextPrime(43, 47, 59);
    NextPrime(47, 53, 59);
    NextPrime(53, 59, 59);
    NothingSieved(59);
    assert SievedBetween(23, 59) == [23, 29, 31, 37, 41, 43, 47, 53];
  }

  lemma {:induction false} HalfRow2()
    ensures SievedBetween(59, 97) == [59, 61, 67, 71] + SievedBetween(73, 97)
  {
    hide SievedBetween;
    NextPrime(59, 61, 97);
    NextPrime(61, 67, 97);
    NextPrime(67, 71, 97);
    NextPrime(71, 73, 97);
  }

  lemma {:induction false} Row2()
    ensures SievedBetween(59, 97) == ROWS[2]
  {
    hide SievedBetween;
    HalfRow2();
    NextPrime(73, 79, 97);
    NextPrime(79, 83, 97);
    NextPrime(83, 89, 97);
    NextPrime(89, 97, 97);
    NothingSieved(97);
    assert SievedBetween(59, 97) == [59, 61, 67, 71, 73, 79, 83, 89];
  }

  lemma {:induction false} HalfRow3()
    ensures SievedBetween(97, 137) == [97, 101, 103, 107] + SievedBetween(109, 137)
  {
    hide SievedBetween;
    NextPrime(97, 101, 137);
    NextPrime(101, 103, 137);
    NextPrime(103, 107, 137);
    NextPrime(107, 109, 137);
  }

  lemma {:induction false} Row3()
    ensures SievedBetween(97, 137) == ROWS[3]
  {
    hide SievedBetween;
    HalfRow3();
    NextPrime(109, 113, 137);
    NextPrime(113, 127, 137);
    NextPrime(127, 131, 137);
    NextPrime(131, 137, 137);
    NothingSieved(137);
    assert SievedBetween(97, 137) == [97, 101, 103, 107, 109, 113, 127, 131];
  }

  lemma {:induction false} HalfRow4()
    ensures SievedBetween(137, 179) == [137, 139, 149, 151] + SievedBetween(157, 179)
  {
    hide SievedBetween;
    NextPrime(137, 139, 179);
    NextPrime(139, 149, 179);
    NextPrime(149, 151, 179);
    NextPrime(151, 157, 179);
  }

  lemma {:induction false} Row4()
    ensures SievedBetween(137, 179) == ROWS[4]
  {
    hide SievedBetween;
    HalfRow4();
    NextPrime(157, 163, 179);
    NextPrime(163, 167, 179);
    NextPrime(167, 173, 179);
    NextPrime(173, 179, 179);
    NothingSieved(179);
    assert SievedBetween(137, 179) == [137, 139, 149, 151, 157, 163, 167, 173];
  }

  lemma {:induction false} HalfRow5()
    ensures SievedBetween(179, 227) == [179, 181, 191, 193] + SievedBetween(197, 227)
  {
    hide SievedBetween;
    NextPrime(179, 181, 227);
    NextPrime(181, 191, 227);
    NextPrime(191, 193, 227);
    NextPrime(193, 197, 227);
  }

  lemma {:induction false} Row5()
    ensures SievedBetween(179, 227) == ROWS[5]
  {
    hide SievedBetween;
    HalfRow5();
    NextPrime(197, 199, 227);
    NextPrime(199, 211, 227);
    NextPrime(211, 223, 227);
    NextPrime(223, 227, 227);
    NothingSieved(227);
    assert SievedBetween(179, 227) == [179, 181, 191, 193, 197, 199, 211, 223];
  }

  lemma {:induction false} HalfRow6()
    ensures SievedBetween(227, 269) == [227, 229, 233, 239] + SievedBetween(241, 269)
  {
    hide SievedBetween;
    NextPrime(227, 229, 269);
    NextPrime(229, 233, 269);
    NextPrime(233, 239, 269);
    NextPrime(239, 241, 269);
  }

  lemma {:induction false} Row6()
    ensures SievedBetween(227, 269) == ROWS[6]
  {
    hide SievedBetween;
    HalfRow6();
    NextPrime(241, 251, 269);
    NextPrime(251, 257, 269);
    NextPrime(257, 263, 269);
    NextPrime(263, 269, 269);
    NothingSieved(269);
    assert SievedBetween(227, 269) == [227, 229, 233, 239, 241, 251, 257, 263];
  }

  lemma {:induction false} HalfRow7()
    ensures SievedBetween(269, 312) == [269, 271, 277, 281] + SievedBetween(283, 312)
  {
    hide SievedBetween;
    NextPrime(269, 271, 312);
    NextPrime(271, 277, 312);
    NextPrime(277, 281, 312);
    NextPrime(281, 283, 312);
  }

  lemma {:induction false} Row7()
    ensures SievedBetween(269, 312) == ROWS[7]
  {
    hide SievedBetween;
    HalfRow7();
    NextPrime(283, 293, 312);
    NextPrime(293, 307, 312);
    NextPrime(307, 311, 312);
    NextPrime(311, 312, 312);
    NothingSieved(312);
    assert SievedBetween(269, 312) == [269, 271, 277, 281, 283, 293, 307, 311];
  }

  lemma {:induction false} NoPrimeBelowTwo()
    ensures PrimesBelow(2) == []
  {
    assert PrimesBelow(1) == [] && !Prime(1) && !Prime(0);
  }

  function Rows(n: nat): seq<nat>
    requires n <= 8
  {
    if n == 0 then [] else Rows(n - 1) + ROWS[n - 1]
  }

  lemma {:induction false} RowsAt(n: nat, t: nat)
    requires n <= 8 && t < 8 * n
    ensures |ROWS| == 8 && |Rows(n)| == 8 * n && |ROWS[t / 8]| == 8 && Rows(n)[t] == ROWS[t / 8][t % 8]
  {
    hide ROWS;
    RowEight(t / 8);
    RowsLong(n - 1);
    RowEight(n - 1);
    if t < 8 * (n - 1) {
      RowsAt(n - 1, t);
    } else {
      LastRow(n, t);
    }
  }

  lemma {:induction false} LastRow(n: nat, t: nat)
    requires 0 < n && 8 * (n - 1) <= t < 8 * n
    ensures t / 8 == n - 1 && t % 8 == t - 8 * (n - 1)
  {
  }

  lemma {:induction false} RowsLong(n: nat)
    requires n <= 8
    ensures |Rows(n)| == 8 * n
  {
    if n > 0 {
      RowsLong(n - 1);
      RowEight(n - 1);
    }
  }

  lemma {:induction false} RowEight(n: nat)
    requires n < 8
    ensures |ROWS| == 8 && |ROWS[n]| == 8
  {
  }

  lemma {:induction false} RowsArePrimes(n: nat)
    requires n <= 8
    ensures PrimesBelow(BOUNDS[n]) == Rows(n)
  {
    hide Prime, Sieved, SievedBetween, PrimesBelow;
    if n == 0 {
      NoPrimeBelowTwo();
    } else {
      RowsArePrimes(n - 1);
      PrimesMore(BOUNDS[n - 1], BOUNDS[n]);
      RowSieved(n - 1);
    }
  }

  lemma {:induction false} RowSieved(n: nat)
    requires n < 8
    ensures SievedBetween(BOUNDS[n], BOUNDS[n + 1]) == ROWS[n]
  {
    hide Sieved, SievedBetween;
    Row0();
    Row1();
    Row2();
    Row3();
    Row4();
    Row5();
    Row6();
    Row7();
  }

  /** There are 64 primes below 312, and this is the list. */
  lemma {:induction false} FirstPrimes(t: nat)
    requires t < 64
    ensures |PrimesBelow(312)| == 64 && PrimesBelow(312)[t] == ROWS[t / 8][t % 8]
  {
    hide PrimesBelow;
    RowsArePrimes(8);
    RowsAt(8, t);
  }

  // ----- the roots -----

  /** c is the cube root of p with 32 binary places, cut off, and w has the places after the binary point. */
  predicate CubeRoot(p: nat, c: nat, w: Word) {
    && c * c * c <= p * 0x1_0000_0000_0000_0000_0000_0000 < (c + 1) * (c + 1) * (c + 1)
    && w as nat == c % 0x1_0000_0000
  }

  predicate SquareRoot(p: nat, c: nat, w: Word) {
    c * c <= p * 0x1_0000_0000_0000_0000 < (c + 1) * (c + 1) && w as nat == c % 0x1_0000_0000
  }

  lemma {:induction false} Cubes0(k: nat) returns (c: nat)
    requires k < 8
    ensures CubeRoot(ROWS[0][k], c, Sha256.CONSTANTS[0][k])
  {
    hide CubeRoot;
    CubeRootIs(2, 0x1428a2f98, 0x428a2f98);
    CubeRootIs(3, 0x171374491, 0x71374491);
    CubeRootIs(5, 0x1b5c0fbcf, 0xb5c0fbcf);
    CubeRootIs(7, 0x1e9b5dba5, 0xe9b5dba5);
    CubeRootIs(11, 0x23956c25b, 0x3956c25b);
    CubeRootIs(13, 0x259f111f1, 0x59f111f1);
    CubeRootIs(17, 0x2923f82a4, 0x923f82a4);
    CubeRootIs(19, 0x2ab1c5ed5, 0xab1c5ed5);
    c := [0x1428a2f98, 0x171374491, 0x1b5c0fbcf, 0x1e9b5dba5, 0x23956c25b, 0x259f111f1, 0x2923f82a4, 0x2ab1c5ed5][k];
  }

  lemma {:induction false} Cubes1(k: nat) returns (c: nat)
    requires k < 8
    ensures CubeRoot(ROWS[1][k], c, Sha256.CONSTANTS[1][k])
  {
    hide CubeRoot;
    CubeRootIs(23, 0x2d807aa98, 0xd807aa98);
    CubeRootIs(29, 0x312835b01, 0x12835b01);
    CubeRootIs(31, 0x3243185be, 0x243185be);
    CubeRootIs(37, 0x3550c7dc3, 0x550c7dc3);
    CubeRootIs(41, 0x372be5d74, 0x72be5d74);
    CubeRootIs(43, 0x380deb1fe, 0x80deb1fe);
    CubeRootIs(47, 0x39bdc06a7, 0x9bdc06a7);
    CubeRootIs(53, 0x3c19bf174, 0xc19bf174);
    c := [0x2d807aa98, 0x312835b01, 0x3243185be, 0x3550c7dc3, 0x372be5d74, 0x380deb1fe, 0x39bdc06a7, 0x3c19bf174][k];
  }

  lemma {:induction false} Cubes2(k: nat) returns (c: nat)
    requires k < 8
    ensures CubeRoot(ROWS[2][k], c, Sha256.CONSTANTS[2][k])
  {
    hide CubeRoot;
    CubeRootIs(59, 0x3e49b69c1, 0xe49b69c1);
    CubeRootIs(61, 0x3efbe4786, 0xefbe4786);
    CubeRootIs(67, 0x40fc19dc6, 0x0fc19dc6);
    CubeRootIs(71, 0x4240ca1cc, 0x240ca1cc);
    CubeRootIs(73, 0x42de92c6f, 0x2de92c6f);
    CubeRootIs(79, 0x44a7484aa, 0x4a7484aa);
    CubeRootIs(83, 0x45cb0a9dc, 0x5cb0a9dc);
    CubeRootIs(89, 0x476f988da, 0x76f988da);
    c := [0x3e49b69c1, 0x3efbe4786, 0x40fc19dc6, 0x4240ca1cc, 0x42de92c6f, 0x44a7484aa, 0x45cb0a9dc, 0x476f988da][k];
  }

  lemma {:induction false} Cubes3(k: nat) returns (c: nat)
    requires k < 8
    ensures CubeRoot(ROWS[3][k], c, Sha256.CONSTANTS[3][k])
  {
    hide CubeRoot;
    CubeRootIs(97, 0x4983e5152, 0x983e5152);
    CubeRootIs(101, 0x4a831c66d, 0xa831c66d);
    CubeRootIs(103, 0x4b00327c8, 0xb00327c8);
    CubeRootIs(107, 0x4bf597fc7, 0xbf597fc7);
    CubeRootIs(109, 0x4c6e00bf3, 0xc6e00bf3);
    CubeRootIs(113, 0x4d5a79147, 0xd5a79147);
    CubeRootIs(127, 0x506ca6351, 0x06ca6351);
    CubeRootIs(131, 0x514292967, 0x14292967);
    c := [0x4983e5152, 0x4a831c66d, 0x4b00327c8, 0x4bf597fc7, 0x4c6e00bf3, 0x4d5a79147, 0x506ca6351, 0x514292967][k];
  }

  lemma {:induction false} Cubes4(k: nat) returns (c: nat)
    requires k < 8
    ensures CubeRoot(ROWS[4][k], c, Sha256.CONSTANTS[4][k])
  {
    hide CubeRoot;
    CubeRootIs(137, 0x527b70a85, 0x27b70a85);
    CubeRootIs(139, 0x52e1b2138, 0x2e1b2138);
    CubeRootIs(149, 0x54d2c6dfc, 0x4d2c6dfc);
    CubeRootIs(151, 0x553380d13, 0x53380d13);
    CubeRootIs(157, 0x5650a7354, 0x650a7354);
    CubeRootIs(163, 0x5766a0abb, 0x766a0abb);
    CubeRootIs(167, 0x581c2c92e, 0x81c2c92e);
    CubeRootIs(173, 0x592722c85, 0x92722c85);
    c := [0x527b70a85, 0x52e1b2138, 0x54d2c6dfc, 0x553380d13, 0x5650a7354, 0x5766a0abb, 0x581c2c92e, 0x592722c85][k];
  }

  lemma {:induction false} Cubes5(k: nat) returns (c: nat)
    requires k < 8
    ensures CubeRoot(ROWS[5][k], c, Sha256.CONSTANTS[5][k])
  {
    hide CubeRoot;
    CubeRootIs(179, 0x5a2bfe8a1, 0xa2bfe8a1);
    CubeRootIs(181, 0x5a81a664b, 0xa81a664b);
    CubeRootIs(191, 0x5c24b8b70, 0xc24b8b70);
    CubeRootIs(193, 0x5c76c51a3, 0xc76c51a3);
    CubeRootIs(197, 0x5d192e819, 0xd192e819);
    CubeRootIs(199, 0x5d6990624, 0xd6990624);
    CubeRootIs(211, 0x5f40e3585, 0xf40e3585);
    CubeRootIs(223, 0x6106aa070, 0x106aa070);
    c := [0x5a2bfe8a1, 0x5a81a664b, 0x5c24b8b70, 0x5c76c51a3, 0x5d192e819, 0x5d6990624, 0x5f40e3585, 0x6106aa070][k];
  }

  lemma {:induction false} Cubes6(k: nat) returns (c: nat)
    requires k < 8
    ensures CubeRoot(ROWS[6][k], c, Sha256.CONSTANTS[6][k])
  {
    hide CubeRoot;
    CubeRootIs(227, 0x619a4c116, 0x19a4c116);
    CubeRootIs(229, 0x61e376c08, 0x1e376c08);
    CubeRootIs(233, 0x62748774c, 0x2748774c);
    CubeRootIs(239, 0x634b0bcb5, 0x34b0bcb5);
    CubeRootIs(241, 0x6391c0cb3, 0x391c0cb3);
    CubeRootIs(251, 0x64ed8aa4a, 0x4ed8aa4a);
    CubeRootIs(257, 0x65b9cca4f, 0x5b9cca4f);
    CubeRootIs(263, 0x6682e6ff3, 0x682e6ff3);
    c := [0x619a4c116, 0x61e376c08, 0x62748774c, 0x634b0bcb5, 0x6391c0cb3, 0x64ed8aa4a, 0x65b9cca4f, 0x6682e6ff3][k];
  }

  lemma {:induction false} Cubes7(k: nat) returns (c: nat)
    requires k < 8
    ensures CubeRoot(ROWS[7][k], c, Sha256.CONSTANTS[7][k])
  {
    hide CubeRoot;
    CubeRootIs(269, 0x6748f82ee, 0x748f82ee);
    CubeRootIs(271, 0x678a5636f, 0x78a5636f);
    CubeRootIs(277, 0x684c87814, 0x84c87814);
    CubeRootIs(281, 0x68cc70208, 0x8cc70208);
    CubeRootIs(283, 0x690befffa, 0x90befffa);
    CubeRootIs(293, 0x6a4506ceb, 0xa4506ceb);
    CubeRootIs(307, 0x6bef9a3f7, 0xbef9a3f7);
    CubeRootIs(311, 0x6c67178f2, 0xc67178f2);
    c := [0x6748f82ee, 0x678a5636f, 0x684c87814, 0x68cc70208, 0x690befffa, 0x6a4506ceb, 0x6bef9a3f7, 0x6c67178f2][k];
  }

  lemma {:induction false} CubeRootIs(p: nat, c: nat, w: Word)
    requires c * c * c <= p * 0x1_0000_0000_0000_0000_0000_0000 < (c + 1) * (c + 1) * (c + 1)
    requires w as nat == c % 0x1_0000_0000
    ensures CubeRoot(p, c, w)
  {
  }

  /** Constant t of the rounds is what follows the binary point of the cube root of the t-th prime, 32 places of it. */
  lemma {:induction false} ConstantsAreCubeRoots(t: nat) returns (c: nat)
    requires t < 64
    ensures |PrimesBelow(312)| == 64 && CubeRoot(PrimesBelow(312)[t], c, Sha256.K(t))
  {
    hide CubeRoot, PrimesBelow;
    FirstPrimes(t);
    match t / 8
    case 0 => c := Cubes0(t % 8);
    case 1 => c := Cubes1(t % 8);
    case 2 => c := Cubes2(t % 8);
    case 3 => c := Cubes3(t % 8);
    case 4 => c := Cubes4(t % 8);
    case 5 => c := Cubes5(t % 8);
    case 6 => c := Cubes6(t % 8);
    case _ => c := Cubes7(t % 8);
  }

  lemma {:induction false} SquareRootIs(p: nat, c: nat, w: Word)
    requires c * c <= p * 0x1_0000_0000_0000_0000 < (c + 1) * (c + 1) && w as nat == c % 0x1_0000_0000
    ensures SquareRoot(p, c, w)
  {
  }

  /** The initial variables are what follows the binary point of the square roots of the first eight primes. */
  lemma {:induction false} InitialAreSquareRoots(t: nat) returns (c: nat)
    requires t < 8
    ensures |PrimesBelow(312)| == 64 && SquareRoot(PrimesBelow(312)[t], c, Sha256.INITIAL[t])
  {
    hide SquareRoot, PrimesBelow;
    FirstPrimes(t);
    SquareRootIs(2, 0x16a09e667, 0x6a09e667);
    SquareRootIs(3, 0x1bb67ae85, 0xbb67ae85);
    SquareRootIs(5, 0x23c6ef372, 0x3c6ef372);
    SquareRootIs(7, 0x2a54ff53a, 0xa54ff53a);
    SquareRootIs(11, 0x3510e527f, 0x510e527f);
    SquareRootIs(13, 0x39b05688c, 0x9b05688c);
    SquareRootIs(17, 0x41f83d9ab, 0x1f83d9ab);
    SquareRootIs(19, 0x45be0cd19, 0x5be0cd19);
    c := [0x16a09e667, 0x1bb67ae85, 0x23c6ef372, 0x2a54ff53a, 0x3510e527f, 0x39b05688c, 0x41f83d9ab, 0x45be0cd19][t];
  }
}
