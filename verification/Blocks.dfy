/**
 What the two digests of scripts/mkhash.c have in common: a message is cut into
 blocks of 64 bytes that are folded into a state, after padding to a multiple of 64.
 */
module Blocks {
  type Byte = bv8
  type Word = bv32

  const BLOCK: nat := 64

  /** The blocks of a message, folded one by one. */
  function Fold<S>(f: (S, seq<Byte>) -> S, s: S, m: seq<Byte>): S
    requires |m| % BLOCK == 0
    decreases |m|
  {
    if m == [] then s else Fold(f, f(s, m[..BLOCK]), m[BLOCK..])
  }

  lemma {:induction false} FoldConcat<S>(f: (S, seq<Byte>) -> S, s: S, a: seq<Byte>, b: seq<Byte>)
    requires |a| % BLOCK == 0 && |b| % BLOCK == 0
    ensures Fold(f, s, a + b) == Fold(f, Fold(f, s, a), b)
    decreases |a|
  {
    if a == [] {
      assert a + b == b;
    } else {
      assert (a + b)[..BLOCK] == a[..BLOCK] && (a + b)[BLOCK..] == a[BLOCK..] + b;
      FoldConcat(f, f(s, a[..BLOCK]), a[BLOCK..], b);
    }
  }

  lemma {:induction false} FoldOne<S>(f: (S, seq<Byte>) -> S, s: S, b: seq<Byte>)
    requires |b| == BLOCK
    ensures Fold(f, s, b) == f(s, b)
  {
    assert b[..BLOCK] == b && b[BLOCK..] == [];
  }

  /** The whole blocks of a message, and what is left over. */
  function Whole(m: seq<Byte>): (w: seq<Byte>)
    ensures |w| % BLOCK == 0
  {
    m[..|m| - |m| % BLOCK]
  }

  function Rest(m: seq<Byte>): (r: seq<Byte>)
    ensures |r| == |m| % BLOCK
  {
    m[|m| - |m| % BLOCK..]
  }

  lemma {:induction false} Recombined(m: seq<Byte>)
    ensures m == Whole(m) + Rest(m)
  {
  }

  lemma {:induction false} WholeAndRest(m: seq<Byte>)
    ensures Whole(m) == m[..|m| - |m| % BLOCK] && Rest(m) == m[|m| - |m| % BLOCK..]
    ensures |m| < BLOCK ==> Whole(m) == [] && Rest(m) == m
  {
  }

  lemma {:induction false} SumOfBlocks(a: nat, b: nat)
    requires a % BLOCK == 0 && b % BLOCK == 0
    ensures (a + b) % BLOCK == 0
  {
  }

  lemma {:induction false} CutAt(w: seq<Byte>, r: seq<Byte>)
    requires |w| % BLOCK == 0 && |r| < BLOCK
    ensures Whole(w + r) == w && Rest(w + r) == r
  {
    assert |w + r| % BLOCK == |r|;
  }

  /** Data that does not complete the pending block is left over with it. */
  lemma {:induction false} RestGrows(m: seq<Byte>, data: seq<Byte>)
    requires |Rest(m)| + |data| < BLOCK
    ensures Whole(m + data) == Whole(m) && Rest(m + data) == Rest(m) + data
  {
    hide Whole, Rest;
    Recombined(m);
    assert m + data == Whole(m) + (Rest(m) + data);
    CutAt(Whole(m), Rest(m) + data);
  }

  /** Otherwise it makes that block whole, and the blocks behind it. */
  lemma {:induction false} WholeGrows(m: seq<Byte>, data: seq<Byte>)
    requires |Rest(m)| + |data| >= BLOCK
    ensures var k := BLOCK - |Rest(m)|; var more := data[k..];
            Whole(m + data) == Whole(m) + (Rest(m) + data[..k]) + Whole(more) && Rest(m + data) == Rest(more)
  {
    hide Whole, Rest;
    var k := BLOCK - |Rest(m)|;
    var more := data[k..];
    var w := Whole(m) + (Rest(m) + data[..k]) + Whole(more);
    Recombined(m);
    Recombined(more);
    assert data == data[..k] + more;
    assert m + data == w + Rest(more);
    SumOfBlocks(|Whole(m)|, BLOCK);
    SumOfBlocks(|Whole(m)| + BLOCK, |Whole(more)|);
    CutAt(w, Rest(more));
  }

  lemma {:induction false} NoRest(m: seq<Byte>, data: seq<Byte>)
    requires |Rest(m)| == 0
    ensures Whole(m + data) == Whole(m) + Whole(data) && Rest(m + data) == Rest(data)
  {
    hide Whole, Rest;
    Recombined(m);
    Recombined(data);
    assert m + data == Whole(m) + Whole(data) + Rest(data);
    SumOfBlocks(|Whole(m)|, |Whole(data)|);
    CutAt(Whole(m) + Whole(data), Rest(data));
  }

  // ----- padding -----

  function Zeros(n: nat): (z: seq<Byte>)
    ensures |z| == n
  {
    seq(n, i => 0)
  }

  /** How many zero bytes follow the byte 0x80. */
  function PadZeros(n: nat): nat { (119 - n % BLOCK) % BLOCK }

  /** After the byte 0x80 and k zeros exactly the eight length bytes fit into the last block. */
  predicate LeavesEight(n: nat, k: nat) { (n + 1 + k) % BLOCK == 56 }

  lemma {:induction false} PadZerosLeast(n: nat)
    ensures LeavesEight(n, PadZeros(n)) && forall k: nat :: k < PadZeros(n) ==> !LeavesEight(n, k)
  {
    var q, r := n / BLOCK, n % BLOCK;
    forall k: nat | k < PadZeros(n) ensures !LeavesEight(n, k) {
      if r + 1 + k < BLOCK {
        assert n + 1 + k == BLOCK * q + (r + 1 + k);
      } else {
        assert n + 1 + k == BLOCK * (q + 1) + (r + 1 + k - BLOCK);
      }
    }
  }

  /** A message with its padding and eight length bytes. */
  function Padded(m: seq<Byte>, length: seq<Byte>): (p: seq<Byte>)
    requires |length| == 8
    ensures |p| % BLOCK == 0
  {
    PadZerosLeast(|m|);
    assert LeavesEight(|m|, PadZeros(|m|));
    m + [0x80] + Zeros(PadZeros(|m|)) + length
  }

  /** The last block, when the bytes left over leave room for the length. */
  function OneBlock(rest: seq<Byte>, length: seq<Byte>): (b: seq<Byte>)
    requires |rest| < 56 && |length| == 8
    ensures |b| == BLOCK
  {
    rest + [0x80] + Zeros(55 - |rest|) + length
  }

  /** The last two blocks, when they do not. */
  function FirstOfTwo(rest: seq<Byte>): (b: seq<Byte>)
    requires 56 <= |rest| < BLOCK
    ensures |b| == BLOCK
  {
    rest + [0x80] + Zeros(63 - |rest|)
  }

  function SecondOfTwo(length: seq<Byte>): (b: seq<Byte>)
    requires |length| == 8
    ensures |b| == BLOCK
  {
    Zeros(56) + length
  }

  /** The one or two blocks that padding makes of the bytes left over. */
  lemma {:induction false} PaddedBlocks(m: seq<Byte>, length: seq<Byte>)
    requires |length| == 8
    ensures |Rest(m)| < 56 ==> Padded(m, length) == Whole(m) + OneBlock(Rest(m), length)
    ensures |Rest(m)| >= 56 ==> Padded(m, length) == Whole(m) + FirstOfTwo(Rest(m)) + SecondOfTwo(length)
  {
    assert m == Whole(m) + Rest(m);
    if |Rest(m)| >= 56 {
      assert Zeros(PadZeros(|m|)) == Zeros(63 - |Rest(m)|) + Zeros(56);
    }
  }

  /** Folding a padded message folds those blocks after the whole ones. */
  lemma {:induction false} PaddedFold<S>(f: (S, seq<Byte>) -> S, s: S, m: seq<Byte>, length: seq<Byte>)
    requires |length| == 8
    ensures |Rest(m)| < 56 ==> Fold(f, s, Padded(m, length)) == Fold(f, Fold(f, s, Whole(m)), OneBlock(Rest(m), length))
    ensures |Rest(m)| >= 56 ==>
              Fold(f, s, Padded(m, length))
                == Fold(f, Fold(f, Fold(f, s, Whole(m)), FirstOfTwo(Rest(m))), SecondOfTwo(length))
  {
    hide Fold, Padded, OneBlock, FirstOfTwo, SecondOfTwo, Whole, Rest;
    PaddedBlocks(m, length);
    if |Rest(m)| < 56 {
      FoldConcat(f, s, Whole(m), OneBlock(Rest(m), length));
    } else {
      FoldConcat(f, s, Whole(m), FirstOfTwo(Rest(m)));
      FoldConcat(f, s, Whole(m) + FirstOfTwo(Rest(m)), SecondOfTwo(length));
    }
  }

  /** Completing the pending block and going on with the whole ones that follow folds what has to be folded. */
  lemma {:induction false} Absorbed<S>(f: (S, seq<Byte>) -> S, s: S, m: seq<Byte>, data: seq<Byte>)
    ensures |Rest(m)| == 0 ==>
              Fold(f, s, Whole(m + data)) == Fold(f, Fold(f, s, Whole(m)), Whole(data)) && Rest(m + data) == Rest(data)
    ensures |Rest(m)| + |data| >= BLOCK ==>
              var k := BLOCK - |Rest(m)|;
              && Fold(f, s, Whole(m + data))
                 == Fold(f, Fold(f, Fold(f, s, Whole(m)), Rest(m) + data[..k]), Whole(data[k..]))
              && Rest(m + data) == Rest(data[k..])
  {
    hide Fold, Whole, Rest;
    if |Rest(m)| == 0 {
      NoRest(m, data);
      FoldConcat(f, s, Whole(m), Whole(data));
    }
    if |Rest(m)| + |data| >= BLOCK {
      var k := BLOCK - |Rest(m)|;
      WholeGrows(m, data);
      FoldConcat(f, s, Whole(m), Rest(m) + data[..k]);
      FoldConcat(f, s, Whole(m) + (Rest(m) + data[..k]), Whole(data[k..]));
    }
  }

  lemma {:induction false} FoldNothing<S>(f: (S, seq<Byte>) -> S, s: S)
    ensures Fold(f, s, []) == s
  {
  }

  function Concat(chunks: seq<seq<Byte>>): seq<Byte> {
    if chunks == [] then [] else chunks[0] + Concat(chunks[1..])
  }

  lemma {:induction false} ConcatMore(chunks: seq<seq<Byte>>, k: nat)
    requires k < |chunks|
    ensures Concat(chunks[..k + 1]) == Concat(chunks[..k]) + chunks[k]
    decreases k
  {
    if k == 0 {
      assert chunks[..1][1..] == [] && chunks[..0] == [];
    } else {
      assert chunks[..k + 1][1..] == chunks[1..][..k] && chunks[..k][1..] == chunks[1..][..k - 1];
      ConcatMore(chunks[1..], k - 1);
    }
  }

  // ----- numbers as bytes -----

  /** Digit i of a number to the base 256, counted from the low end. */
  function Digit(n: nat, i: nat): (d: nat)
    ensures d < 256
  {
    if i == 0 then n % 256 else Digit(n / 256, i - 1)
  }

  function ByteOf(n: nat, i: nat): Byte { Digit(n, i) as Byte }

  /** A 64-bit number, low-order byte first, and high-order byte first. */
  function LittleEndian64(n: nat): (b: seq<Byte>)
    ensures |b| == 8
  {
    [ByteOf(n, 0), ByteOf(n, 1), ByteOf(n, 2), ByteOf(n, 3), ByteOf(n, 4), ByteOf(n, 5), ByteOf(n, 6), ByteOf(n, 7)]
  }

  function BigEndian64(n: nat): (b: seq<Byte>)
    ensures |b| == 8
  {
    [ByteOf(n, 7), ByteOf(n, 6), ByteOf(n, 5), ByteOf(n, 4), ByteOf(n, 3), ByteOf(n, 2), ByteOf(n, 1), ByteOf(n, 0)]
  }

  /** Two 32-bit halves make the eight bytes. */
  lemma {:induction false} HalvesOf64(low: nat, high: nat)
    requires low < 0x1_0000_0000
    ensures var n := low + high * 0x1_0000_0000;
            forall i: nat :: i < 4 ==> Digit(n, i) == Digit(low, i) && Digit(n, i + 4) == Digit(high, i)
  {
    var n := low + high * 0x1_0000_0000;
    assert n / 256 == low / 256 + high * 0x100_0000;
    assert n / 256 / 256 == low / 256 / 256 + high * 0x1_0000;
    assert n / 256 / 256 / 256 == low / 256 / 256 / 256 + high * 0x100;
    assert n / 256 / 256 / 256 / 256 == high;
    FirstDigits(n);
    FirstDigits(low);
    forall i: nat | i < 4 ensures Digit(n, i) == Digit(low, i) && Digit(n, i + 4) == Digit(high, i) {
      DigitFour(n, i);
      assert i == 0 || i == 1 || i == 2 || i == 3;
    }
  }

  lemma {:induction false} BytesOf64(low: nat, high: nat)
    requires low < 0x1_0000_0000
    ensures var n := low + high * 0x1_0000_0000;
            && ByteOf(n, 0) == ByteOf(low, 0) && ByteOf(n, 1) == ByteOf(low, 1) && ByteOf(n, 2) == ByteOf(low, 2)
               && ByteOf(n, 3) == ByteOf(low, 3)
            && ByteOf(n, 4) == ByteOf(high, 0) && ByteOf(n, 5) == ByteOf(high, 1) && ByteOf(n, 6) == ByteOf(high, 2)
               && ByteOf(n, 7) == ByteOf(high, 3)
  {
    hide Digit;
    HalvesOf64(low, high);
    var n := low + high * 0x1_0000_0000;
    assert Digit(n, 0 + 4) == Digit(high, 0);
    assert Digit(n, 1 + 4) == Digit(high, 1);
    assert Digit(n, 2 + 4) == Digit(high, 2);
    assert Digit(n, 3 + 4) == Digit(high, 3);
  }

  lemma {:induction false} FirstDigits(n: nat)
    ensures Digit(n, 0) == n % 256 && Digit(n, 1) == n / 256 % 256
    ensures Digit(n, 2) == n / 256 / 256 % 256 && Digit(n, 3) == n / 256 / 256 / 256 % 256
  {
    assert Digit(n, 1) == Digit(n / 256, 0);
    assert Digit(n, 2) == Digit(n / 256, 1);
    assert Digit(n / 256, 1) == Digit(n / 256 / 256, 0);
    assert Digit(n, 3) == Digit(n / 256, 2);
    assert Digit(n / 256, 2) == Digit(n / 256 / 256, 1);
    assert Digit(n / 256 / 256, 1) == Digit(n / 256 / 256 / 256, 0);
  }

  lemma {:induction false} DigitFour(n: nat, i: nat)
    ensures Digit(n, i + 4) == Digit(n / 256 / 256 / 256 / 256, i)
  {
    assert Digit(n, i + 4) == Digit(n / 256, i + 3);
    assert Digit(n / 256, i + 3) == Digit(n / 256 / 256, i + 2);
    assert Digit(n / 256 / 256, i + 2) == Digit(n / 256 / 256 / 256, i + 1);
  }

  lemma {:induction false} SameRemainder(k: nat, n: nat)
    ensures (BLOCK * k + n) % BLOCK == n % BLOCK
  {
  }

  /** A number stored into a byte. */
  function Truncated(n: nat): Byte { (n % 256) as Byte }

  lemma {:induction false} FourBytes(n: nat)
    ensures Truncated(n) == ByteOf(n, 0) && Truncated(n / 0x100) == ByteOf(n, 1)
    ensures Truncated(n / 0x1_0000) == ByteOf(n, 2) && Truncated(n / 0x100_0000) == ByteOf(n, 3)
  {
    FirstDigits(n);
    assert n / 256 / 256 == n / 0x1_0000 && n / 256 / 256 / 256 == n / 0x100_0000;
  }
}
