/**
 MD5 as scripts/mkhash.c computes it, chunk by chunk, and as section 3 of RFC 1321
 defines it on a whole message.
 */
module Md5 {
  import opened Blocks

  // ----- RFC 1321, section 3.4 -----

  datatype State = State(a: Word, b: Word, c: Word, d: Word)

  const INITIAL := State(0x67452301, 0xefcdab89, 0x98badcfe, 0x10325476)

  function F(x: Word, y: Word, z: Word): Word { (x & y) | (!x & z) }

  function G(x: Word, y: Word, z: Word): Word { (x & z) | (y & !z) }

  function H(x: Word, y: Word, z: Word): Word { x ^ y ^ z }

  function I(x: Word, y: Word, z: Word): Word { y ^ (x | !z) }

  /** The auxiliary function of step i. */
  function Auxiliary(i: nat, x: Word, y: Word, z: Word): Word {
    if i < 16 then F(x, y, z) else if i < 32 then G(x, y, z) else if i < 48 then H(x, y, z) else I(x, y, z)
  }

  /** The message word that step i adds. */
  function WordIndex(i: nat): (k: nat)
    ensures k < 16
  {
    if i < 16 then i % 16 else if i < 32 then (5 * i + 1) % 16 else if i < 48 then (3 * i + 5) % 16 else 7 * i % 16
  }

  function Shifts(round: nat): (s: seq<nat>)
    ensures |s| == 4 && forall i :: 0 <= i < 4 ==> 0 < s[i] < 32
  {
    if round == 0 then [7, 12, 17, 22]
    else if round == 1 then [5, 9, 14, 20]
    else if round == 2 then [4, 11, 16, 23]
    else [6, 10, 15, 21]
  }

  function ShiftOf(i: nat): (s: nat)
    ensures 0 < s < 32
  {
    Shifts(i / 16)[i % 4]
  }

  /** The integer part of 4294967296 times abs(sin(i + 1)). */
  const SINES: seq<Word> := [
    0xd76aa478, 0xe8c7b756, 0x242070db, 0xc1bdceee, 0xf57c0faf, 0x4787c62a, 0xa8304613, 0xfd469501,
    0x698098d8, 0x8b44f7af, 0xffff5bb1, 0x895cd7be, 0x6b901122, 0xfd987193, 0xa679438e, 0x49b40821,
    0xf61e2562, 0xc040b340, 0x265e5a51, 0xe9b6c7aa, 0xd62f105d, 0x02441453, 0xd8a1e681, 0xe7d3fbc8,
    0x21e1cde6, 0xc33707d6, 0xf4d50d87, 0x455a14ed, 0xa9e3e905, 0xfcefa3f8, 0x676f02d9, 0x8d2a4c8a,
    0xfffa3942, 0x8771f681, 0x6d9d6122, 0xfde5380c, 0xa4beea44, 0x4bdecfa9, 0xf6bb4b60, 0xbebfbc70,
    0x289b7ec6, 0xeaa127fa, 0xd4ef3085, 0x04881d05, 0xd9d4d039, 0xe6db99e5, 0x1fa27cf8, 0xc4ac5665,
    0xf4292244, 0x432aff97, 0xab9423a7, 0xfc93a039, 0x655b59c3, 0x8f0ccc92, 0xffeff47d, 0x85845dd1,
    0x6fa87e4f, 0xfe2ce6e0, 0xa3014314, 0x4e0811a1, 0xf7537e82, 0xbd3af235, 0x2ad7d2bb, 0xeb86d391
  ]

  function Sine(i: nat): Word { if i < |SINES| then SINES[i] else 0 }

  function Rotate(x: Word, s: nat): Word
    requires 0 < s < 32
  {
    (x << s) | (x >> (32 - s))
  }

  /** `a = b + ((a + f + x + t) <<< s)` */
  function Operation(f: Word, a: Word, b: Word, x: Word, t: Word, s: nat): Word
    requires 0 < s < 32
  {
    Sum(b, Rotate(Sum(a, Sum(Sum(f, x), t)), s))
  }

  /** Addition modulo 2^32. */
  function Sum(x: Word, y: Word): Word { x + y }

  /** One operation: the first register gets a new value, and the registers move round by one place. */
  function Step(i: nat, s: State, x: seq<Word>): State
    requires i < 64 && |x| == 16
  {
    State(s.d, Operation(Auxiliary(i, s.b, s.c, s.d), s.a, s.b, x[WordIndex(i)], Sine(i), ShiftOf(i)), s.b, s.c)
  }

  function Steps(n: nat, s: State, x: seq<Word>): State
    requires n <= 64 && |x| == 16
  {
    if n == 0 then s else Step(n - 1, Steps(n - 1, s, x), x)
  }

  function LittleWord(b: seq<Byte>): Word
    requires |b| == 4
  {
    (b[0] as Word) | ((b[1] as Word) << 8) | ((b[2] as Word) << 16) | ((b[3] as Word) << 24)
  }

  function Words(block: seq<Byte>): (x: seq<Word>)
    requires |block| == BLOCK
    ensures |x| == 16
  {
    seq(16, i requires 0 <= i < 16 => LittleWord(block[4 * i..4 * i + 4]))
  }

  function Plus(s: State, t: State): State { State(Sum(s.a, t.a), Sum(s.b, t.b), Sum(s.c, t.c), Sum(s.d, t.d)) }

  function Compress(s: State, block: seq<Byte>): State {
    if |block| == BLOCK then Plus(Steps(64, s, Words(block)), s) else s
  }

  /** The low-order byte first. */
  function LittleBytes(w: Word): seq<Byte> {
    [(w & 0xff) as Byte, ((w >> 8) & 0xff) as Byte, ((w >> 16) & 0xff) as Byte, ((w >> 24) & 0xff) as Byte]
  }

  function Output(s: State): seq<Byte> { LittleBytes(s.a) + LittleBytes(s.b) + LittleBytes(s.c) + LittleBytes(s.d) }

  /** The digest of a message: sections 3.1 to 3.5; the length in bits counts modulo 2^64. */
  function Digest(m: seq<Byte>): seq<Byte> {
    Output(Fold(Compress, INITIAL, Padded(m, LittleEndian64(8 * |m| % 0x1_0000_0000_0000_0000))))
  }

  // ----- the operations as the source writes them -----

  /** The macros F, G, H, H2 and I, in the order the steps use them. */
  function Macro(i: nat, x: Word, y: Word, z: Word): Word {
    if i < 16 then z ^ (x & (y ^ z))
    else if i < 32 then y ^ (z & (x ^ y))
    else if i < 48 then if i % 2 == 0 then (x ^ y) ^ z else x ^ (y ^ z)
    else y ^ (x | !z)
  }

  /** The macro STEP. */
  function StepMacro(f: Word, a: Word, b: Word, x: Word, t: Word, s: nat): Word
    requires 0 < s < 32
  {
    var a1 := Sum(a, Sum(Sum(f, x), t));
    var a2 := RotateMacro(a1, s);
    Sum(a2, b)
  }

  function RotateMacro(a: Word, s: nat): Word
    requires 0 < s < 32
  {
    (a << s) | ((a & 0xffffffff) >> (32 - s))
  }

  /** The message words in the order in which the steps of a round name them. */
  function Listed(round: nat): (k: seq<nat>)
    ensures |k| == 16 && forall i :: 0 <= i < 16 ==> k[i] < 16
  {
    if round == 0 then [0, 1, 2, 3, 4, 5, 6, 7, 8, 9, 10, 11, 12, 13, 14, 15]
    else if round == 1 then [1, 6, 11, 0, 5, 10, 15, 4, 9, 14, 3, 8, 13, 2, 7, 12]
    else if round == 2 then [5, 8, 11, 14, 1, 4, 7, 10, 13, 0, 3, 6, 9, 12, 15, 2]
    else [0, 7, 14, 5, 12, 3, 10, 1, 8, 15, 6, 13, 4, 11, 2, 9]
  }

  lemma {:induction false} MacroIsAuxiliary(i: nat, x: Word, y: Word, z: Word)
    ensures Macro(i, x, y, z) == Auxiliary(i, x, y, z)
  {
    MacroF(x, y, z);
    MacroG(x, y, z);
    MacroH(x, y, z);
    MacroI(x, y, z);
    hide F, G, H, I;
  }

  lemma {:induction false} MacroF(x: Word, y: Word, z: Word)
    ensures z ^ (x & (y ^ z)) == F(x, y, z)
  {
  }

  lemma {:induction false} MacroG(x: Word, y: Word, z: Word)
    ensures y ^ (z & (x ^ y)) == G(x, y, z)
  {
  }

  lemma {:induction false} MacroH(x: Word, y: Word, z: Word)
    ensures (x ^ y) ^ z == H(x, y, z) && x ^ (y ^ z) == H(x, y, z)
  {
  }

  lemma {:induction false} MacroI(x: Word, y: Word, z: Word)
    ensures y ^ (x | !z) == I(x, y, z)
  {
  }

  lemma {:induction false} StepMacroMeans(f: Word, a: Word, b: Word, x: Word, t: Word, s: nat)
    requires 0 < s < 32
    ensures StepMacro(f, a, b, x, t, s) == Operation(f, a, b, x, t, s)
  {
    hide Sum, Rotate, RotateMacro;
    RotateMacroMeans(Sum(a, Sum(Sum(f, x), t)), s);
    Commutes(Rotate(Sum(a, Sum(Sum(f, x), t)), s), b);
  }

  lemma {:induction false} Commutes(a: Word, b: Word)
    ensures Sum(a, b) == Sum(b, a)
  {
  }

  lemma {:induction false} RotateMacroMeans(a: Word, s: nat)
    requires 0 < s < 32
    ensures RotateMacro(a, s) == Rotate(a, s)
  {
    AllOnes(a);
  }

  lemma {:induction false} AllOnes(a: Word)
    ensures a & 0xffffffff == a
  {
  }

  /** The listed words follow the rule: i, 5i + 1, 3i + 5 and 7i modulo 16. */
  lemma {:induction false} ListedIsIndex(round: nat, j: nat)
    requires round < 4 && j < 16
    ensures Listed(round)[j] == WordIndex(16 * round + j)
  {
    if round == 1 {
      ListedSecond(j);
    } else if round == 2 {
      ListedThird(j);
    } else if round == 3 {
      ListedFourth(j);
    } else {
      assert j == 0 || j == 1 || j == 2 || j == 3 || j == 4 || j == 5 || j == 6 || j == 7
        || j == 8 || j == 9 || j == 10 || j == 11 || j == 12 || j == 13 || j == 14 || j == 15;
    }
  }

  lemma {:induction false} ListedSecond(j: nat)
    requires j < 16
    ensures Listed(1)[j] == WordIndex(16 + j)
  {
    assert j == 0 || j == 1 || j == 2 || j == 3 || j == 4 || j == 5 || j == 6 || j == 7
      || j == 8 || j == 9 || j == 10 || j == 11 || j == 12 || j == 13 || j == 14 || j == 15;
  }

  lemma {:induction false} ListedThird(j: nat)
    requires j < 16
    ensures Listed(2)[j] == WordIndex(32 + j)
  {
    assert j == 0 || j == 1 || j == 2 || j == 3 || j == 4 || j == 5 || j == 6 || j == 7
      || j == 8 || j == 9 || j == 10 || j == 11 || j == 12 || j == 13 || j == 14 || j == 15;
  }

  lemma {:induction false} ListedFourth(j: nat)
    requires j < 16
    ensures Listed(3)[j] == WordIndex(48 + j)
  {
    assert j == 0 || j == 1 || j == 2 || j == 3 || j == 4 || j == 5 || j == 6 || j == 7
      || j == 8 || j == 9 || j == 10 || j == 11 || j == 12 || j == 13 || j == 14 || j == 15;
  }

  // ----- one block -----

  /** Four steps bring the registers back to their places. */
  lemma {:induction false} FourSteps(n: nat, s: State, x: seq<Word>)
    requires n + 4 <= 64 && |x| == 16
    ensures Steps(n + 4, s, x) == Step(n + 3, Step(n + 2, Step(n + 1, Step(n, Steps(n, s, x), x), x), x), x)
  {
    hide Step;
    assert Steps(n + 4, s, x) == Step(n + 3, Steps(n + 3, s, x), x);
    assert Steps(n + 3, s, x) == Step(n + 2, Steps(n + 2, s, x), x);
    assert Steps(n + 2, s, x) == Step(n + 1, Steps(n + 1, s, x), x);
  }

  /** One line of the source's listing is one operation of the standard. */
  lemma {:induction false} LineIsStep(round: nat, j: nat, i: nat, s: State, x: seq<Word>)
    requires round < 4 && j < 16 && |x| == 16 && i == 16 * round + j
    ensures Step(i, s, x) == State(s.d, StepMacro(Macro(i, s.b, s.c, s.d), s.a, s.b, x[Listed(round)[j]], Sine(i),
                                                  Shifts(round)[j % 4]), s.b, s.c)
  {
    hide Macro, Auxiliary, StepMacro, Operation, Listed, WordIndex, Shifts, Sine;
    MacroIsAuxiliary(i, s.b, s.c, s.d);
    ListedIsIndex(round, j);
    StepMacroMeans(Macro(i, s.b, s.c, s.d), s.a, s.b, x[Listed(round)[j]], Sine(i), Shifts(round)[j % 4]);
    assert i / 16 == round && i % 4 == j % 4;
  }

  class Md5Context {
    var lo: nat
    var hi: nat
    var a: Word
    var b: Word
    var c: Word
    var d: Word
    const buffer: array<Byte>
    /** Everything hashed so far. */
    ghost var fed: seq<Byte>

    /** The counters, the registers and the buffer are what they have to be after the bytes fed so far. */
    ghost predicate Valid()
      reads this, buffer
    {
      && buffer.Length == BLOCK && Counted(lo, hi, |fed|)
      && Registers() == Fold(Compress, INITIAL, Whole(fed))
      && buffer[..|Rest(fed)|] == Rest(fed)
    }

    /** `MD5_begin` */
    constructor ()
      ensures Valid() && fresh(buffer) && fed == []
    {
      buffer := new Byte[BLOCK];
      a, b, c, d := 0x67452301, 0xefcdab89, 0x98badcfe, 0x10325476;
      lo, hi := 0, 0;
      fed := [];
    }

    /** The start of `MD5_hash`: the counters move on; how much of the buffer is in use. */
    method Count(size: nat) returns (used: nat)
      requires Counted(lo, hi, |fed|)
      modifies this`lo, this`hi
      ensures Counted(lo, hi, |fed| + size) && used == |Rest(fed)|
    {
      CountedMore(lo, hi, |fed|, size);
      UsedIsRest(lo, hi, fed);
      var savedLo := lo;
      lo := (savedLo + size) % 0x2000_0000;
      if lo < savedLo {
        hi := (hi + 1) % 0x1_0000_0000;
      }
      hi := (hi + size / 0x2000_0000) % 0x1_0000_0000;
      used := savedLo % BLOCK;
    }

    /** `MD5_hash` */
    method Hash(data: seq<Byte>)
      requires Valid()
      modifies this, buffer
      ensures Valid() && fed == old(fed) + data
    {
      hide Compress, Whole, Rest, Fold, Counted;
      var used := Count(|data|);
      ghost var m := fed;
      fed := m + data;
      Absorbed(Compress, INITIAL, m, data);
      if used == 0 {
        Blocks(data);
      } else if |data| < BLOCK - used {
        Copy(used, data);
        RestGrows(m, data);
        assert buffer[..used] == Rest(m);
      } else {
        var available := BLOCK - used;
        Copy(used, data[..available]);
        assert buffer[..] == Rest(m) + data[..available];
        Body(buffer[..]);
        Blocks(data[available..]);
      }
    }

    /** The end of `MD5_hash`: whole blocks straight from the data, the rest into the buffer. */
    method Blocks(data: seq<Byte>)
      requires buffer.Length == BLOCK
      modifies this`a, this`b, this`c, this`d, buffer
      ensures Registers() == Fold(Compress, old(Registers()), Whole(data))
      ensures buffer[..|Rest(data)|] == Rest(data)
    {
      hide Compress, Fold, Whole, Rest;
      WholeAndRest(data);
      FoldNothing(Compress, Registers());
      var size, pos := |data|, 0;
      if size >= BLOCK {
        var more := size - size % BLOCK;
        Body(data[..more]);
        pos, size := more, size % BLOCK;
      }
      Copy(0, data[pos..]);
    }

    /** `MD5_end`: the digest of everything fed, and a cleared context. */
    method End() returns (result: seq<Byte>)
      requires Valid()
      modifies this, buffer
      ensures result == Digest(old(fed))
    {
      hide Compress, Whole, Rest, Fold, Counted, LittleEndian64, Output, Truncated;
      ghost var m, length := fed, LittleEndian64(8 * |fed| % 0x1_0000_0000_0000_0000);
      UsedIsRest(lo, hi, m);
      LengthBytes(lo, hi, |m|);
      PaddedFold(Compress, INITIAL, m, length);
      var used := lo % BLOCK;
      buffer[used] := 0x80;
      used := used + 1;
      var available := BLOCK - used;
      if available < 8 {
        Clear(used, available);
        assert buffer[..] == FirstOfTwo(Rest(m));
        Body(buffer[..]);
        used, available := 0, BLOCK;
      }
      Clear(used, available - 8);
      assert |Rest(m)| < 56 ==> buffer[..56] == Rest(m) + [0x80] + Zeros(55 - |Rest(m)|);
      assert |Rest(m)| >= 56 ==> buffer[..56] == Zeros(56);
      WriteLength();
      assert buffer[..] == if |Rest(m)| < 56 then OneBlock(Rest(m), length) else SecondOfTwo(length);
      Body(buffer[..]);
      result := Output(Registers());
      lo, hi, a, b, c, d := 0, 0, 0, 0, 0, 0;
      Clear(0, BLOCK);
    }

    /** The length in bits goes into the last eight bytes; lo has room for the three bits more. */
    method WriteLength()
      requires buffer.Length == BLOCK && lo < 0x2000_0000
      modifies this`lo, buffer
      ensures buffer[..] == old(buffer[..56]) + LengthOf(old(lo), hi)
    {
      lo := lo * 8 % 0x1_0000_0000;
      buffer[56], buffer[57], buffer[58], buffer[59] := Truncated(lo), Truncated(lo / 0x100), Truncated(lo / 0x1_0000),
        Truncated(lo / 0x100_0000);
      buffer[60], buffer[61], buffer[62], buffer[63] := Truncated(hi), Truncated(hi / 0x100), Truncated(hi / 0x1_0000),
        Truncated(hi / 0x100_0000);
    }

    /** `memset` of a part of the buffer to zero. */
    method Clear(at: nat, n: nat)
      requires at + n <= buffer.Length
      modifies buffer
      ensures buffer[..] == old(buffer[..at]) + Zeros(n) + old(buffer[at + n..])
    {
      forall i | 0 <= i < n {
        buffer[at + i] := 0;
      }
    }

    /** `memcpy` into the buffer. */
    method Copy(at: nat, data: seq<Byte>)
      requires at + |data| <= buffer.Length
      modifies buffer
      ensures buffer[..] == old(buffer[..at]) + data + old(buffer[at + |data|..])
    {
      forall i | 0 <= i < |data| {
        buffer[at + i] := data[i];
      }
    }

    function Registers(): State
      reads this
    {
      State(a, b, c, d)
    }

    /** `MD5_body`: every whole block of the data, one after the other. */
    method Body(data: seq<Byte>)
      requires |data| > 0 && |data| % BLOCK == 0
      modifies this`a, this`b, this`c, this`d
      ensures Registers() == Fold(Compress, old(Registers()), data)
    {
      hide Compress;
      var ptr := 0;
      assert data[..0] == [];
      while ptr < |data|
        invariant 0 <= ptr <= |data| && ptr % BLOCK == 0
        invariant Registers() == Fold(Compress, old(Registers()), data[..ptr])
      {
        ghost var block := data[ptr..ptr + BLOCK];
        assert data[..ptr + BLOCK] == data[..ptr] + block;
        FoldConcat(Compress, old(Registers()), data[..ptr], block);
        FoldOne(Compress, Registers(), block);
        Block(data[ptr..ptr + BLOCK]);
        ptr := ptr + BLOCK;
      }
      assert data[..|data|] == data;
    }

    /** One block: the four rounds, four steps to a line, and the saved registers added. */
    method Block(block: seq<Byte>)
      requires |block| == BLOCK
      modifies this`a, this`b, this`c, this`d
      ensures Registers() == Compress(old(Registers()), block)
    {
      hide Steps, Words, Sum;
      var x := Words(block);
      var savedA, savedB, savedC, savedD := a, b, c, d;
      ghost var saved := Registers();
      NoSteps(saved, x);
      for row := 0 to 16
        invariant Registers() == Steps(4 * row, saved, x)
      {
        Line(row, x, saved);
      }
      a, b, c, d := Sum(a, savedA), Sum(b, savedB), Sum(c, savedC), Sum(d, savedD);
    }

    /** Four STEPs in a row. */
    method Line(row: nat, x: seq<Word>, ghost saved: State)
      requires row < 16 && |x| == 16 && Registers() == Steps(4 * row, saved, x)
      modifies this`a, this`b, this`c, this`d
      ensures Registers() == Steps(4 * row + 4, saved, x)
    {
      hide Steps, Step, StepMacro, Macro, Listed, Shifts, Sine;
      var j, i, k, s := row % 4 * 4, 4 * row, Listed(row / 4), Shifts(row / 4);
      LineIsSteps(row, Registers(), saved, x);
      a := StepMacro(Macro(i, b, c, d), a, b, x[k[j]], Sine(i), s[0]);
      d := StepMacro(Macro(i + 1, a, b, c), d, a, x[k[j + 1]], Sine(i + 1), s[1]);
      c := StepMacro(Macro(i + 2, d, a, b), c, d, x[k[j + 2]], Sine(i + 2), s[2]);
      b := StepMacro(Macro(i + 3, c, d, a), b, c, x[k[j + 3]], Sine(i + 3), s[3]);
    }
  }

  /** The registers after the four STEPs of a line. */
  function Lined(row: nat, s: State, x: seq<Word>): State
    requires row < 16 && |x| == 16
  {
    var j, i, k, r := row % 4 * 4, 4 * row, Listed(row / 4), Shifts(row / 4);
    var a := StepMacro(Macro(i, s.b, s.c, s.d), s.a, s.b, x[k[j]], Sine(i), r[0]);
    var d := StepMacro(Macro(i + 1, a, s.b, s.c), s.d, a, x[k[j + 1]], Sine(i + 1), r[1]);
    var c := StepMacro(Macro(i + 2, d, a, s.b), s.c, d, x[k[j + 2]], Sine(i + 2), r[2]);
    var b := StepMacro(Macro(i + 3, c, d, a), s.b, c, x[k[j + 3]], Sine(i + 3), r[3]);
    State(a, b, c, d)
  }

  lemma {:induction false} LineIsSteps(row: nat, s: State, saved: State, x: seq<Word>)
    requires row < 16 && |x| == 16 && s == Steps(4 * row, saved, x)
    ensures Lined(row, s, x) == Steps(4 * row + 4, saved, x)
  {
    hide Steps, Step, StepMacro, Macro, Listed, Shifts, Sine;
    var round, j, i := row / 4, row % 4 * 4, 4 * row;
    FourSteps(i, saved, x);
    assert i == 16 * round + j;
    LineIsStep(round, j, i, s, x);
    LineIsStep(round, j + 1, i + 1, Step(i, s, x), x);
    LineIsStep(round, j + 2, i + 2, Step(i + 1, Step(i, s, x), x), x);
    LineIsStep(round, j + 3, i + 3, Step(i + 2, Step(i + 1, Step(i, s, x), x), x), x);
  }

  /** The two counters hold the length in bytes: 29 bits in lo, the rest in hi. */
  predicate Counted(lo: nat, hi: nat, n: nat) { lo == n % 0x2000_0000 && hi == n / 0x2000_0000 % 0x1_0000_0000 }

  /** The carry out of lo is what the source's comparison finds. */
  lemma {:induction false} CountedMore(lo: nat, hi: nat, n: nat, size: nat)
    requires Counted(lo, hi, n)
    ensures var lo' := (lo + size) % 0x2000_0000;
            var carried := if lo' < lo then (hi + 1) % 0x1_0000_0000 else hi;
            Counted(lo', (carried + size / 0x2000_0000) % 0x1_0000_0000, n + size)
  {
    var q, s := n / 0x2000_0000, size / 0x2000_0000;
    LowParts(n, size);
    ModSum(q, if (lo + size) % 0x2000_0000 < lo then 1 else 0, s);
  }

  lemma {:induction false} LowParts(n: nat, size: nat)
    ensures var lo := n % 0x2000_0000; var lo' := (lo + size) % 0x2000_0000;
            && lo' == (n + size) % 0x2000_0000
            && (n + size) / 0x2000_0000 == n / 0x2000_0000 + (if lo' < lo then 1 else 0) + size / 0x2000_0000
  {
    var q, lo := n / 0x2000_0000, n % 0x2000_0000;
    var s, t := size / 0x2000_0000, size % 0x2000_0000;
    assert n == 0x2000_0000 * q + lo && size == 0x2000_0000 * s + t;
    if lo + t < 0x2000_0000 {
      assert n + size == 0x2000_0000 * (q + s) + (lo + t) && lo + size == 0x2000_0000 * s + (lo + t);
    } else {
      assert n + size == 0x2000_0000 * (q + s + 1) + (lo + t - 0x2000_0000)
             && lo + size == 0x2000_0000 * (s + 1) + (lo + t - 0x2000_0000);
    }
  }

  lemma {:induction false} ModSum(q: nat, c: nat, s: nat)
    requires c <= 1
    ensures var hi := q % 0x1_0000_0000; var carried := if c == 1 then (hi + 1) % 0x1_0000_0000 else hi;
            (carried + s) % 0x1_0000_0000 == (q + c + s) % 0x1_0000_0000
  {
    var p, hi := q / 0x1_0000_0000, q % 0x1_0000_0000;
    assert q + c + s == 0x1_0000_0000 * p + (hi + c + s);
    var u := (hi + c) / 0x1_0000_0000;
    assert hi + c == 0x1_0000_0000 * u + (hi + c) % 0x1_0000_0000;
    assert hi + c + s == 0x1_0000_0000 * u + ((hi + c) % 0x1_0000_0000 + s);
  }

  lemma {:induction false} UsedIsRest(lo: nat, hi: nat, m: seq<Byte>)
    requires Counted(lo, hi, |m|)
    ensures lo % BLOCK == |Rest(m)|
  {
    hide Rest;
    var q := |m| / 0x2000_0000;
    assert |m| == BLOCK * (0x80_0000 * q) + lo;
    SameRemainder(0x80_0000 * q, lo);
    assert |Rest(m)| == |m| % BLOCK;
  }

  lemma {:induction false} NoSteps(s: State, x: seq<Word>)
    requires |x| == 16
    ensures Steps(0, s, x) == s
  {
  }

  function LengthOf(lo: nat, hi: nat): seq<Byte> {
    var bits := lo * 8 % 0x1_0000_0000;
    [Truncated(bits), Truncated(bits / 0x100), Truncated(bits / 0x1_0000), Truncated(bits / 0x100_0000),
     Truncated(hi), Truncated(hi / 0x100), Truncated(hi / 0x1_0000), Truncated(hi / 0x100_0000)]
  }

  /** The eight bytes the source writes are the length in bits modulo 2^64, low-order byte first. */
  lemma {:induction false} LengthBytes(lo: nat, hi: nat, n: nat)
    requires Counted(lo, hi, n)
    ensures LengthOf(lo, hi) == LittleEndian64(8 * n % 0x1_0000_0000_0000_0000) && lo < 0x2000_0000
  {
    hide Truncated, ByteOf;
    BitsOf(lo, hi, n);
    BytesOf64(8 * lo, hi);
    FourBytes(8 * lo);
    FourBytes(hi);
  }

  lemma {:induction false} BitsOf(lo: nat, hi: nat, n: nat)
    requires Counted(lo, hi, n)
    ensures 8 * n % 0x1_0000_0000_0000_0000 == 8 * lo + hi * 0x1_0000_0000 && lo < 0x2000_0000
    ensures lo * 8 % 0x1_0000_0000 == 8 * lo
  {
    var q := n / 0x2000_0000;
    var p := q / 0x1_0000_0000;
    assert n == lo + 0x2000_0000 * q && q == 0x1_0000_0000 * p + hi;
    assert 8 * n == 0x1_0000_0000_0000_0000 * p + (8 * lo + hi * 0x1_0000_0000);
  }

  /** `md5_hash`: however a message is cut into chunks, the result is the digest of the whole. */
  method Md5Hash(chunks: seq<seq<Byte>>) returns (result: seq<Byte>)
    ensures result == Digest(Concat(chunks))
  {
    hide Digest;
    var context := new Md5Context();
    assert chunks[..0] == [];
    for k := 0 to |chunks|
      invariant fresh(context) && fresh(context.buffer)
      invariant context.Valid() && context.fed == Concat(chunks[..k])
    {
      ConcatMore(chunks, k);
      context.Hash(chunks[k]);
    }
    assert chunks[..|chunks|] == chunks;
    result := context.End();
  }
}
