/**
 SHA-256 as scripts/mkhash.c computes it, chunk by chunk and with a rotating set of
 working variables, and as FIPS 180-4 defines it on a whole message.
 */
module Sha256 {
  import opened Blocks

  // ----- FIPS 180-4, sections 4.1.2, 4.2.2 and 6.2.2 -----

  /** Addition modulo 2^32. */
  function Sum(x: Word, y: Word): Word { x + y }

  function RotateRight(x: Word, n: nat): Word
    requires 0 < n < 32
  {
    (x >> n) | (x << (32 - n))
  }

  function Ch(x: Word, y: Word, z: Word): Word { (x & y) ^ (!x & z) }

  function Maj(x: Word, y: Word, z: Word): Word { (x & y) ^ (x & z) ^ (y & z) }

  function BigSigma0(x: Word): Word { RotateRight(x, 2) ^ RotateRight(x, 13) ^ RotateRight(x, 22) }

  function BigSigma1(x: Word): Word { RotateRight(x, 6) ^ RotateRight(x, 11) ^ RotateRight(x, 25) }

  function SmallSigma0(x: Word): Word { RotateRight(x, 7) ^ RotateRight(x, 18) ^ (x >> 3) }

  function SmallSigma1(x: Word): Word { RotateRight(x, 17) ^ RotateRight(x, 19) ^ (x >> 10) }

  const CONSTANTS: seq<seq<Word>> := [
    [0x428a2f98, 0x71374491, 0xb5c0fbcf, 0xe9b5dba5, 0x3956c25b, 0x59f111f1, 0x923f82a4, 0xab1c5ed5],
    [0xd807aa98, 0x12835b01, 0x243185be, 0x550c7dc3, 0x72be5d74, 0x80deb1fe, 0x9bdc06a7, 0xc19bf174],
    [0xe49b69c1, 0xefbe4786, 0x0fc19dc6, 0x240ca1cc, 0x2de92c6f, 0x4a7484aa, 0x5cb0a9dc, 0x76f988da],
    [0x983e5152, 0xa831c66d, 0xb00327c8, 0xbf597fc7, 0xc6e00bf3, 0xd5a79147, 0x06ca6351, 0x14292967],
    [0x27b70a85, 0x2e1b2138, 0x4d2c6dfc, 0x53380d13, 0x650a7354, 0x766a0abb, 0x81c2c92e, 0x92722c85],
    [0xa2bfe8a1, 0xa81a664b, 0xc24b8b70, 0xc76c51a3, 0xd192e819, 0xd6990624, 0xf40e3585, 0x106aa070],
    [0x19a4c116, 0x1e376c08, 0x2748774c, 0x34b0bcb5, 0x391c0cb3, 0x4ed8aa4a, 0x5b9cca4f, 0x682e6ff3],
    [0x748f82ee, 0x78a5636f, 0x84c87814, 0x8cc70208, 0x90befffa, 0xa4506ceb, 0xbef9a3f7, 0xc67178f2]
  ]

  function K(t: nat): Word {
    if t / 8 < |CONSTANTS| && t % 8 < |CONSTANTS[t / 8]| then CONSTANTS[t / 8][t % 8] else 0
  }

  /** The eight working variables a to h. */
  type State = s: seq<Word> | |s| == 8 witness [0, 0, 0, 0, 0, 0, 0, 0]

  const INITIAL: State :=
    [0x6a09e667, 0xbb67ae85, 0x3c6ef372, 0xa54ff53a, 0x510e527f, 0x9b05688c, 0x1f83d9ab, 0x5be0cd19]

  /** High-order byte first. */
  function BigWord(b: seq<Byte>): Word
    requires |b| == 4
  {
    (Widened(b[0]) << 24) | (Widened(b[1]) << 16) | (Widened(b[2]) << 8) | Widened(b[3])
  }

  function Widened(b: Byte): Word { b as Word }

  /** The message schedule. */
  function W(block: seq<Byte>, t: nat): Word
    requires |block| == BLOCK
  {
    if t < 16 then BigWord(block[4 * t..4 * t + 4])
    else Sum(Sum(Sum(SmallSigma1(W(block, t - 2)), W(block, t - 7)), SmallSigma0(W(block, t - 15))), W(block, t - 16))
  }

  function T1(s: State, w: Word, k: Word): Word {
    Sum(s[7], Sum(Sum(Sum(BigSigma1(s[4]), Ch(s[4], s[5], s[6])), w), k))
  }

  function T2(s: State): Word { Sum(BigSigma0(s[0]), Maj(s[0], s[1], s[2])) }

  /** One round: two variables get new values, the others move down by one. */
  function Round(s: State, w: Word, k: Word): State {
    [Sum(T1(s, w, k), T2(s)), s[0], s[1], s[2], Sum(s[3], T1(s, w, k)), s[4], s[5], s[6]]
  }

  function Rounds(n: nat, s: State, block: seq<Byte>): State
    requires |block| == BLOCK
  {
    if n == 0 then s else Round(Rounds(n - 1, s, block), W(block, n - 1), K(n - 1))
  }

  function Plus(s: State, t: State): State {
    [Sum(s[0], t[0]), Sum(s[1], t[1]), Sum(s[2], t[2]), Sum(s[3], t[3]), Sum(s[4], t[4]), Sum(s[5], t[5]),
     Sum(s[6], t[6]), Sum(s[7], t[7])]
  }

  function Compress(s: State, block: seq<Byte>): State {
    if |block| == BLOCK then Plus(s, Rounds(64, s, block)) else s
  }

  function BigBytes(w: Word): (b: seq<Byte>)
    ensures |b| == 4
  {
    [((w >> 24) & 0xff) as Byte, ((w >> 16) & 0xff) as Byte, ((w >> 8) & 0xff) as Byte, (w & 0xff) as Byte]
  }

  function Output(s: seq<Word>): seq<Byte> { if s == [] then [] else BigBytes(s[0]) + Output(s[1..]) }

  /** The digest of a message; beyond the standard's limit the length counts modulo 2^64. */
  function Digest(m: seq<Byte>): seq<Byte> {
    Output(Fold(Compress, INITIAL, Padded(m, BigEndian64(8 * |m| % 0x1_0000_0000_0000_0000))))
  }

  // ----- the operations as the source writes them -----

  function ChMacro(x: Word, y: Word, z: Word): Word { (x & (y ^ z)) ^ z }

  function MajMacro(x: Word, y: Word, z: Word): Word { (x & (y | z)) | (y & z) }

  lemma {:induction false} ChMacroMeans(x: Word, y: Word, z: Word)
    ensures ChMacro(x, y, z) == Ch(x, y, z)
  {
    ChBits(x, y, z);
  }

  lemma {:induction false} ChBits(x: Word, y: Word, z: Word)
    ensures (x & (y ^ z)) ^ z == (x & y) ^ (!x & z)
  {
  }

  lemma {:induction false} MajMacroMeans(x: Word, y: Word, z: Word)
    ensures MajMacro(x, y, z) == Maj(x, y, z)
  {
    MajBits(x, y, z);
  }

  lemma {:induction false} MajBits(x: Word, y: Word, z: Word)
    ensures (x & (y | z)) | (y & z) == (x & y) ^ (x & z) ^ (y & z)
  {
  }

  /** `be32dec`, out of two 16-bit halves. */
  function Decode16(b0: Byte, b1: Byte): Word { (Widened(b0) << 8) | Widened(b1) }

  function Decode32(b: seq<Byte>): Word
    requires |b| == 4
  {
    (Decode16(b[0], b[1]) << 16) | Decode16(b[2], b[3])
  }

  lemma {:induction false} Decode32Means(b: seq<Byte>)
    requires |b| == 4
    ensures Decode32(b) == BigWord(b)
  {
    hide Widened;
    DecodeBits(Widened(b[0]), Widened(b[1]), Widened(b[2]), Widened(b[3]));
  }

  lemma {:induction false} DecodeBits(b0: Word, b1: Word, b2: Word, b3: Word)
    ensures (((b0 << 8) | b1) << 16) | ((b2 << 8) | b3) == (b0 << 24) | (b1 << 16) | (b2 << 8) | b3
  {
  }

  // ----- one block -----

  /** Where working variable j is after t rounds, when the variables stay and the roles move. */
  function Place(t: nat, j: nat): (i: nat)
    requires t <= 64
    ensures i < 8
  {
    (64 - t + j) % 8
  }

  /** The rotating array holds the working variables. */
  ghost predicate Holds(r: seq<Word>, t: nat, s: State)
    requires t <= 64
  {
    |r| == 8 && forall j: nat :: j < 8 ==> r[Place(t, j)] == s[j]
  }

  /** What RND stores: into h the sum of the two temporary words, into d the sum with the first. */
  function Rnd(r: seq<Word>, t: nat, w: Word): seq<Word>
    requires |r| == 8 && t < 64
  {
    var h := Sum(r[Place(t, 7)], Sum(Sum(Sum(BigSigma1(r[Place(t, 4)]),
                                             ChMacro(r[Place(t, 4)], r[Place(t, 5)], r[Place(t, 6)])), w), K(t)));
    var d := Sum(r[Place(t, 3)], h);
    var h' := Sum(h, Sum(BigSigma0(r[Place(t, 0)]), MajMacro(r[Place(t, 0)], r[Place(t, 1)], r[Place(t, 2)])));
    r[Place(t, 3) := d][Place(t, 7) := h']
  }

  lemma {:induction false} PlaceMoves(t: nat, j: nat)
    requires t < 64 && j < 8
    ensures Place(t + 1, j) == if j == 0 then Place(t, 7) else Place(t, j - 1)
    ensures forall k: nat :: k < 8 && k != j ==> Place(t, k) != Place(t, j)
  {
    if j == 0 {
      OnceAround(63 - t);
    }
    forall k: nat | k < 8 && k != j ensures Place(t, k) != Place(t, j) {
      WithinEight(64 - t + k, 64 - t + j);
      WithinEight(64 - t + j, 64 - t + k);
    }
  }

  lemma {:induction false} OnceAround(n: nat)
    ensures (n + 8) % 8 == n % 8
  {
  }

  lemma {:induction false} WithinEight(m: nat, n: nat)
    ensures m < n < m + 8 ==> m % 8 != n % 8
  {
    assert m == 8 * (m / 8) + m % 8 && n == 8 * (n / 8) + n % 8;
  }

  /** A round on the rotating array is a round of the standard. */
  lemma {:induction false} RndIsRound(r: seq<Word>, t: nat, s: State, w: Word)
    requires t < 64 && Holds(r, t, s)
    ensures Holds(Rnd(r, t, w), t + 1, Round(s, w, K(t)))
  {
    hide Sum, BigSigma0, BigSigma1, Ch, Maj, ChMacro, MajMacro, K, Place;
    ChMacroMeans(s[4], s[5], s[6]);
    MajMacroMeans(s[0], s[1], s[2]);
    assert Rnd(r, t, w) == r[Place(t, 3) := Sum(s[3], T1(s, w, K(t)))][Place(t, 7) := Sum(T1(s, w, K(t)), T2(s))];
    RolesMove(r, t, s, Sum(s[3], T1(s, w, K(t))), Sum(T1(s, w, K(t)), T2(s)));
  }

  lemma {:induction false} RolesMove(r: seq<Word>, t: nat, s: State, e: Word, a: Word)
    requires t < 64 && Holds(r, t, s)
    ensures Holds(r[Place(t, 3) := e][Place(t, 7) := a], t + 1, [a, s[0], s[1], s[2], e, s[4], s[5], s[6]])
  {
    hide Place;
    var r' := r[Place(t, 3) := e][Place(t, 7) := a];
    var s' := [a, s[0], s[1], s[2], e, s[4], s[5], s[6]];
    PlaceMoves(t, 3);
    PlaceMoves(t, 7);
    forall j: nat | j < 8 ensures r'[Place(t + 1, j)] == s'[j] {
      PlaceMoves(t, j);
    }
  }

  /** `SHA256_Transform`, on the array that the source passes as state. */
  method Transform(state: array<Word>, block: seq<Byte>)
    requires state.Length == 8 && |block| == BLOCK
    modifies state
    ensures state[..] == Compress(old(state[..]), block)
  {
    hide W, Rounds, Sum, Rnd, Place;
    var schedule := new Word[64];
    for t := 0 to 16
      invariant forall j :: 0 <= j < t ==> schedule[j] == W(block, j)
      invariant state[..] == old(state[..])
    {
      FirstWords(block, t);
      schedule[t] := Decode32(block[4 * t..4 * t + 4]);
    }
    ghost var start: State := state[..];
    var r := state[..];
    StartRounds(r, start, block);
    var i := 0;
    while true
      invariant 0 <= i <= 48 && i % 16 == 0
      invariant forall j :: 0 <= j < i + 16 ==> schedule[j] == W(block, j)
      invariant Holds(r, i, Rounds(i, start, block)) && state[..] == start
      decreases 64 - i
    {
      r := SixteenRounds(r, i, schedule, block, start);
      if i == 48 {
        break;
      }
      Extend(schedule, i, block);
      i := i + 16;
    }
    Home(r, Rounds(64, start, block));
    Mix(state, r);
  }

  /** Sixteen times RNDr. */
  method SixteenRounds(r0: seq<Word>, i: nat, schedule: array<Word>, ghost block: seq<Byte>, ghost start: State)
    returns (r: seq<Word>)
    requires i <= 48 && schedule.Length == 64 && |block| == BLOCK
    requires forall j :: 0 <= j < i + 16 ==> schedule[j] == W(block, j)
    requires Holds(r0, i, Rounds(i, start, block))
    ensures Holds(r, i + 16, Rounds(i + 16, start, block))
  {
    hide W, Rounds, Rnd, Round, Place;
    r := r0;
    for n := 0 to 16
      invariant Holds(r, i + n, Rounds(i + n, start, block))
    {
      RndIsRound(r, i + n, Rounds(i + n, start, block), schedule[i + n]);
      OneMoreRound(i + n, start, block);
      r := Rnd(r, i + n, schedule[i + n]);
    }
  }

  /** Sixteen times MSCH: the next part of the message schedule. */
  method Extend(schedule: array<Word>, i: nat, ghost block: seq<Byte>)
    requires i <= 32 && schedule.Length == 64 && |block| == BLOCK
    requires forall j :: 0 <= j < i + 16 ==> schedule[j] == W(block, j)
    modifies schedule
    ensures forall j :: 0 <= j < i + 32 ==> schedule[j] == W(block, j)
  {
    hide W, Sum, SmallSigma0, SmallSigma1;
    for n := 0 to 16
      invariant forall j :: 0 <= j < i + n + 16 ==> schedule[j] == W(block, j)
    {
      LaterWords(block, i + n + 16);
      schedule[i + n + 16] := Sum(Sum(Sum(SmallSigma1(schedule[i + n + 14]), schedule[i + n + 9]),
                                      SmallSigma0(schedule[i + n + 1])), schedule[i + n]);
    }
  }

  /** `state[i] += S[i]` for all eight. */
  method Mix(state: array<Word>, r: seq<Word>)
    requires state.Length == 8 && |r| == 8
    modifies state
    ensures state[..] == Plus(old(state[..]), r)
  {
    hide Sum;
    for i := 0 to 8
      invariant forall j :: 0 <= j < i ==> state[j] == Sum(old(state[j]), r[j])
      invariant forall j :: i <= j < 8 ==> state[j] == old(state[j])
    {
      state[i] := Sum(state[i], r[i]);
    }
  }

  lemma {:induction false} FirstWords(block: seq<Byte>, t: nat)
    requires |block| == BLOCK && t < 16
    ensures W(block, t) == Decode32(block[4 * t..4 * t + 4])
  {
    hide Decode32, BigWord;
    Decode32Means(block[4 * t..4 * t + 4]);
  }

  lemma {:induction false} LaterWords(block: seq<Byte>, t: nat)
    requires |block| == BLOCK && t >= 16
    ensures W(block, t) == Sum(Sum(Sum(SmallSigma1(W(block, t - 2)), W(block, t - 7)), SmallSigma0(W(block, t - 15))),
                               W(block, t - 16))
  {
  }

  lemma {:induction false} StartRounds(r: seq<Word>, s: State, block: seq<Byte>)
    requires r == s && |block| == BLOCK
    ensures Holds(r, 0, Rounds(0, s, block))
  {
  }

  lemma {:induction false} OneMoreRound(n: nat, s: State, block: seq<Byte>)
    requires |block| == BLOCK
    ensures Rounds(n + 1, s, block) == Round(Rounds(n, s, block), W(block, n), K(n))
  {
  }

  /** After 64 rounds every variable is back in its own place. */
  lemma {:induction false} Home(r: seq<Word>, s: State)
    requires Holds(r, 64, s)
    ensures r == s
  {
    forall j: nat | j < 8 ensures r[j] == s[j] {
      assert Place(64, j) == j;
    }
  }

  // ----- the context -----

  class Sha256Context {
    const state: array<Word>
    var count: nat
    const buf: array<Byte>
    /** Everything hashed so far. */
    ghost var fed: seq<Byte>

    ghost predicate Sized()
      reads this
    {
      state.Length == 8 && buf.Length == BLOCK
    }

    /** The bit count, the state and the buffer are what they have to be after the bytes fed so far. */
    ghost predicate Valid()
      reads this, state, buf
    {
      && Sized() && count == 8 * |fed| % 0x1_0000_0000_0000_0000
      && state[..] == Fold(Compress, INITIAL, Whole(fed)) && buf[..|Rest(fed)|] == Rest(fed)
    }

    /** `SHA256_Init` */
    constructor ()
      ensures Valid() && fresh(state) && fresh(buf) && fed == []
    {
      state := new Word[8] [0x6A09E667, 0xBB67AE85, 0x3C6EF372, 0xA54FF53A, 0x510E527F, 0x9B05688C, 0x1F83D9AB,
                            0x5BE0CD19];
      buf := new Byte[BLOCK];
      count := 0;
      fed := [];
      new;
      assert state[..] == INITIAL;
      FoldNothing(Compress, INITIAL);
    }

    /** The start of `SHA256_Update`: how much is buffered, and the new bit count. */
    method Count(len: nat) returns (r: nat)
      requires count == 8 * |fed| % 0x1_0000_0000_0000_0000
      modifies this`count
      ensures count == 8 * (|fed| + len) % 0x1_0000_0000_0000_0000 && r == |Rest(fed)|
    {
      CountBits(|fed|, len);
      r := count / 8 % BLOCK;
      var bitlen := len * 8 % 0x1_0000_0000_0000_0000;
      count := (count + bitlen) % 0x1_0000_0000_0000_0000;
    }

    /** `SHA256_Update` */
    method Update(data: seq<Byte>)
      requires Valid()
      modifies this, state, buf
      ensures Valid() && fed == old(fed) + data
    {
      hide Compress, Whole, Rest, Fold;
      var r := Count(|data|);
      ghost var m := fed;
      fed := m + data;
      Absorbed(Compress, INITIAL, m, data);
      if |data| < BLOCK - r {
        Copy(r, data);
        RestGrows(m, data);
        assert buf[..r] == Rest(m);
        return;
      }
      Copy(r, data[..BLOCK - r]);
      assert buf[..] == Rest(m) + data[..BLOCK - r];
      FoldOne<State>(Compress, state[..], buf[..]);
      Transform(state, buf[..]);
      Blocks(data[BLOCK - r..]);
    }

    /** The end of `SHA256_Update`: complete blocks straight from the data, the rest into the buffer. */
    method Blocks(data: seq<Byte>)
      requires Sized()
      modifies state, buf
      ensures state[..] == Fold<State>(Compress, old(state[..]), Whole(data))
      ensures buf[..|Rest(data)|] == Rest(data)
    {
      hide Compress, Fold, Whole, Rest;
      var src, len := 0, |data|;
      FoldNothing<State>(Compress, state[..]);
      assert data[..0] == [];
      while len >= BLOCK
        invariant 0 <= src && 0 <= len && src + len == |data| && src % BLOCK == 0
        invariant state[..] == Fold<State>(Compress, old(state[..]), data[..src])
      {
        ghost var block := data[src..src + BLOCK];
        assert data[..src + BLOCK] == data[..src] + block;
        FoldConcat<State>(Compress, old(state[..]), data[..src], block);
        FoldOne<State>(Compress, state[..], block);
        Transform(state, data[src..src + BLOCK]);
        src, len := src + BLOCK, len - BLOCK;
      }
      assert |data| % BLOCK == len;
      WholeAndRest(data);
      Copy(0, data[src..]);
    }

    /** `SHA256_Pad` */
    method Pad()
      requires Valid()
      modifies state, buf
      ensures state[..] == Fold(Compress, INITIAL, Padded(fed, BigEndian64(8 * |fed| % 0x1_0000_0000_0000_0000)))
    {
      hide Compress, Whole, Rest, Fold, BigEndian64, Padded;
      ghost var m, length := fed, BigEndian64(8 * |fed| % 0x1_0000_0000_0000_0000);
      CountBits(|fed|, 0);
      var r := count / 8 % BLOCK;
      PaddedFold(Compress, INITIAL, m, length);
      if r < 56 {
        Copy(r, [0x80] + Zeros(55 - r));
      } else {
        Copy(r, [0x80] + Zeros(63 - r));
        assert buf[..] == FirstOfTwo(Rest(m));
        FoldOne<State>(Compress, state[..], buf[..]);
        Transform(state, buf[..]);
        Copy(0, Zeros(56));
      }
      assert buf[..56] == if r < 56 then Rest(m) + [0x80] + Zeros(55 - r) else Zeros(56);
      EncodeCount(count);
      Copy(56, Encode64(count));
      assert buf[..] == if r < 56 then OneBlock(Rest(m), length) else SecondOfTwo(length);
      FoldOne<State>(Compress, state[..], buf[..]);
      Transform(state, buf[..]);
    }

    /** `SHA256_Final`: the digest of everything fed, and a cleared context. */
    method Final() returns (digest: seq<Byte>)
      requires Valid()
      modifies this, state, buf
      ensures digest == Digest(old(fed))
    {
      hide Compress, Fold, Padded, BigEndian64, Whole, Rest;
      Pad();
      digest := [];
      for i := 0 to 8
        invariant digest == Output(state[..i])
        invariant state[..]
                  == old(Fold(Compress, INITIAL, Padded(fed, BigEndian64(8 * |fed| % 0x1_0000_0000_0000_0000))))
      {
        OutputMore(state[..], i);
        digest := digest + BigBytes(state[i]);
      }
      assert state[..8] == state[..];
      count := 0;
      Copy(0, Zeros(BLOCK));
      forall i | 0 <= i < 8 { state[i] := 0; }
    }

    /** `memcpy` into the buffer. */
    method Copy(at: nat, data: seq<Byte>)
      requires at + |data| <= buf.Length
      modifies buf
      ensures buf[..] == old(buf[..at]) + data + old(buf[at + |data|..])
    {
      forall i | 0 <= i < |data| {
        buf[at + i] := data[i];
      }
    }
  }

  lemma {:induction false} CountBits(n: nat, len: nat)
    ensures var count := 8 * n % 0x1_0000_0000_0000_0000;
            && count / 8 % BLOCK == n % BLOCK
            && (count + len * 8 % 0x1_0000_0000_0000_0000) % 0x1_0000_0000_0000_0000
               == 8 * (n + len) % 0x1_0000_0000_0000_0000
  {
    var p, c := 8 * n / 0x1_0000_0000_0000_0000, 8 * n % 0x1_0000_0000_0000_0000;
    assert 8 * n == 0x1_0000_0000_0000_0000 * p + c;
    assert n == BLOCK * (0x80_0000_0000_0000 * p) + c / 8;
    SameRemainder(0x80_0000_0000_0000 * p, c / 8);
    var q, l := len * 8 / 0x1_0000_0000_0000_0000, len * 8 % 0x1_0000_0000_0000_0000;
    assert 8 * (n + len) == 0x1_0000_0000_0000_0000 * (p + q) + (c + l);
    WrapAround(p + q, c + l);
  }

  lemma {:induction false} WrapAround(k: nat, n: nat)
    ensures (0x1_0000_0000_0000_0000 * k + n) % 0x1_0000_0000_0000_0000 == n % 0x1_0000_0000_0000_0000
  {
  }

  /** `be32enc` on a number */
  function Encode32(n: nat): seq<Byte> {
    [Truncated(n / 0x100_0000), Truncated(n / 0x1_0000), Truncated(n / 0x100), Truncated(n)]
  }

  /** `be64enc`, out of two halves. */
  function Encode64(n: nat): (b: seq<Byte>)
    ensures |b| == 8
  {
    Encode32(n / 0x1_0000_0000) + Encode32(n % 0x1_0000_0000)
  }

  lemma {:induction false} EncodeCount(n: nat)
    ensures Encode64(n) == BigEndian64(n)
  {
    hide Encode32, BigEndian64;
    var low, high := n % 0x1_0000_0000, n / 0x1_0000_0000;
    assert n == low + high * 0x1_0000_0000;
    EncodeHalves(low, high);
  }

  lemma {:induction false} EncodeHalves(low: nat, high: nat)
    requires low < 0x1_0000_0000
    ensures Encode32(high) + Encode32(low) == BigEndian64(low + high * 0x1_0000_0000)
  {
    hide Truncated, ByteOf;
    BytesOf64(low, high);
    FourBytes(low);
    FourBytes(high);
  }

  lemma {:induction false} OutputMore(s: seq<Word>, i: nat)
    requires i < |s|
    ensures Output(s[..i + 1]) == Output(s[..i]) + BigBytes(s[i])
    decreases i
  {
    if i == 0 {
      assert s[..1][1..] == [] && s[..0] == [];
    } else {
      assert s[..i + 1][1..] == s[1..][..i] && s[..i][1..] == s[1..][..i - 1];
      OutputMore(s[1..], i - 1);
    }
  }

  /** `sha256_hash`: however a message is cut into chunks, the result is the digest of the whole. */
  method Sha256Hash(chunks: seq<seq<Byte>>) returns (result: seq<Byte>)
    ensures result == Digest(Concat(chunks))
  {
    hide Digest;
    var context := new Sha256Context();
    assert chunks[..0] == [];
    for k := 0 to |chunks|
      invariant fresh(context) && fresh(context.state) && fresh(context.buf)
      invariant context.Valid() && context.fed == Concat(chunks[..k])
    {
      ConcatMore(chunks, k);
      context.Update(chunks[k]);
    }
    assert chunks[..|chunks|] == chunks;
    result := context.Final();
  }
}
