/** The cumulative prefix keys of the residency directory: 64-bit FNV-1a, streamed over the
    little-endian bytes of the blocks, read out after every block. */
module Fnv {
  import opened Words

  const OFFSET: Word64 := 14695981039346656037
  const PRIME: Word64 := 1099511628211

  // The inverse of PRIME modulo 2^64: PRIME * PRIME_INVERSE == 1 + 887285111055 * 2^64.
  const PRIME_INVERSE: Word64 := 14886173955864302971

  /** Bitwise exclusive or of two naturals, one binary digit at a time. */
  function Xor(a: nat, b: nat): nat
    decreases a + b
  {
    if a == 0 && b == 0 then 0 else 2 * Xor(a / 2, b / 2) + (a + b) % 2
  }

  lemma {:induction false} XorCancels(a: nat, b: nat)
    ensures Xor(Xor(a, b), b) == a
    decreases a + b
  {
    if a != 0 || b != 0 {
      var half, bit := Xor(a / 2, b / 2), (a + b) % 2;
      assert (2 * half + bit) / 2 == half;
      XorUnfold(2 * half + bit, b);
      BitCancels(a, b, half);
      XorCancels(a / 2, b / 2);
    }
  }

  lemma XorUnfold(a: nat, b: nat)
    ensures Xor(a, b) == 2 * Xor(a / 2, b / 2) + (a + b) % 2
  {
    if a == 0 && b == 0 {
      assert Xor(0, 0) == 0;
    }
  }

  lemma BitCancels(a: nat, b: nat, half: nat)
    ensures (2 * half + (a + b) % 2 + b) % 2 == a % 2
  {
  }

  function Power2(k: nat): nat {
    if k == 0 then 1 else 2 * Power2(k - 1)
  }

  lemma {:induction false} XorWidth(a: nat, b: nat, k: nat)
    requires a < Power2(k) && b < Power2(k)
    ensures Xor(a, b) < Power2(k)
    decreases k
  {
    if k > 0 && (a != 0 || b != 0) {
      XorWidth(a / 2, b / 2, k - 1);
    }
  }

  lemma Power2Of64()
    ensures Power2(64) == TWO_64
  {
    assert Power2(8) == 256;
    assert Power2(16) == 0x1_0000;
    assert Power2(24) == 0x100_0000;
    assert Power2(32) == 0x1_0000_0000;
    assert Power2(40) == 0x100_0000_0000;
    assert Power2(48) == 0x1_0000_0000_0000;
    assert Power2(56) == 0x100_0000_0000_0000;
  }

  /** XOR on machine words. */
  function Mix(h: Word64, b: Byte): (r: Word64)
    ensures r == Xor(h, b)
  {
    Power2Of64();
    XorWidth(h, b, 64);
    Xor(h, b)
  }

  /** One FNV-1a step: xor the byte in, then multiply modulo 2^64. */
  function Step(h: Word64, b: Byte): Word64 {
    (Mix(h, b) * PRIME) % TWO_64
  }

  /** Runs the step backwards. */
  function Unstep(h: Word64, b: Byte): Word64 {
    Mix((h * PRIME_INVERSE) % TWO_64, b)
  }

  lemma TimesPrimeAndBack(x: Word64)
    ensures ((x * PRIME) % TWO_64 * PRIME_INVERSE) % TWO_64 == x
    ensures ((x * PRIME_INVERSE) % TWO_64 * PRIME) % TWO_64 == x
  {
    var q, r := (x * PRIME) / TWO_64, (x * PRIME) % TWO_64;
    assert r * PRIME_INVERSE == x + TWO_64 * (887285111055 * x - q * PRIME_INVERSE);
    Residue(r * PRIME_INVERSE, x, 887285111055 * x - q * PRIME_INVERSE);
    var q', r' := (x * PRIME_INVERSE) / TWO_64, (x * PRIME_INVERSE) % TWO_64;
    assert r' * PRIME == x + TWO_64 * (887285111055 * x - q' * PRIME);
    Residue(r' * PRIME, x, 887285111055 * x - q' * PRIME);
  }

  lemma Residue(y: nat, x: Word64, k: int)
    requires y == x + TWO_64 * k
    ensures y % TWO_64 == x
  {
  }

  /** Each byte step is a bijection on the 64-bit state: `Unstep` is its two-sided inverse. */
  lemma StepIsBijective(h: Word64, b: Byte)
    ensures Unstep(Step(h, b), b) == h
    ensures Step(Unstep(h, b), b) == h
  {
    TimesPrimeAndBack(Mix(h, b));
    XorCancels(h, b);
    var x: Word64 := (h * PRIME_INVERSE) % TWO_64;
    TimesPrimeAndBack(h);
    XorCancels(x, b);
  }

  lemma {:induction false} XorCommutes(a: nat, b: nat)
    ensures Xor(a, b) == Xor(b, a)
    decreases a + b
  {
    if a != 0 || b != 0 {
      XorCommutes(a / 2, b / 2);
    }
  }

  lemma TimesPrimeIsInjective(x: Word64, y: Word64)
    requires (x * PRIME) % TWO_64 == (y * PRIME) % TWO_64
    ensures x == y
  {
    TimesPrimeAndBack(x);
    TimesPrimeAndBack(y);
  }

  /** Each step depends on the whole byte: different bytes lead from one state to different ones. */
  lemma StepTellsBytesApart(h: Word64, b: Byte, c: Byte)
    requires b != c
    ensures Step(h, b) != Step(h, c)
  {
    if Step(h, b) == Step(h, c) {
      TimesPrimeIsInjective(Mix(h, b), Mix(h, c));
      XorCommutes(h, b);
      XorCommutes(h, c);
      XorCancels(b, h);
      XorCancels(c, h);
    }
  }

  /** The hash state after a run of bytes. */
  function Absorb(h: Word64, bytes: seq<Byte>): Word64
    decreases |bytes|
  {
    if bytes == [] then h else Step(Absorb(h, bytes[..|bytes| - 1]), bytes[|bytes| - 1])
  }

  lemma {:induction false} AbsorbConcat(h: Word64, a: seq<Byte>, b: seq<Byte>)
    ensures Absorb(h, a + b) == Absorb(Absorb(h, a), b)
    decreases |b|
  {
    if b == [] {
      assert a + b == a;
    } else {
      var front := b[..|b| - 1];
      assert (a + b)[..|a + b| - 1] == a + front;
      AbsorbConcat(h, a, front);
    }
  }

  lemma {:induction false} AbsorbIsInjective(h: Word64, g: Word64, bytes: seq<Byte>)
    ensures Absorb(h, bytes) == Absorb(g, bytes) <==> h == g
    decreases |bytes|
  {
    if bytes != [] {
      var front, last := bytes[..|bytes| - 1], bytes[|bytes| - 1];
      AbsorbIsInjective(h, g, front);
      StepIsBijective(Absorb(h, front), last);
      StepIsBijective(Absorb(g, front), last);
    }
  }

  /** The n low bytes of a number, least significant first. */
  function LowBytes(x: nat, n: nat): (bytes: seq<Byte>)
    ensures |bytes| == n
  {
    if n == 0 then [] else [x % 256] + LowBytes(x / 256, n - 1)
  }

  /** The eight bytes of a block. */
  function LittleEndian(x: Word64): (bytes: seq<Byte>)
    ensures |bytes| == 8
  {
    LowBytes(x, 8)
  }

  /** All blocks of a sequence as one byte string. */
  function BlockBytes(blocks: seq<Word64>): seq<Byte>
    decreases |blocks|
  {
    if blocks == [] then [] else BlockBytes(blocks[..|blocks| - 1]) + LittleEndian(blocks[|blocks| - 1])
  }

  /** From-scratch FNV-1a of a whole block sequence: the directory key of that prefix. */
  function PrefixKey(blocks: seq<Word64>): Word64 {
    Absorb(OFFSET, BlockBytes(blocks))
  }

  /** The key of nothing is the published 64-bit offset basis. */
  lemma EmptyPrefixKey()
    ensures PrefixKey([]) == 0xcbf29ce484222325
  {
  }

  /** Appending a block continues the hash from the state the prefix left. */
  lemma PrefixKeyAppend(blocks: seq<Word64>, block: Word64)
    ensures PrefixKey(blocks + [block]) == Absorb(PrefixKey(blocks), LittleEndian(block))
  {
    assert (blocks + [block])[..|blocks + [block]| - 1] == blocks;
    AbsorbConcat(OFFSET, BlockBytes(blocks), LittleEndian(block));
  }

  /** The hasher's Write: fold the bytes into the running state. */
  method Write(h: Word64, bytes: seq<Byte>) returns (r: Word64)
    ensures r == Absorb(h, bytes)
  {
    r := h;
    for i := 0 to |bytes|
      invariant r == Absorb(h, bytes[..i])
    {
      assert bytes[..i + 1][..i] == bytes[..i];
      r := Step(r, bytes[i]);
    }
    assert bytes[..|bytes|] == bytes;
  }

  /** Fills keys[n] with the running digest after block n. Every entry is the from-scratch hash
      of the prefix that ends there. */
  method CumulativeKeys(blocks: seq<Word64>) returns (keys: seq<Word64>)
    ensures |keys| == |blocks|
    ensures forall n :: 0 <= n < |keys| ==> keys[n] == PrefixKey(blocks[..n + 1])
  {
    keys := [];
    var h: Word64 := OFFSET;
    for n := 0 to |blocks|
      invariant |keys| == n
      invariant h == PrefixKey(blocks[..n])
      invariant forall m :: 0 <= m < n ==> keys[m] == PrefixKey(blocks[..m + 1])
    {
      PrefixKeyAppend(blocks[..n], blocks[n]);
      assert blocks[..n] + [blocks[n]] == blocks[..n + 1];
      h := Write(h, LittleEndian(blocks[n]));
      keys := keys + [h];
    }
  }

  /** Keys of two sequences that agree on all blocks from position n+1 to m agree at m exactly
      when they agree at n: a divergence is never healed by a shared tail. */
  lemma {:induction false} DivergencePersists(a: seq<Word64>, b: seq<Word64>, n: nat, m: nat)
    requires n <= m < |a| && m < |b|
    requires a[n + 1..m + 1] == b[n + 1..m + 1]
    ensures PrefixKey(a[..m + 1]) == PrefixKey(b[..m + 1])
       <==> PrefixKey(a[..n + 1]) == PrefixKey(b[..n + 1])
    decreases m - n
  {
    if n < m {
      assert a[n + 1..m] == a[n + 1..m + 1][..m - n - 1];
      assert b[n + 1..m] == b[n + 1..m + 1][..m - n - 1];
      DivergencePersists(a, b, n, m - 1);
      assert a[m] == a[n + 1..m + 1][m - n - 1];
      assert b[m] == b[n + 1..m + 1][m - n - 1];
      assert a[..m] + [a[m]] == a[..m + 1] && b[..m] + [b[m]] == b[..m + 1];
      PrefixKeyAppend(a[..m], a[m]);
      PrefixKeyAppend(b[..m], b[m]);
      AbsorbIsInjective(PrefixKey(a[..m]), PrefixKey(b[..m]), LittleEndian(a[m]));
    }
  }

  lemma {:induction false} LowBytesAreInjective(x: nat, y: nat, n: nat)
    requires x < Power2(8 * n) && y < Power2(8 * n)
    requires LowBytes(x, n) == LowBytes(y, n)
    ensures x == y
  {
    if n > 0 {
      var p, q := LowBytes(x, n), LowBytes(y, n);
      assert p[0] == q[0] && p[1..] == q[1..];
      assert p[1..] == LowBytes(x / 256, n - 1) && q[1..] == LowBytes(y / 256, n - 1);
      PowerOfByte(n - 1);
      LowBytesAreInjective(x / 256, y / 256, n - 1);
    }
  }

  lemma PowerOfByte(n: nat)
    ensures Power2(8 * (n + 1)) == 256 * Power2(8 * n)
  {
    var k := 8 * n;
    assert Power2(k + 8) == 2 * Power2(k + 7);
    assert Power2(k + 7) == 2 * Power2(k + 6);
    assert Power2(k + 6) == 2 * Power2(k + 5);
    assert Power2(k + 5) == 2 * Power2(k + 4);
    assert Power2(k + 4) == 2 * Power2(k + 3);
    assert Power2(k + 3) == 2 * Power2(k + 2);
    assert Power2(k + 2) == 2 * Power2(k + 1);
  }

  /** The byte encoding of a block sequence loses nothing, so a key collision is always a
      collision of FNV-1a itself. */
  lemma {:induction false} BlockBytesIsInjective(a: seq<Word64>, b: seq<Word64>)
    requires BlockBytes(a) == BlockBytes(b)
    ensures a == b
    decreases |a|
  {
    BlockBytesLength(a);
    BlockBytesLength(b);
    if a != [] {
      var fa, fb := a[..|a| - 1], b[..|b| - 1];
      BlockBytesLength(fa);
      BlockBytesLength(fb);
      assert BlockBytes(a)[..8 * |fa|] == BlockBytes(fa) && BlockBytes(b)[..8 * |fb|] == BlockBytes(fb);
      assert BlockBytes(a)[8 * |fa|..] == LittleEndian(a[|a| - 1]);
      assert BlockBytes(b)[8 * |fb|..] == LittleEndian(b[|b| - 1]);
      BlockBytesIsInjective(fa, fb);
      Power2Of64();
      LowBytesAreInjective(a[|a| - 1], b[|b| - 1], 8);
      assert a == fa + [a[|a| - 1]] && b == fb + [b[|b| - 1]];
    }
  }

  lemma BlockBytesLength(a: seq<Word64>)
    ensures |BlockBytes(a)| == 8 * |a|
  {
  }

  /** The i-th byte of a number, least significant first. */
  function ByteOf(x: nat, i: nat): Byte
    decreases i
  {
    if i == 0 then x % 256 else ByteOf(x / 256, i - 1)
  }

  lemma {:induction false} LowByteAt(x: nat, n: nat, i: nat)
    requires i < n
    ensures LowBytes(x, n)[i] == ByteOf(x, i)
    decreases n
  {
    if i > 0 {
      LowByteAt(x / 256, n - 1, i - 1);
    }
  }

  /** Blocks are hashed byte by byte, least significant byte first. */
  lemma LittleEndianBytes(x: Word64, i: nat)
    requires i < 8
    ensures LittleEndian(x)[i] == ByteOf(x, i)
  {
    LowByteAt(x, 8, i);
  }

  predicate SameByte(x: Word64, y: Word64, i: nat) {
    ByteOf(x, i) == ByteOf(y, i)
  }

  /** Two blocks differ in byte i and in no other. */
  ghost predicate DifferOnlyAt(x: Word64, y: Word64, i: nat) {
    i < 8 && !SameByte(x, y, i) && forall j: nat :: j < 8 && j != i ==> SameByte(x, y, j)
  }

  /** Whatever was hashed before, two blocks that differ in exactly one byte lead to different keys. */
  lemma OneByteDiffers(prefix: seq<Word64>, x: Word64, y: Word64, i: nat)
    requires DifferOnlyAt(x, y, i)
    ensures PrefixKey(prefix + [x]) != PrefixKey(prefix + [y])
  {
    EncodingsDiffer(x, y, i);
    PrefixKeyAppend(prefix, x);
    PrefixKeyAppend(prefix, y);
    OneByteOff(PrefixKey(prefix), LittleEndian(x), LittleEndian(y), i);
  }

  lemma EncodingsDiffer(x: Word64, y: Word64, i: nat)
    requires DifferOnlyAt(x, y, i)
    ensures var a, b := LittleEndian(x), LittleEndian(y);
            a[..i] == b[..i] && a[i + 1..] == b[i + 1..] && a[i] != b[i]
  {
    SameEncodedByte(x, y, i);
    forall j: nat | j < 8 && j != i
      ensures LittleEndian(x)[j] == LittleEndian(y)[j]
    {
      assert SameByte(x, y, j);
      SameEncodedByte(x, y, j);
    }
    AgreeAround(LittleEndian(x), LittleEndian(y), i);
  }

  lemma SameEncodedByte(x: Word64, y: Word64, i: nat)
    requires i < 8
    ensures LittleEndian(x)[i] == LittleEndian(y)[i] <==> SameByte(x, y, i)
  {
    LittleEndianBytes(x, i);
    LittleEndianBytes(y, i);
  }

  lemma AgreeAround<T>(a: seq<T>, b: seq<T>, i: nat)
    requires |a| == |b| && i < |a| && forall j: nat :: j < |a| && j != i ==> a[j] == b[j]
    ensures a[..i] == b[..i] && a[i + 1..] == b[i + 1..]
  {
  }

  lemma OneByteOff(h: Word64, a: seq<Byte>, b: seq<Byte>, i: nat)
    requires i < |a| && i < |b| && a[..i] == b[..i] && a[i + 1..] == b[i + 1..] && a[i] != b[i]
    ensures Absorb(h, a) != Absorb(h, b)
  {
    AbsorbAround(h, a, i);
    AbsorbAround(h, b, i);
    var s := Absorb(h, a[..i]);
    StepTellsBytesApart(s, a[i], b[i]);
    AbsorbIsInjective(Step(s, a[i]), Step(s, b[i]), a[i + 1..]);
  }

  lemma AbsorbAround(h: Word64, a: seq<Byte>, i: nat)
    requires i < |a|
    ensures Absorb(h, a) == Absorb(Step(Absorb(h, a[..i]), a[i]), a[i + 1..])
  {
    assert a == a[..i] + ([a[i]] + a[i + 1..]);
    AbsorbConcat(h, a[..i], [a[i]] + a[i + 1..]);
    AbsorbConcat(Absorb(h, a[..i]), [a[i]], a[i + 1..]);
    OneByte(Absorb(h, a[..i]), a[i]);
  }

  lemma OneByte(h: Word64, b: Byte)
    ensures Absorb(h, [b]) == Step(h, b)
  {
    assert [b][..0] == [];
  }

  /** Whatever was hashed before, neighbouring blocks lead to different keys. */
  lemma NeighboursDiffer(prefix: seq<Word64>, x: Word64)
    requires x % 256 < 255
    ensures PrefixKey(prefix + [x]) != PrefixKey(prefix + [x + 1])
  {
    assert (x + 1) / 256 == x / 256 && (x + 1) % 256 == x % 256 + 1;
    assert !SameByte(x, x + 1, 0);
    OneByteDiffers(prefix, x, x + 1, 0);
  }

  // ---------------------------------------------------------------------------------------------
  // A published test vector
  // ---------------------------------------------------------------------------------------------

  /** q followed by k zero bits. */
  function Shift(q: nat, k: nat): nat {
    if k == 0 then q else 2 * Shift(q, k - 1)
  }

  /** Only the low bits of the state change when a byte is mixed in. */
  lemma {:induction false} XorLow(q: nat, r: nat, b: nat, k: nat)
    requires r < Power2(k) && b < Power2(k)
    ensures Xor(Shift(q, k) + r, b) == Shift(q, k) + Xor(r, b)
    decreases k
  {
    if k == 0 {
      XorZero(q);
    } else {
      XorLow(q, r / 2, b / 2, k - 1);
      XorDouble(Shift(q, k - 1), r, b);
    }
  }

  lemma XorDouble(m: nat, r: nat, b: nat)
    requires Xor(m + r / 2, b / 2) == m + Xor(r / 2, b / 2)
    ensures Xor(2 * m + r, b) == 2 * m + Xor(r, b)
  {
    XorUnfold(2 * m + r, b);
    XorUnfold(r, b);
    Halves(m, r, b);
  }

  lemma Halves(m: nat, r: nat, b: nat)
    ensures (2 * m + r) / 2 == m + r / 2 && (2 * m + r + b) % 2 == (r + b) % 2
  {
  }

  lemma {:induction false} XorZero(a: nat)
    ensures Xor(a, 0) == a
  {
    if a != 0 {
      XorZero(a / 2);
    }
  }

  lemma EightBits(q: nat)
    ensures Shift(q, 8) == 256 * q && Power2(8) == 256
  {
    assert Shift(q, 2) == 2 * Shift(q, 1) == 4 * q;
    assert Shift(q, 4) == 2 * Shift(q, 3) == 16 * q;
    assert Shift(q, 6) == 2 * Shift(q, 5) == 64 * q;
    assert Shift(q, 8) == 2 * Shift(q, 7);
    assert Power2(8) == 256;
  }

  /** One step in numbers: mixing the low byte, multiplying, and dropping q times 2^64. */
  lemma StepComputed(h: Word64, b: Byte, low: nat, mixed: nat, q: nat, next: Word64)
    requires h % 256 == low && Xor(low, b) == mixed
    requires (h - low + mixed) * PRIME == q * TWO_64 + next
    ensures Step(h, b) == next
  {
    EightBits(h / 256);
    XorLow(h / 256, low, b, 8);
    assert Mix(h, b) == h - low + mixed;
    Residue(Mix(h, b) * PRIME, next, q);
  }

  lemma LetterF(h: Word64)
    requires h == 0xcbf29ce484222325
    ensures Step(h, 0x66) == 0xaf63db4c8601ead9
  {
    assert Xor(0, 0) == 0;
    assert Xor(0, 1) == 1;
    assert Xor(1, 3) == 2;
    assert Xor(2, 6) == 4;
    assert Xor(4, 12) == 8;
    assert Xor(9, 25) == 16;
    assert Xor(18, 51) == 33;
    StepComputed(h, 0x66, 37, 67, 875948729822, 0xaf63db4c8601ead9);
  }

  lemma LetterFirstO(h: Word64)
    requires h == 0xaf63db4c8601ead9
    ensures Step(h, 0x6f) == 0x08985907b541d342
  {
    assert Xor(0, 0) == 0;
    assert Xor(1, 0) == 1;
    assert Xor(3, 1) == 2;
    assert Xor(6, 3) == 5;
    assert Xor(13, 6) == 11;
    assert Xor(27, 13) == 22;
    assert Xor(54, 27) == 45;
    assert Xor(108, 55) == 91;
    StepComputed(h, 0x6f, 217, 182, 753294593456, 0x08985907b541d342);
  }

  lemma LetterSecondO(h: Word64)
    requires h == 0x08985907b541d342
    ensures Step(h, 0x6f) == 0xdcb27518fed9d577
  {
    assert Xor(0, 0) == 0;
    assert Xor(1, 1) == 0;
    assert Xor(2, 3) == 1;
    assert Xor(4, 6) == 2;
    assert Xor(8, 13) == 5;
    assert Xor(16, 27) == 11;
    assert Xor(33, 55) == 22;
    StepComputed(h, 0x6f, 66, 45, 36915709891, 0xdcb27518fed9d577);
  }

  lemma LetterB(h: Word64)
    requires h == 0xdcb27518fed9d577
    ensures Step(h, 0x62) == 0xdd120e790c2512af
  {
    assert Xor(0, 0) == 0;
    assert Xor(1, 1) == 0;
    assert Xor(3, 3) == 0;
    assert Xor(7, 6) == 1;
    assert Xor(14, 12) == 2;
    assert Xor(29, 24) == 5;
    assert Xor(59, 49) == 10;
    StepComputed(h, 0x62, 119, 21, 947886824053, 0xdd120e790c2512af);
  }

  lemma LetterA(h: Word64)
    requires h == 0xdd120e790c2512af
    ensures Step(h, 0x61) == 0xcac165afa2fef40a
  {
    assert Xor(0, 0) == 0;
    assert Xor(1, 0) == 1;
    assert Xor(2, 1) == 3;
    assert Xor(5, 3) == 6;
    assert Xor(10, 6) == 12;
    assert Xor(21, 12) == 25;
    assert Xor(43, 24) == 51;
    assert Xor(87, 48) == 103;
    StepComputed(h, 0x61, 175, 206, 949490711171, 0xcac165afa2fef40a);
  }

  lemma LetterR(h: Word64)
    requires h == 0xcac165afa2fef40a
    ensures Step(h, 0x72) == 0x85944171f73967e8
  {
    assert Xor(0, 0) == 0;
    assert Xor(0, 1) == 1;
    assert Xor(0, 3) == 3;
    assert Xor(0, 7) == 7;
    assert Xor(1, 14) == 15;
    assert Xor(2, 28) == 30;
    assert Xor(5, 57) == 60;
    StepComputed(h, 0x72, 10, 120, 870828060923, 0x85944171f73967e8);
  }

  /** The published 64-bit FNV-1a hash of "foobar". */
  lemma FoobarVector()
    ensures Absorb(OFFSET, [0x66, 0x6f, 0x6f, 0x62, 0x61, 0x72]) == 0x85944171f73967e8
  {
    var f := Step(OFFSET, 0x66);
    var fo := Step(f, 0x6f);
    var foo := Step(fo, 0x6f);
    var foob := Step(foo, 0x62);
    LetterF(OFFSET);
    LetterFirstO(f);
    LetterSecondO(fo);
    LetterB(foo);
    LetterA(foob);
    LetterR(Step(foob, 0x61));
    SixBytes(OFFSET, 0x66, 0x6f, 0x6f, 0x62, 0x61, 0x72);
  }

  lemma SixBytes(h: Word64, a: Byte, b: Byte, c: Byte, d: Byte, e: Byte, f: Byte)
    ensures Absorb(h, [a, b, c, d, e, f]) == Step(Step(Step(Step(Step(Step(h, a), b), c), d), e), f)
  {
    OneByte(h, a);
    AbsorbConcat(h, [a], [b]);
    AbsorbConcat(h, [a, b], [c]);
    AbsorbConcat(h, [a, b, c], [d]);
    AbsorbConcat(h, [a, b, c, d], [e]);
    AbsorbConcat(h, [a, b, c, d, e], [f]);
    OneByte(Step(h, a), b);
    OneByte(Step(Step(h, a), b), c);
    OneByte(Step(Step(Step(h, a), b), c), d);
    OneByte(Step(Step(Step(Step(h, a), b), c), d), e);
    OneByte(Step(Step(Step(Step(Step(h, a), b), c), d), e), f);
    assert [a] + [b] == [a, b] && [a, b] + [c] == [a, b, c] && [a, b, c] + [d] == [a, b, c, d];
    assert [a, b, c, d] + [e] == [a, b, c, d, e] && [a, b, c, d, e] + [f] == [a, b, c, d, e, f];
  }
}
