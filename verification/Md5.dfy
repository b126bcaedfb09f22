/**
  The incremental MD5 of genmd5.c: a context with a split 64-bit bit counter, the running
  state and a 64-byte carry buffer. Every run of Init, Update and Final is tied to the
  one-shot definition in Md5Spec through the ghost field `fed`, the bytes absorbed so far.
 */
module Md5 {
  import opened Words
  import opened Md5Spec

  // ---------- The compression function ----------

  function FF(a: word, b: word, c: word, d: word, x: word, s: nat, ac: word): word
    requires 0 < s < 32
  {
    Add(RotateLeft((a + F(b, c, d) + x + ac) % WORD_SIZE, s), b)
  }

  function GG(a: word, b: word, c: word, d: word, x: word, s: nat, ac: word): word
    requires 0 < s < 32
  {
    Add(RotateLeft((a + G(b, c, d) + x + ac) % WORD_SIZE, s), b)
  }

  function HH(a: word, b: word, c: word, d: word, x: word, s: nat, ac: word): word
    requires 0 < s < 32
  {
    Add(RotateLeft((a + H(b, c, d) + x + ac) % WORD_SIZE, s), b)
  }

  function II(a: word, b: word, c: word, d: word, x: word, s: nat, ac: word): word
    requires 0 < s < 32
  {
    Add(RotateLeft((a + I(b, c, d) + x + ac) % WORD_SIZE, s), b)
  }

  lemma FourSteps(q: Quad, w: seq<word>, n: nat)
    requires |w| == 16
    ensures Steps(q, w, n + 4) == Step(Step(Step(Step(Steps(q, w, n), w, n), w, n + 1), w, n + 2), w, n + 3)
  {
    hide Step;
    assert Steps(q, w, n + 1) == Step(Steps(q, w, n), w, n);
    assert Steps(q, w, n + 2) == Step(Steps(q, w, n + 1), w, n + 1);
    assert Steps(q, w, n + 3) == Step(Steps(q, w, n + 2), w, n + 2);
  }

  // After four consecutive lines the registers are back in their places.

  lemma StepF(s: Quad, w: seq<word>, i: nat)
    requires |w| == 16 && 0 <= i < 16
    ensures Step(s, w, i) == Quad(s.d, FF(s.a, s.b, s.c, s.d, w[Schedule(i)], Shift(i), Sine(i)), s.b, s.c)
  {
    hide F, G, H, I, RotateLeft, Schedule, Shift, Sine;
  }

  lemma FourF(q: Quad, w: seq<word>, n: nat)
    requires |w| == 16 && n % 4 == 0 && 0 <= n < 16
    ensures var s := Steps(q, w, n);
            var a := FF(s.a, s.b, s.c, s.d, w[Schedule(n)], Shift(n), Sine(n));
            var d := FF(s.d, a, s.b, s.c, w[Schedule(n + 1)], Shift(n + 1), Sine(n + 1));
            var c := FF(s.c, d, a, s.b, w[Schedule(n + 2)], Shift(n + 2), Sine(n + 2));
            var b := FF(s.b, c, d, a, w[Schedule(n + 3)], Shift(n + 3), Sine(n + 3));
            Steps(q, w, n + 4) == Quad(a, b, c, d)
  {
    hide FF, GG, HH, II, Step, Steps, Schedule, Shift, Sine;
    FourSteps(q, w, n);
    var s0 := Steps(q, w, n);
    StepF(s0, w, n);
    var s1 := Step(s0, w, n);
    StepF(s1, w, n + 1);
    var s2 := Step(s1, w, n + 1);
    StepF(s2, w, n + 2);
    StepF(Step(s2, w, n + 2), w, n + 3);
  }

  lemma StepG(s: Quad, w: seq<word>, i: nat)
    requires |w| == 16 && 16 <= i < 32
    ensures Step(s, w, i) == Quad(s.d, GG(s.a, s.b, s.c, s.d, w[Schedule(i)], Shift(i), Sine(i)), s.b, s.c)
  {
    hide F, G, H, I, RotateLeft, Schedule, Shift, Sine;
  }

  lemma FourG(q: Quad, w: seq<word>, n: nat)
    requires |w| == 16 && n % 4 == 0 && 16 <= n < 32
    ensures var s := Steps(q, w, n);
            var a := GG(s.a, s.b, s.c, s.d, w[Schedule(n)], Shift(n), Sine(n));
            var d := GG(s.d, a, s.b, s.c, w[Schedule(n + 1)], Shift(n + 1), Sine(n + 1));
            var c := GG(s.c, d, a, s.b, w[Schedule(n + 2)], Shift(n + 2), Sine(n + 2));
            var b := GG(s.b, c, d, a, w[Schedule(n + 3)], Shift(n + 3), Sine(n + 3));
            Steps(q, w, n + 4) == Quad(a, b, c, d)
  {
    hide FF, GG, HH, II, Step, Steps, Schedule, Shift, Sine;
    FourSteps(q, w, n);
    var s0 := Steps(q, w, n);
    StepG(s0, w, n);
    var s1 := Step(s0, w, n);
    StepG(s1, w, n + 1);
    var s2 := Step(s1, w, n + 1);
    StepG(s2, w, n + 2);
    StepG(Step(s2, w, n + 2), w, n + 3);
  }

  lemma StepH(s: Quad, w: seq<word>, i: nat)
    requires |w| == 16 && 32 <= i < 48
    ensures Step(s, w, i) == Quad(s.d, HH(s.a, s.b, s.c, s.d, w[Schedule(i)], Shift(i), Sine(i)), s.b, s.c)
  {
    hide F, G, H, I, RotateLeft, Schedule, Shift, Sine;
  }

  lemma FourH(q: Quad, w: seq<word>, n: nat)
    requires |w| == 16 && n % 4 == 0 && 32 <= n < 48
    ensures var s := Steps(q, w, n);
            var a := HH(s.a, s.b, s.c, s.d, w[Schedule(n)], Shift(n), Sine(n));
            var d := HH(s.d, a, s.b, s.c, w[Schedule(n + 1)], Shift(n + 1), Sine(n + 1));
            var c := HH(s.c, d, a, s.b, w[Schedule(n + 2)], Shift(n + 2), Sine(n + 2));
            var b := HH(s.b, c, d, a, w[Schedule(n + 3)], Shift(n + 3), Sine(n + 3));
            Steps(q, w, n + 4) == Quad(a, b, c, d)
  {
    hide FF, GG, HH, II, Step, Steps, Schedule, Shift, Sine;
    FourSteps(q, w, n);
    var s0 := Steps(q, w, n);
    StepH(s0, w, n);
    var s1 := Step(s0, w, n);
    StepH(s1, w, n + 1);
    var s2 := Step(s1, w, n + 1);
    StepH(s2, w, n + 2);
    StepH(Step(s2, w, n + 2), w, n + 3);
  }

  lemma StepI(s: Quad, w: seq<word>, i: nat)
    requires |w| == 16 && 48 <= i < 64
    ensures Step(s, w, i) == Quad(s.d, II(s.a, s.b, s.c, s.d, w[Schedule(i)], Shift(i), Sine(i)), s.b, s.c)
  {
    hide F, G, H, I, RotateLeft, Schedule, Shift, Sine;
  }

  lemma FourI(q: Quad, w: seq<word>, n: nat)
    requires |w| == 16 && n % 4 == 0 && 48 <= n < 64
    ensures var s := Steps(q, w, n);
            var a := II(s.a, s.b, s.c, s.d, w[Schedule(n)], Shift(n), Sine(n));
            var d := II(s.d, a, s.b, s.c, w[Schedule(n + 1)], Shift(n + 1), Sine(n + 1));
            var c := II(s.c, d, a, s.b, w[Schedule(n + 2)], Shift(n + 2), Sine(n + 2));
            var b := II(s.b, c, d, a, w[Schedule(n + 3)], Shift(n + 3), Sine(n + 3));
            Steps(q, w, n + 4) == Quad(a, b, c, d)
  {
    hide FF, GG, HH, II, Step, Steps, Schedule, Shift, Sine;
    FourSteps(q, w, n);
    var s0 := Steps(q, w, n);
    StepI(s0, w, n);
    var s1 := Step(s0, w, n);
    StepI(s1, w, n + 1);
    var s2 := Step(s1, w, n + 1);
    StepI(s2, w, n + 2);
    StepI(Step(s2, w, n + 2), w, n + 3);
  }

  // The sixteen lines of each round, as written out in the source.

  method Round1(ghost q: Quad, x: seq<word>, a0: word, b0: word, c0: word, d0: word)
    returns (a: word, b: word, c: word, d: word)
    requires |x| == 16
    requires Quad(a0, b0, c0, d0) == Steps(q, x, 0)
    ensures Quad(a, b, c, d) == Steps(q, x, 16)
  {
    hide FF, GG, HH, II, Step, Steps;
    a, b, c, d := a0, b0, c0, d0;
    a := FF(a, b, c, d, x[0], 7, 0xd76aa478);
    d := FF(d, a, b, c, x[1], 12, 0xe8c7b756);
    c := FF(c, d, a, b, x[2], 17, 0x242070db);
    b := FF(b, c, d, a, x[3], 22, 0xc1bdceee);
    FourF(q, x, 0);
    a := FF(a, b, c, d, x[4], 7, 0xf57c0faf);
    d := FF(d, a, b, c, x[5], 12, 0x4787c62a);
    c := FF(c, d, a, b, x[6], 17, 0xa8304613);
    b := FF(b, c, d, a, x[7], 22, 0xfd469501);
    FourF(q, x, 4);
    a := FF(a, b, c, d, x[8], 7, 0x698098d8);
    d := FF(d, a, b, c, x[9], 12, 0x8b44f7af);
    c := FF(c, d, a, b, x[10], 17, 0xffff5bb1);
    b := FF(b, c, d, a, x[11], 22, 0x895cd7be);
    FourF(q, x, 8);
    a := FF(a, b, c, d, x[12], 7, 0x6b901122);
    d := FF(d, a, b, c, x[13], 12, 0xfd987193);
    c := FF(c, d, a, b, x[14], 17, 0xa679438e);
    b := FF(b, c, d, a, x[15], 22, 0x49b40821);
    FourF(q, x, 12);
  }

  method Round2(ghost q: Quad, x: seq<word>, a0: word, b0: word, c0: word, d0: word)
    returns (a: word, b: word, c: word, d: word)
    requires |x| == 16
    requires Quad(a0, b0, c0, d0) == Steps(q, x, 16)
    ensures Quad(a, b, c, d) == Steps(q, x, 32)
  {
    hide FF, GG, HH, II, Step, Steps;
    a, b, c, d := a0, b0, c0, d0;
    a := GG(a, b, c, d, x[1], 5, 0xf61e2562);
    d := GG(d, a, b, c, x[6], 9, 0xc040b340);
    c := GG(c, d, a, b, x[11], 14, 0x265e5a51);
    b := GG(b, c, d, a, x[0], 20, 0xe9b6c7aa);
    FourG(q, x, 16);
    a := GG(a, b, c, d, x[5], 5, 0xd62f105d);
    d := GG(d, a, b, c, x[10], 9, 0x02441453);
    c := GG(c, d, a, b, x[15], 14, 0xd8a1e681);
    b := GG(b, c, d, a, x[4], 20, 0xe7d3fbc8);
    FourG(q, x, 20);
    a := GG(a, b, c, d, x[9], 5, 0x21e1cde6);
    d := GG(d, a, b, c, x[14], 9, 0xc33707d6);
    c := GG(c, d, a, b, x[3], 14, 0xf4d50d87);
    b := GG(b, c, d, a, x[8], 20, 0x455a14ed);
    FourG(q, x, 24);
    a := GG(a, b, c, d, x[13], 5, 0xa9e3e905);
    d := GG(d, a, b, c, x[2], 9, 0xfcefa3f8);
    c := GG(c, d, a, b, x[7], 14, 0x676f02d9);
    b := GG(b, c, d, a, x[12], 20, 0x8d2a4c8a);
    FourG(q, x, 28);
  }

  method Round3(ghost q: Quad, x: seq<word>, a0: word, b0: word, c0: word, d0: word)
    returns (a: word, b: word, c: word, d: word)
    requires |x| == 16
    requires Quad(a0, b0, c0, d0) == Steps(q, x, 32)
    ensures Quad(a, b, c, d) == Steps(q, x, 48)
  {
    hide FF, GG, HH, II, Step, Steps;
    a, b, c, d := a0, b0, c0, d0;
    a := HH(a, b, c, d, x[5], 4, 0xfffa3942);
    d := HH(d, a, b, c, x[8], 11, 0x8771f681);
    c := HH(c, d, a, b, x[11], 16, 0x6d9d6122);
    b := HH(b, c, d, a, x[14], 23, 0xfde5380c);
    FourH(q, x, 32);
    a := HH(a, b, c, d, x[1], 4, 0xa4beea44);
    d := HH(d, a, b, c, x[4], 11, 0x4bdecfa9);
    c := HH(c, d, a, b, x[7], 16, 0xf6bb4b60);
    b := HH(b, c, d, a, x[10], 23, 0xbebfbc70);
    FourH(q, x, 36);
    a := HH(a, b, c, d, x[13], 4, 0x289b7ec6);
    d := HH(d, a, b, c, x[0], 11, 0xeaa127fa);
    c := HH(c, d, a, b, x[3], 16, 0xd4ef3085);
    b := HH(b, c, d, a, x[6], 23, 0x04881d05);
    FourH(q, x, 40);
    a := HH(a, b, c, d, x[9], 4, 0xd9d4d039);
    d := HH(d, a, b, c, x[12], 11, 0xe6db99e5);
    c := HH(c, d, a, b, x[15], 16, 0x1fa27cf8);
    b := HH(b, c, d, a, x[2], 23, 0xc4ac5665);
    FourH(q, x, 44);
  }

  method Round4(ghost q: Quad, x: seq<word>, a0: word, b0: word, c0: word, d0: word)
    returns (a: word, b: word, c: word, d: word)
    requires |x| == 16
    requires Quad(a0, b0, c0, d0) == Steps(q, x, 48)
    ensures Quad(a, b, c, d) == Steps(q, x, 64)
  {
    hide FF, GG, HH, II, Step, Steps;
    a, b, c, d := a0, b0, c0, d0;
    a := II(a, b, c, d, x[0], 6, 0xf4292244);
    d := II(d, a, b, c, x[7], 10, 0x432aff97);
    c := II(c, d, a, b, x[14], 15, 0xab9423a7);
    b := II(b, c, d, a, x[5], 21, 0xfc93a039);
    FourI(q, x, 48);
    a := II(a, b, c, d, x[12], 6, 0x655b59c3);
    d := II(d, a, b, c, x[3], 10, 0x8f0ccc92);
    c := II(c, d, a, b, x[10], 15, 0xffeff47d);
    b := II(b, c, d, a, x[1], 21, 0x85845dd1);
    FourI(q, x, 52);
    a := II(a, b, c, d, x[8], 6, 0x6fa87e4f);
    d := II(d, a, b, c, x[15], 10, 0xfe2ce6e0);
    c := II(c, d, a, b, x[6], 15, 0xa3014314);
    b := II(b, c, d, a, x[13], 21, 0x4e0811a1);
    FourI(q, x, 56);
    a := II(a, b, c, d, x[4], 6, 0xf7537e82);
    d := II(d, a, b, c, x[11], 10, 0xbd3af235);
    c := II(c, d, a, b, x[2], 15, 0x2ad7d2bb);
    b := II(b, c, d, a, x[9], 21, 0xeb86d391);
    FourI(q, x, 60);
  }

  /** Words to bytes, low-order byte first; `len` counts bytes. */
  method EncodeWords(output: array<byte>, input: array<word>, len: nat)
    requires len % 4 == 0 && len <= output.Length && len / 4 <= input.Length
    modifies output
    ensures output[..len] == BytesOfWords(input[..len / 4])
    ensures output[len..] == old(output[len..])
  {
    hide ByteOf;
    ghost var before := output[..];
    var i, j := 0, 0;
    while j < len
      invariant j == 4 * i && j <= len
      invariant output[len..] == before[len..]
      invariant forall k :: 0 <= k < j ==> output[k] == ByteOf(input[k / 4], k % 4)
    {
      output[j] := ByteOf(input[i], 0);
      output[j + 1] := ByteOf(input[i], 1);
      output[j + 2] := ByteOf(input[i], 2);
      output[j + 3] := ByteOf(input[i], 3);
      i := i + 1;
      j := j + 4;
    }
  }

  /** Bytes to words, low-order byte first; the shifted bytes share no bit, so `|` is a sum. */
  method DecodeWords(output: array<word>, input: array<byte>, off: nat, len: nat)
    requires len % 4 == 0 && off + len <= input.Length && len / 4 <= output.Length
    modifies output
    ensures output[..len / 4] == WordsOfBytes(input[off..off + len])
  {
    hide WordOf;
    var i, j := 0, 0;
    while j < len
      invariant j == 4 * i && j <= len
      invariant forall k :: 0 <= k < i ==>
        output[k] == WordOf(input[off + 4 * k], input[off + 4 * k + 1], input[off + 4 * k + 2], input[off + 4 * k + 3])
    {
      output[i] := WordOf(input[off + j], input[off + j + 1], input[off + j + 2], input[off + j + 3]);
      i := i + 1;
      j := j + 4;
    }
  }

  function QuadOf(s: seq<word>): Quad
    requires |s| == 4
  {
    Quad(s[0], s[1], s[2], s[3])
  }

  lemma StepsZero(q: Quad, w: seq<word>)
    requires |w| == 16
    ensures Steps(q, w, 0) == q
  {
  }

  /** One block of input, starting at `off`, folded into the state in place. */
  method Transform(state: array<word>, block: array<byte>, off: nat)
    requires state.Length == 4 && off + 64 <= block.Length
    modifies state
    ensures QuadOf(state[..]) == Compress(QuadOf(old(state[..])), block[off..off + 64])
  {
    hide Steps, WordsOfBytes;
    ghost var q := QuadOf(state[..]);
    var a, b, c, d := state[0], state[1], state[2], state[3];
    var x := new word[64](_ => 0);
    DecodeWords(x, block, off, 64);
    var w := x[..16];
    StepsZero(q, w);
    a, b, c, d := Round1(q, w, a, b, c, d);
    a, b, c, d := Round2(q, w, a, b, c, d);
    a, b, c, d := Round3(q, w, a, b, c, d);
    a, b, c, d := Round4(q, w, a, b, c, d);
    state[0] := Add(state[0], a);
    state[1] := Add(state[1], b);
    state[2] := Add(state[2], c);
    state[3] := Add(state[3], d);
  }

  // ---------- The counter ----------

  /** The pair of counter words holds eight times n, modulo 2^64. */
  ghost predicate Counts(c0: word, c1: word, n: nat) {
    c0 + c1 * WORD_SIZE == 8 * n % (LONG_SIZE)
  }

  lemma Quotient(x: nat, q: nat, r: nat)
    requires x == q * WORD_SIZE + r && r < WORD_SIZE
    ensures x / WORD_SIZE == q && x % WORD_SIZE == r
  {
  }

  lemma CountWords(c0: word, c1: word, n: nat)
    requires Counts(c0, c1, n)
    ensures c0 == 8 * n % WORD_SIZE && c1 == 8 * n / WORD_SIZE % WORD_SIZE
  {
    var k := 8 * n / LONG_SIZE;
    Quotient(8 * n, k * WORD_SIZE + c1, c0);
    Quotient(k * WORD_SIZE + c1, k, c1);
  }

  /** The low word alone gives the number of bytes carried in the buffer. */
  lemma CountIndex(c0: word, c1: word, n: nat)
    requires Counts(c0, c1, n)
    ensures c0 / 8 % 64 == n % 64
  {
    var k := 8 * n / LONG_SIZE * WORD_SIZE + c1;
    assert 8 * n == k * WORD_SIZE + c0;
    Bits3To8(n, k, c0);
  }

  lemma Bits3To8(n: nat, k: nat, c0: nat)
    requires 8 * n == k * WORD_SIZE + c0
    ensures c0 / 8 % 64 == n % 64
  {
    assert c0 == 8 * (n - 0x2000_0000 * k);
    assert c0 / 8 == n - 64 * (0x80_0000 * k);
  }

  /** The comparison with the shifted length detects the carry out of the low word. */
  lemma CarryDetected(c0: word, lo: word)
    ensures Add(c0, lo) < lo <==> c0 + lo >= WORD_SIZE
    ensures c0 + lo == Add(c0, lo) + (if Add(c0, lo) < lo then WORD_SIZE else 0)
  {
  }

  /** The length's bits split between the two words: none is lost. */
  lemma LengthSplit(len: word)
    ensures 8 * len == len / 0x2000_0000 * WORD_SIZE + len * 8 % WORD_SIZE
  {
  }

  lemma Remainder(x: nat, q: nat, r: nat)
    requires x == q * LONG_SIZE + r && r < LONG_SIZE
    ensures x % LONG_SIZE == r
  {
  }

  /** Words raised by the shifted length, with the wrap test for a carry, count the longer input, modulo 2^64. */
  lemma CountCarry(c0: word, c1: word, n: nat, len: word, d0: word, d1: word)
    requires Counts(c0, c1, n)
    requires d0 == Add(c0, len * 8 % WORD_SIZE)
    requires d1 == Add(if d0 < len * 8 % WORD_SIZE then Add(c1, 1) else c1, len / 0x2000_0000)
    ensures Counts(d0, d1, n + len)
  {
    hide Add;
    var lo, hi := len * 8 % WORD_SIZE, len / 0x2000_0000;
    CarryDetected(c0, lo);
    LengthSplit(len);
    var carry := if Add(c0, lo) < lo then 1 else 0;
    var lap := HighWord(c1, carry, hi);
    var k := 8 * n / LONG_SIZE;
    assert 8 * (n + len) == (k + lap) * LONG_SIZE + (d0 + d1 * WORD_SIZE);
    Remainder(8 * (n + len), k + lap, d0 + d1 * WORD_SIZE);
  }

  lemma HighWord(c1: word, carry: nat, hi: word) returns (lap: nat)
    requires carry <= 1
    ensures Add(if carry == 1 then Add(c1, 1) else c1, hi) == c1 + carry + hi - lap * WORD_SIZE
  {
    lap := (c1 + carry + hi) / WORD_SIZE;
  }

  // ---------- The block loop's 32-bit bound ----------

  /** The lengths for which `i + 64` does not wrap while blocks remain or when they run out. */
  predicate LengthOk(index: nat, len: word) {
    if index == 0 then len < WORD_SIZE - 64 else index + len < WORD_SIZE
  }

  /** With whole blocks consumed up to the last, the wrapped test ends the loop exactly for those lengths. */
  lemma LoopTestExact(index: nat, len: word)
    requires index < 64 && 64 - index <= len
    ensures var last := len - (len + index) % 64;
            Add(last, 64) > len <==> LengthOk(index, len)
  {
    var last := len - (len + index) % 64;
    assert (last + index) % 64 == 0;
    assert last + 64 > len;
    if index == 0 && len >= WORD_SIZE - 64 {
      assert last == WORD_SIZE - 64;
    } else if index != 0 && index + len >= WORD_SIZE {
      assert last + index == WORD_SIZE;
    }
  }

  lemma NextBoundary(n: nat, i: nat)
    requires (n + i) % 64 == 0
    ensures (n + (i + 64)) % 64 == 0
  {
  }

  /** Under that bound, `i + 64` never wraps at a block boundary. */
  lemma NoWrap(n: nat, i: word, len: word)
    requires LengthOk(n % 64, len) && i <= len && (n + i) % 64 == 0
    ensures Add(i, 64) == i + 64
  {
    assert (n % 64 + i) % 64 == 0;
  }

  // ---------- The context ----------

  function Whole(m: seq<byte>): (w: seq<byte>)
    ensures |w| % 64 == 0
  {
    m[..|m| / 64 * 64]
  }

  function Tail(m: seq<byte>): (t: seq<byte>)
    ensures |t| == |m| % 64
  {
    m[|m| / 64 * 64..]
  }

  /** The carried tail and the start of the input make the next block. */
  lemma FirstBlock(m: seq<byte>, input: seq<byte>, block: seq<byte>)
    requires 64 - |m| % 64 <= |input|
    requires block == Tail(m) + input[..64 - |m| % 64]
    ensures var n := |m| + 64 - |m| % 64;
            Absorb(INITIAL, (m + input)[..n]) == Compress(Absorb(INITIAL, Whole(m)), block)
  {
    hide Compress, Absorb;
    var n := |m| + 64 - |m| % 64;
    assert (m + input)[..n] == Whole(m) + block;
    AbsorbBlock(INITIAL, Whole(m), block);
  }

  /** The next 64 bytes of the input extend the absorbed prefix by one block. */
  lemma NextBlock(m: seq<byte>, input: seq<byte>, i: nat)
    requires (|m| + i) % 64 == 0 && i + 64 <= |input|
    ensures Absorb(INITIAL, (m + input)[..|m| + (i + 64)])
         == Compress(Absorb(INITIAL, (m + input)[..|m| + i]), input[i..i + 64])
  {
    hide Compress, Absorb;
    AbsorbBlock(INITIAL, (m + input)[..|m| + i], input[i..i + 64]);
    assert (m + input)[..|m| + i] + input[i..i + 64] == (m + input)[..|m| + (i + 64)];
  }

  /** What is left after the last whole block of m + input, when it lies in the input... */
  lemma TailInInput(m: seq<byte>, input: seq<byte>, i: nat)
    requires i <= |input| < i + 64 && (|m| + i) % 64 == 0
    ensures Whole(m + input) == (m + input)[..|m| + i]
    ensures Tail(m + input) == input[i..]
  {
    assert |m + input| / 64 * 64 == |m| + i;
  }

  /** ... and when the input completes no block. */
  lemma TailGrows(m: seq<byte>, input: seq<byte>)
    requires |m| % 64 + |input| < 64
    ensures Whole(m + input) == Whole(m)
    ensures Tail(m + input) == Tail(m) + input
  {
    assert |m + input| / 64 == |m| / 64;
  }

  method MemCpy(dst: array<byte>, at: nat, src: array<byte>, off: nat, n: nat)
    requires dst != src
    requires at + n <= dst.Length && off + n <= src.Length
    modifies dst
    ensures dst[..at + n] == old(dst[..at]) + src[off..off + n]
    ensures dst[at + n..] == old(dst[at + n..])
  {
    forall k | 0 <= k < n {
      dst[at + k] := src[off + k];
    }
  }

  /**
    The taken branch of md5_update: complete the carried block and compress it, then compress
    whole blocks straight from the input; i is where the leftover starts.
   */
  method AbsorbBlocks(state: array<word>, buffer: array<byte>, input: array<byte>, inputlen: word,
                      ghost m: seq<byte>, index: nat)
    returns (i: word)
    requires state.Length == 4 && buffer.Length == 64 && input != buffer
    requires index == |m| % 64 && 64 - index <= inputlen <= input.Length && LengthOk(index, inputlen)
    requires QuadOf(state[..]) == Absorb(INITIAL, Whole(m)) && buffer[..index] == Tail(m)
    modifies state, buffer
    ensures (|m| + i) % 64 == 0 && i <= inputlen < i + 64
    ensures QuadOf(state[..]) == Absorb(INITIAL, (m + input[..inputlen])[..|m| + i])
  {
    hide Compress, Absorb, Add, LengthOk, QuadOf, Whole, Tail;
    ghost var data := input[..inputlen];
    var partlen := 64 - index;
    MemCpy(buffer, index, input, 0, partlen);
    assert buffer[0..64] == buffer[..index + partlen];
    assert data[..partlen] == input[0..partlen];
    FirstBlock(m, data, buffer[0..64]);
    Transform(state, buffer, 0);
    i := partlen;
    NoWrap(|m|, i, inputlen);
    while Add(i, 64) <= inputlen
      invariant i <= inputlen && (|m| + i) % 64 == 0
      invariant Add(i, 64) == i + 64
      invariant QuadOf(state[..]) == Absorb(INITIAL, (m + data)[..|m| + i])
      decreases inputlen - i
    {
      NextBlock(m, data, i);
      assert data[i..i + 64] == input[i..i + 64];
      Transform(state, input, i);
      NextBoundary(|m|, i);
      i := Add(i, 64);
      NoWrap(|m|, i, inputlen);
    }
  }

  class Context {
    const count: array<word>
    const state: array<word>
    const buffer: array<byte>
    ghost var fed: seq<byte>

    ghost predicate Shape() {
      count.Length == 2 && state.Length == 4 && buffer.Length == 64 && count != state
    }

    /** Counter, state and carry buffer are those of the bytes fed so far. */
    ghost predicate Valid()
      reads this, count, state, buffer
    {
      && Shape()
      && Counts(count[0], count[1], |fed|)
      && QuadOf(state[..]) == Absorb(INITIAL, Whole(fed))
      && buffer[..|fed| % 64] == Tail(fed)
    }

    constructor ()
      ensures Shape()
      ensures fresh(count) && fresh(state) && fresh(buffer)
    {
      count := new word[2](_ => 0);
      state := new word[4](_ => 0);
      buffer := new byte[64](_ => 0);
      fed := [];
    }

    method Init()
      requires Shape()
      modifies this, count, state
      ensures Valid() && fed == []
    {
      count[0] := 0;
      count[1] := 0;
      state[0] := 0x67452301;
      state[1] := 0xefcdab89;
      state[2] := 0x98badcfe;
      state[3] := 0x10325476;
      fed := [];
    }

    /** The counter part of Update. */
    method AddLength(inputlen: word, ghost n: nat)
      requires Shape() && Counts(count[0], count[1], n)
      modifies count
      ensures Counts(count[0], count[1], n + inputlen)
    {
      count[0] := Add(count[0], inputlen * 8 % WORD_SIZE);
      if count[0] < inputlen * 8 % WORD_SIZE {
        count[1] := Add(count[1], 1);
      }
      count[1] := Add(count[1], inputlen / 0x2000_0000);
      CountCarry(old(count[0]), old(count[1]), n, inputlen, count[0], count[1]);
    }

    method Update(input: array<byte>, inputlen: word)
      requires Valid() && input != buffer && inputlen <= input.Length
      requires LengthOk(|fed| % 64, inputlen)
      modifies this, count, state, buffer
      ensures Valid() && fed == old(fed) + input[..inputlen]
    {
      hide Compress, Absorb, Counts, Add, QuadOf, Whole, Tail, LengthOk;
      ghost var m, data := fed, input[..inputlen];
      CountIndex(count[0], count[1], |m|);
      var index := count[0] / 8 % 64;
      var partlen := 64 - index;
      AddLength(inputlen, |m|);
      var i: word;
      if inputlen >= partlen {
        i := AbsorbBlocks(state, buffer, input, inputlen, m, index);
        index := 0;
        TailInInput(m, data, i);
      } else {
        i := 0;
        TailGrows(m, data);
      }
      MemCpy(buffer, index, input, i, inputlen - i);
      assert input[i..i + (inputlen - i)] == data[i..];
      fed := m + data;
    }

    /** Pad, append the bit count taken before padding, and lay out the state. */
    method Final(digest: array<byte>)
      requires Valid() && digest.Length == 16 && digest != buffer
      modifies this, count, state, buffer, digest
      ensures digest[..] == Md5(old(fed))
      ensures Valid() && fed == Pad(old(fed))
    {
      hide Compress, Absorb, Counts, QuadOf, BytesOfWords;
      ghost var m := fed;
      var bits := new byte[8](_ => 0);
      var padding := new byte[64](i => if i == 0 then 0x80 else 0);
      CountIndex(count[0], count[1], |m|);
      CountWords(count[0], count[1], |m|);
      var index := count[0] / 8 % 64;
      var padlen := if index < 56 then 56 - index else 120 - index;
      EncodeWords(bits, count, 8);
      assert count[..2] == [count[0], count[1]];
      assert bits[..8] == LengthField(8 * |m|);
      assert padding[..padlen] == [0x80] + Zeros(PadLength(|m|) - 1);
      Update(padding, padlen);
      Update(bits, 8);
      PadParts(m, padding[..padlen], bits[..8]);
      hide Pad, LengthField, Counts, Whole, Tail;
      EncodeWords(digest, state, 16);
      assert state[..4] == state[..];
      StateWords(state[..]);
      assert digest[..16] == digest[..];
    }
  }

  lemma PadParts(m: seq<byte>, padding: seq<byte>, bits: seq<byte>)
    requires padding == [0x80] + Zeros(PadLength(|m|) - 1) && bits == LengthField(8 * |m|)
    ensures m + padding + bits == Pad(m) && Whole(m + padding + bits) == Pad(m)
  {
    hide LengthField;
    assert m + padding + bits == Pad(m);
    assert Whole(Pad(m)) == Pad(m);
  }

  lemma StateWords(s: seq<word>)
    requires |s| == 4
    ensures StateBytes(QuadOf(s)) == BytesOfWords(s)
  {
    assert s == [s[0], s[1], s[2], s[3]];
  }

  // ---------- Whole runs ----------

  /** The chunks put end to end. */
  function Concat(chunks: seq<seq<byte>>): seq<byte> {
    if chunks == [] then [] else Concat(chunks[..|chunks| - 1]) + chunks[|chunks| - 1]
  }

  /** Every chunk has a length for which Update's loop ends where it should, given what was fed before. */
  ghost predicate ChunksOk(chunks: seq<seq<byte>>) {
    forall k | 0 <= k < |chunks| :: |chunks[k]| < WORD_SIZE && LengthOk(|Concat(chunks[..k])| % 64, |chunks[k]|)
  }

  /** So it is when all are shorter than 2^32 - 64 bytes. */
  lemma ShortChunksOk(chunks: seq<seq<byte>>)
    requires forall c | c in chunks :: |c| < WORD_SIZE - 64
    ensures ChunksOk(chunks)
  {
    hide Concat;
  }

  /** Init, one Update per chunk and Final give the digest of the concatenation, however it is cut. */
  method DigestChunks(chunks: seq<seq<byte>>) returns (digest: seq<byte>)
    requires ChunksOk(chunks)
    ensures digest == Md5(Concat(chunks))
  {
    hide Md5, Context.Valid, LengthOk;
    var ctx := new Context();
    ctx.Init();
    for k := 0 to |chunks|
      invariant ctx.Valid() && ctx.fed == Concat(chunks[..k])
      invariant fresh(ctx) && fresh(ctx.count) && fresh(ctx.state) && fresh(ctx.buffer)
    {
      var chunk := chunks[k];
      var input := new byte[|chunk|](i requires 0 <= i < |chunk| => chunk[i]);
      ctx.Update(input, |chunk|);
      assert input[..|chunk|] == chunk;
      assert chunks[..k + 1][..k] == chunks[..k];
    }
    assert chunks[..|chunks|] == chunks;
    var value := new byte[16](_ => 0);
    ctx.Final(value);
    digest := value[..];
  }

  // ---------- The hexadecimal drivers of genstring.c ----------

  function HexDigit(n: nat): (c: char)
    requires n < 16
  {
    if n < 10 then '0' + n as char else 'a' + (n - 10) as char
  }

  lemma LowerCase(n: nat)
    requires n < 16
    ensures HexDigit(n) == "0123456789abcdef"[n]
  {
  }

  /** Two lower-case digits a byte, as "%02x" prints them. */
  function Hex(bs: seq<byte>): (s: string)
    ensures |s| == 2 * |bs|
  {
    seq(2 * |bs|, i requires 0 <= i < 2 * |bs| =>
      if i % 2 == 0 then HexDigit(bs[i / 2] / 16) else HexDigit(bs[i / 2] % 16))
  }

  /** Different digests print differently. */
  lemma HexInjective(x: seq<byte>, y: seq<byte>)
    requires Hex(x) == Hex(y)
    ensures x == y
  {
    assert |x| == |Hex(x)| / 2;
    forall k | 0 <= k < |x| ensures x[k] == y[k] {
      assert Hex(x)[2 * k] == HexDigit(x[k] / 16) && Hex(y)[2 * k] == HexDigit(y[k] / 16);
      assert Hex(x)[2 * k + 1] == HexDigit(x[k] % 16) && Hex(y)[2 * k + 1] == HexDigit(y[k] % 16);
      HexDigitInjective(x[k] / 16, y[k] / 16);
      HexDigitInjective(x[k] % 16, y[k] % 16);
    }
  }

  lemma HexDigitInjective(m: nat, n: nat)
    requires m < 16 && n < 16 && HexDigit(m) == HexDigit(n)
    ensures m == n
  {
  }

  /** The sixteen snprintf calls; each writes two digits and a NUL that the next one overwrites. */
  method PrintHex(value: array<byte>, md5_str: array<char>)
    requires value.Length == 16 && md5_str.Length >= 33
    modifies md5_str
    ensures md5_str[..33] == Hex(value[..]) + ['\0']
  {
    hide HexDigit;
    for i := 0 to 16
      invariant forall k :: 0 <= k < 2 * i ==> md5_str[k] == Hex(value[..])[k]
      invariant i == 16 ==> md5_str[32] == '\0'
    {
      md5_str[i * 2] := HexDigit(value[i] / 16);
      md5_str[i * 2 + 1] := HexDigit(value[i] % 16);
      md5_str[i * 2 + 2] := '\0';
    }
  }

  method StringMd5(str: array<byte>, strlen: word, md5_str: array<char>) returns (r: int)
    requires strlen <= str.Length && strlen < WORD_SIZE - 64 && md5_str.Length >= 33
    modifies md5_str
    ensures r == 0
    ensures md5_str[..33] == Hex(Md5(str[..strlen])) + ['\0']
  {
    hide Md5, Context.Valid;
    var ctx := new Context();
    ctx.Init();
    ctx.Update(str, strlen);
    assert ctx.fed == str[..strlen];
    var value := new byte[16](_ => 0);
    ctx.Final(value);
    PrintHex(value, md5_str);
    r := 0;
  }

  /** What open gives; a descriptor that is not positive counts as unopened. */
  datatype File = Unopened | Opened(contents: seq<byte>)

  /** read(fd, data, 256) at offset `at`: short only at the end of the file. */
  method Read(contents: seq<byte>, at: nat, data: array<byte>) returns (ret: nat)
    requires at <= |contents| && data.Length == 256
    modifies data
    ensures ret == if |contents| - at < 256 then |contents| - at else 256
    ensures data[..ret] == contents[at..at + ret]
  {
    ret := if |contents| - at < 256 then |contents| - at else 256;
    forall k | 0 <= k < ret {
      data[k] := contents[at + k];
    }
  }

  /**
    The file is read 256 bytes at a time into one buffer; a read is short only at the end
    of the file, and the k-th read fails when fails(k) holds.
   */
  method FileMd5(file: File, fails: nat -> bool, md5_str: array<char>) returns (r: int)
    requires md5_str.Length >= 33
    modifies md5_str
    ensures r == 0 || r == -1
    ensures r == 0 <==> file.Opened? && forall k: nat :: k <= |file.contents| / 256 ==> !fails(k)
    ensures r == 0 ==> md5_str[..33] == Hex(Md5(file.contents)) + ['\0']
    ensures r != 0 ==> md5_str[..] == old(md5_str[..])
  {
    hide Md5, Context.Valid, Hex;
    if file.Unopened? {
      return -1;
    }
    var data := new byte[256](_ => 0);
    var ctx := new Context();
    ctx.Init();
    var at, calls := 0, 0;
    while true
      invariant at == 256 * calls && at <= |file.contents|
      invariant forall k: nat :: k < calls ==> !fails(k)
      invariant ctx.Valid() && ctx.fed == file.contents[..at]
      invariant fresh(ctx) && fresh(ctx.count) && fresh(ctx.state) && fresh(ctx.buffer)
      invariant md5_str[..] == old(md5_str[..])
      decreases |file.contents| - at
    {
      if fails(calls) {
        return -1;
      }
      var ret := Read(file.contents, at, data);
      ctx.Update(data, ret);
      assert file.contents[..at] + file.contents[at..at + ret] == file.contents[..at + ret];
      calls := calls + 1;
      at := at + ret;
      if ret < 256 {
        break;
      }
    }
    assert file.contents[..at] == file.contents;
    var value := new byte[16](_ => 0);
    ctx.Final(value);
    PrintHex(value, md5_str);
    r := 0;
  }
}
