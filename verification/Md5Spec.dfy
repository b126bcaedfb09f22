/** Bytes and 32-bit words as bounded integers, and the little-endian layouts of RFC 1321. */
module Words {
  const WORD_SIZE: int := 0x1_0000_0000
  const LONG_SIZE: int := 0x1_0000_0000_0000_0000

  type byte = x: int | 0 <= x < 256
  type word = x: int | 0 <= x < 0x1_0000_0000

  function Add(x: word, y: word): word {
    (x + y) % WORD_SIZE
  }

  /** Byte k of a word, least significant first. */
  function ByteOf(w: word, k: nat): byte
    requires k < 4
  {
    if k == 0 then w % 0x100
    else if k == 1 then w / 0x100 % 0x100
    else if k == 2 then w / 0x1_0000 % 0x100
    else w / 0x100_0000 % 0x100
  }

  function WordOf(b0: byte, b1: byte, b2: byte, b3: byte): word {
    b0 + b1 * 0x100 + b2 * 0x1_0000 + b3 * 0x100_0000
  }

  /** Words laid out as bytes, low-order byte first. */
  function BytesOfWords(ws: seq<word>): (bs: seq<byte>)
    ensures |bs| == 4 * |ws|
  {
    seq(4 * |ws|, j requires 0 <= j < 4 * |ws| => ByteOf(ws[j / 4], j % 4))
  }

  /** Bytes read as words, low-order byte first. */
  function WordsOfBytes(bs: seq<byte>): (ws: seq<word>)
    requires |bs| % 4 == 0
    ensures |ws| == |bs| / 4
  {
    seq(|bs| / 4, i requires 0 <= i < |bs| / 4 => WordOf(bs[4 * i], bs[4 * i + 1], bs[4 * i + 2], bs[4 * i + 3]))
  }

  lemma WordByteRoundTrip(w: word)
    ensures WordOf(ByteOf(w, 0), ByteOf(w, 1), ByteOf(w, 2), ByteOf(w, 3)) == w
  {
    var q1, q2, q3 := w / 0x100, w / 0x1_0000, w / 0x100_0000;
    Peel(w, 1);
    Peel(w, 0x100);
    Peel(w, 0x1_0000);
    assert ByteOf(w, 3) == q3;
    assert w == q1 * 0x100 + ByteOf(w, 0) && q1 == q2 * 0x100 + ByteOf(w, 1) && q2 == q3 * 0x100 + ByteOf(w, 2);
  }

  /** The lowest byte of a shifted word, and what is above it. */
  lemma Peel(w: word, k: nat)
    requires k == 1 || k == 0x100 || k == 0x1_0000
    ensures w / k == w / (k * 0x100) * 0x100 + w / k % 0x100
  {
  }

  lemma ByteWordRoundTrip(b0: byte, b1: byte, b2: byte, b3: byte)
    ensures var w := WordOf(b0, b1, b2, b3);
            ByteOf(w, 0) == b0 && ByteOf(w, 1) == b1 && ByteOf(w, 2) == b2 && ByteOf(w, 3) == b3
  {
    var w := WordOf(b0, b1, b2, b3);
    assert w / 0x100 == b1 + b2 * 0x100 + b3 * 0x1_0000;
    assert w / 0x1_0000 == b2 + b3 * 0x100;
    assert w / 0x100_0000 == b3;
  }

  lemma BytesOfWordsAt(ws: seq<word>, i: nat, k: nat)
    requires i < |ws| && k < 4
    ensures BytesOfWords(ws)[4 * i + k] == ByteOf(ws[i], k)
  {
    hide ByteOf;
    assert (4 * i + k) / 4 == i && (4 * i + k) % 4 == k;
  }

  /** Reading back what was laid out gives the same words. */
  lemma WordsRoundTrip(ws: seq<word>)
    ensures WordsOfBytes(BytesOfWords(ws)) == ws
  {
    hide ByteOf, WordOf;
    var bs := BytesOfWords(ws);
    forall i | 0 <= i < |ws| ensures WordsOfBytes(bs)[i] == ws[i] {
      WordByteRoundTrip(ws[i]);
      BytesOfWordsAt(ws, i, 0);
      BytesOfWordsAt(ws, i, 1);
      BytesOfWordsAt(ws, i, 2);
      BytesOfWordsAt(ws, i, 3);
    }
  }

  /** Laying out what was read gives the same bytes. */
  lemma BytesRoundTrip(bs: seq<byte>)
    requires |bs| % 4 == 0
    ensures BytesOfWords(WordsOfBytes(bs)) == bs
  {
    var ws := WordsOfBytes(bs);
    forall j | 0 <= j < |bs| ensures BytesOfWords(ws)[j] == bs[j] {
      var i := j / 4;
      ByteWordRoundTrip(bs[4 * i], bs[4 * i + 1], bs[4 * i + 2], bs[4 * i + 3]);
    }
  }
}

/** The four auxiliary functions and the circular shift of section 3.4 of RFC 1321, on bit-vectors. */
module Md5Bits {
  function BitsF(x: bv32, y: bv32, z: bv32): bv32 {
    (x & y) | (!x & z)
  }

  function BitsG(x: bv32, y: bv32, z: bv32): bv32 {
    (x & z) | (y & !z)
  }

  function BitsH(x: bv32, y: bv32, z: bv32): bv32 {
    x ^ y ^ z
  }

  function BitsI(x: bv32, y: bv32, z: bv32): bv32 {
    y ^ (x | !z)
  }

  function BitsRotate(x: bv32, n: bv32): bv32
    requires 0 < n < 32
  {
    (x << n) | (x >> (32 - n))
  }

  // ---------- Bit by bit ----------

  /** Bit k, the lowest being bit 0. */
  predicate Bit(w: bv32, k: bv5) {
    (w >> k) & 1 != 0
  }

  // The operators by name, so that a proof can use their bits without their definitions.

  function And(x: bv32, y: bv32): bv32 { x & y }
  function Or(x: bv32, y: bv32): bv32 { x | y }
  function Xor(x: bv32, y: bv32): bv32 { x ^ y }
  function Not(x: bv32): bv32 { !x }
  function Left(x: bv32, n: bv5): bv32 { x << n }
  function Right(x: bv32, n: bv5): bv32 { x >> n }

  lemma AndOpBit(x: bv32, y: bv32, k: bv5)
    ensures Bit(x & y, k) == (Bit(x, k) && Bit(y, k))
  {
  }

  lemma AndBit(x: bv32, y: bv32, k: bv5)
    ensures Bit(And(x, y), k) == (Bit(x, k) && Bit(y, k))
  {
    hide Bit;
    AndOpBit(x, y, k);
  }

  lemma OrOpBit(x: bv32, y: bv32, k: bv5)
    ensures Bit(x | y, k) == (Bit(x, k) || Bit(y, k))
  {
  }

  lemma OrBit(x: bv32, y: bv32, k: bv5)
    ensures Bit(Or(x, y), k) == (Bit(x, k) || Bit(y, k))
  {
    hide Bit;
    OrOpBit(x, y, k);
  }

  lemma XorOpBit(x: bv32, y: bv32, k: bv5)
    ensures Bit(x ^ y, k) == (Bit(x, k) != Bit(y, k))
  {
  }

  lemma XorBit(x: bv32, y: bv32, k: bv5)
    ensures Bit(Xor(x, y), k) == (Bit(x, k) != Bit(y, k))
  {
    hide Bit;
    XorOpBit(x, y, k);
  }

  lemma NotOpBit(x: bv32, k: bv5)
    ensures Bit(!x, k) == !Bit(x, k)
  {
  }

  lemma NotBit(x: bv32, k: bv5)
    ensures Bit(Not(x), k) == !Bit(x, k)
  {
    hide Bit;
    NotOpBit(x, k);
  }

  lemma LeftOpBit(x: bv32, n: bv5, k: bv5)
    ensures Bit(x << n, k) == (n <= k && Bit(x, k - n))
  {
  }

  lemma LeftBit(x: bv32, n: bv5, k: bv5)
    ensures Bit(Left(x, n), k) == (n <= k && Bit(x, k - n))
  {
    hide Bit;
    LeftOpBit(x, n, k);
  }

  lemma RightOpBit(x: bv32, n: bv5, k: bv5)
    ensures Bit(x >> n, k) == (k <= 31 - n && Bit(x, k + n))
  {
  }

  lemma RightBit(x: bv32, n: bv5, k: bv5)
    ensures Bit(Right(x, n), k) == (k <= 31 - n && Bit(x, k + n))
  {
    hide Bit;
    RightOpBit(x, n, k);
  }

  /** What is above bit k, and bit k. */
  lemma Shifted(w: bv32, k: bv5)
    requires k < 31
    ensures w >> k == ((w >> (k + 1)) << 1) | (if Bit(w, k) then 1 else 0)
  {
  }

  lemma TopBit(w: bv32)
    ensures w >> 31 == if Bit(w, 31) then 1 else 0
  {
  }

  lemma {:induction false} SameFrom(x: bv32, y: bv32, k: bv5)
    requires forall j: bv5 :: Bit(x, j) == Bit(y, j)
    ensures x >> k == y >> k
    decreases 31 - k as int
  {
    hide Bit;
    if k == 31 {
      TopBit(x);
      TopBit(y);
    } else {
      SameFrom(x, y, k + 1);
      Shifted(x, k);
      Shifted(y, k);
    }
  }

  /** The bits determine the word. */
  lemma SameBits(x: bv32, y: bv32)
    requires forall j: bv5 :: Bit(x, j) == Bit(y, j)
    ensures x == y
  {
    hide Bit;
    SameFrom(x, y, 0);
  }

  lemma FByName(x: bv32, y: bv32, z: bv32)
    ensures BitsF(x, y, z) == Or(And(x, y), And(Not(x), z))
  {
  }

  lemma GByName(x: bv32, y: bv32, z: bv32)
    ensures BitsG(x, y, z) == Or(And(x, z), And(y, Not(z)))
  {
  }

  lemma IByName(x: bv32, y: bv32, z: bv32)
    ensures BitsI(x, y, z) == Xor(y, Or(x, Not(z)))
  {
  }

  /** F takes y's bit where x is set and z's elsewhere. */
  lemma FBit(x: bv32, y: bv32, z: bv32, k: bv5)
    ensures Bit(BitsF(x, y, z), k) == if Bit(x, k) then Bit(y, k) else Bit(z, k)
  {
    hide *;
    FByName(x, y, z);
    AndBit(x, y, k);
    NotBit(x, k);
    AndBit(Not(x), z, k);
    OrBit(And(x, y), And(Not(x), z), k);
  }

  /** G takes x's bit where z is set and y's elsewhere. */
  lemma GBit(x: bv32, y: bv32, z: bv32, k: bv5)
    ensures Bit(BitsG(x, y, z), k) == if Bit(z, k) then Bit(x, k) else Bit(y, k)
  {
    hide *;
    GByName(x, y, z);
    AndBit(x, z, k);
    NotBit(z, k);
    AndBit(y, Not(z), k);
    OrBit(And(x, z), And(y, Not(z)), k);
  }

  /** H is set where an odd number of the three is. */
  lemma HBit(x: bv32, y: bv32, z: bv32, k: bv5)
    ensures Bit(BitsH(x, y, z), k) == ((Bit(x, k) != Bit(y, k)) != Bit(z, k))
  {
    hide Bit;
    XorOpBit(x, y, k);
    XorOpBit(x ^ y, z, k);
  }

  /** I is y turned over where x is set or z is clear. */
  lemma IBit(x: bv32, y: bv32, z: bv32, k: bv5)
    ensures Bit(BitsI(x, y, z), k) == if Bit(x, k) || !Bit(z, k) then !Bit(y, k) else Bit(y, k)
  {
    hide *;
    IByName(x, y, z);
    NotBit(z, k);
    OrBit(x, Not(z), k);
    XorBit(y, Or(x, Not(z)), k);
  }

  lemma RotateByName(x: bv32, n: bv5, m: bv5, p: bv32)
    requires n != 0 && m == 31 - n + 1 && p == n as bv32
    ensures 0 < p < 32 && BitsRotate(x, p) == Or(Left(x, n), Right(x, m))
  {
  }

  /** A place below n comes from above, round the end. */
  lemma Places(n: bv5, m: bv5, k: bv5)
    requires n != 0 && m == 31 - n + 1
    ensures n <= k ==> !(k <= 31 - m)
    ensures k < n ==> k <= 31 - m && k + m == k - n
  {
  }

  /** Bit k moves up n places, round the end. */
  lemma RotateBit(x: bv32, n: bv5, p: bv32, k: bv5)
    requires n != 0 && p == n as bv32
    ensures 0 < p < 32 && Bit(BitsRotate(x, p), k) == Bit(x, k - n)
  {
    hide *;
    var m: bv5 := 31 - n + 1;
    RotateByName(x, n, m, p);
    LeftBit(x, n, k);
    RightBit(x, m, k);
    Places(n, m, k);
    OrBit(Left(x, n), Right(x, m), k);
  }
}

/**
  The one-shot definition of MD5, after sections 3.1 to 3.5 of RFC 1321: pad, append
  the length, fold the compression function over 64-byte blocks, and lay out the state.
 */
module Md5Spec {
  import opened Md5Bits
  import opened Words

  datatype Quad = Quad(a: word, b: word, c: word, d: word)

  const INITIAL := Quad(0x67452301, 0xefcdab89, 0x98badcfe, 0x10325476)

  // The auxiliary functions and the circular shift of section 3.4, on words.

  function F(x: word, y: word, z: word): word {
    BitsF(x as bv32, y as bv32, z as bv32) as word
  }

  function G(x: word, y: word, z: word): word {
    BitsG(x as bv32, y as bv32, z as bv32) as word
  }

  function H(x: word, y: word, z: word): word {
    BitsH(x as bv32, y as bv32, z as bv32) as word
  }

  function I(x: word, y: word, z: word): word {
    BitsI(x as bv32, y as bv32, z as bv32) as word
  }

  function RotateLeft(x: word, n: nat): word
    requires 0 < n < 32
  {
    BitsRotate(x as bv32, n as bv32) as word
  }

  /** The auxiliary function of the round that step i belongs to. */
  function Mix(i: nat, x: word, y: word, z: word): word {
    if i < 16 then F(x, y, z) else if i < 32 then G(x, y, z) else if i < 48 then H(x, y, z) else I(x, y, z)
  }

  // ---------- The words bit by bit ----------

  predicate WordBit(w: word, k: bv5) {
    Bit(w as bv32, k)
  }

  /** What the round of step i makes of three bits in one place. */
  function MixBit(i: nat, x: bool, y: bool, z: bool): bool {
    if i < 16 then (if x then y else z)
    else if i < 32 then (if z then x else y)
    else if i < 48 then (x != y) != z
    else if x || !z then !y else y
  }

  lemma AsWord(x: bv32)
    ensures (x as int) as bv32 == x
  {
  }

  lemma FWordBit(x: word, y: word, z: word, k: bv5)
    ensures WordBit(F(x, y, z), k) == if WordBit(x, k) then WordBit(y, k) else WordBit(z, k)
  {
    hide Bit, BitsF;
    FBit(x as bv32, y as bv32, z as bv32, k);
    AsWord(BitsF(x as bv32, y as bv32, z as bv32));
  }

  lemma GWordBit(x: word, y: word, z: word, k: bv5)
    ensures WordBit(G(x, y, z), k) == if WordBit(z, k) then WordBit(x, k) else WordBit(y, k)
  {
    hide Bit, BitsG;
    GBit(x as bv32, y as bv32, z as bv32, k);
    AsWord(BitsG(x as bv32, y as bv32, z as bv32));
  }

  lemma HWordBit(x: word, y: word, z: word, k: bv5)
    ensures WordBit(H(x, y, z), k) == ((WordBit(x, k) != WordBit(y, k)) != WordBit(z, k))
  {
    hide Bit, BitsH;
    HBit(x as bv32, y as bv32, z as bv32, k);
    AsWord(BitsH(x as bv32, y as bv32, z as bv32));
  }

  lemma IWordBit(x: word, y: word, z: word, k: bv5)
    ensures WordBit(I(x, y, z), k) == if WordBit(x, k) || !WordBit(z, k) then !WordBit(y, k) else WordBit(y, k)
  {
    hide Bit, BitsI;
    IBit(x as bv32, y as bv32, z as bv32, k);
    AsWord(BitsI(x as bv32, y as bv32, z as bv32));
  }

  lemma MixAtBit(i: nat, x: word, y: word, z: word, k: bv5)
    ensures WordBit(Mix(i, x, y, z), k) == MixBit(i, WordBit(x, k), WordBit(y, k), WordBit(z, k))
  {
    hide WordBit, F, G, H, I;
    FWordBit(x, y, z, k);
    GWordBit(x, y, z, k);
    HWordBit(x, y, z, k);
    IWordBit(x, y, z, k);
  }

  /** A word made of bits is another word exactly when all their bits are the same. */
  lemma WordOfBits(b: bv32, w: word)
    requires (w as bv32) as word == w
    ensures b as word == w <==> forall k: bv5 :: Bit(b, k) == WordBit(w, k)
  {
    hide Bit;
    AsWord(b);
    if forall k: bv5 :: Bit(b, k) == WordBit(w, k) {
      forall k: bv5 ensures Bit(b, k) == Bit(w as bv32, k) {
        assert Bit(b, k) == WordBit(w, k);
      }
      SameBits(b, w as bv32);
    }
  }

  /** The word of a Mix comes from bits. */
  lemma MixFromBits(i: nat, x: word, y: word, z: word)
    ensures (Mix(i, x, y, z) as bv32) as word == Mix(i, x, y, z)
  {
    hide BitsF, BitsG, BitsH, BitsI;
    var p, q, r := x as bv32, y as bv32, z as bv32;
    AsWord(BitsF(p, q, r));
    AsWord(BitsG(p, q, r));
    AsWord(BitsH(p, q, r));
    AsWord(BitsI(p, q, r));
  }

  /** The round's function gives the one word that has, in each place, what the round makes of the three bits there. */
  lemma MixIsBitwise(i: nat, x: word, y: word, z: word, b: bv32)
    ensures b as word == Mix(i, x, y, z) <==>
      forall k: bv5 :: Bit(b, k) == MixBit(i, WordBit(x, k), WordBit(y, k), WordBit(z, k))
  {
    hide Bit, WordBit, Mix, MixBit;
    forall k: bv5 ensures WordBit(Mix(i, x, y, z), k) == MixBit(i, WordBit(x, k), WordBit(y, k), WordBit(z, k)) {
      MixAtBit(i, x, y, z, k);
    }
    MixFromBits(i, x, y, z);
    WordOfBits(b, Mix(i, x, y, z));
  }

  lemma Amount(n: nat)
    requires 0 < n < 32
    ensures n as bv5 != 0 && (n as bv5) as bv32 == n as bv32
  {
  }

  lemma RotateAtBit(x: word, n: nat, k: bv5)
    requires 0 < n < 32
    ensures WordBit(RotateLeft(x, n), k) == WordBit(x, k - n as bv5)
  {
    hide Bit, BitsRotate;
    Amount(n);
    RotateBit(x as bv32, n as bv5, n as bv32, k);
    AsWord(BitsRotate(x as bv32, n as bv32));
  }

  /** Rotating by n gives the one word whose bit k is the bit n places below, round the end. */
  lemma RotateIsCircular(x: word, n: nat, b: bv32)
    requires 0 < n < 32
    ensures b as word == RotateLeft(x, n) <==> forall k: bv5 :: Bit(b, k) == WordBit(x, k - n as bv5)
  {
    hide Bit, WordBit, BitsRotate;
    forall k: bv5 ensures WordBit(RotateLeft(x, n), k) == WordBit(x, k - n as bv5) {
      RotateAtBit(x, n, k);
    }
    AsWord(BitsRotate(x as bv32, n as bv32));
    WordOfBits(b, RotateLeft(x, n));
  }

  /** The index of the message word that step i uses. */
  function Schedule(i: nat): (k: nat)
    ensures k < 16
  {
    if i < 16 then i
    else if i < 32 then (5 * i + 1) % 16
    else if i < 48 then (3 * i + 5) % 16
    else (7 * i) % 16
  }

  /** The shift amount of step i. */
  function Shift(i: nat): (s: nat)
    ensures 0 < s < 32
  {
    var r := i % 4;
    if i < 16 then (if r == 0 then 7 else if r == 1 then 12 else if r == 2 then 17 else 22)
    else if i < 32 then (if r == 0 then 5 else if r == 1 then 9 else if r == 2 then 14 else 20)
    else if i < 48 then (if r == 0 then 4 else if r == 1 then 11 else if r == 2 then 16 else 23)
    else (if r == 0 then 6 else if r == 1 then 10 else if r == 2 then 15 else 21)
  }

  /** The 64-element table T of section 3.4, indexed from 0. */
  function Sine(i: nat): word {
    match i
    case 0 => 0xd76aa478 case 1 => 0xe8c7b756 case 2 => 0x242070db case 3 => 0xc1bdceee
    case 4 => 0xf57c0faf case 5 => 0x4787c62a case 6 => 0xa8304613 case 7 => 0xfd469501
    case 8 => 0x698098d8 case 9 => 0x8b44f7af case 10 => 0xffff5bb1 case 11 => 0x895cd7be
    case 12 => 0x6b901122 case 13 => 0xfd987193 case 14 => 0xa679438e case 15 => 0x49b40821
    case 16 => 0xf61e2562 case 17 => 0xc040b340 case 18 => 0x265e5a51 case 19 => 0xe9b6c7aa
    case 20 => 0xd62f105d case 21 => 0x02441453 case 22 => 0xd8a1e681 case 23 => 0xe7d3fbc8
    case 24 => 0x21e1cde6 case 25 => 0xc33707d6 case 26 => 0xf4d50d87 case 27 => 0x455a14ed
    case 28 => 0xa9e3e905 case 29 => 0xfcefa3f8 case 30 => 0x676f02d9 case 31 => 0x8d2a4c8a
    case 32 => 0xfffa3942 case 33 => 0x8771f681 case 34 => 0x6d9d6122 case 35 => 0xfde5380c
    case 36 => 0xa4beea44 case 37 => 0x4bdecfa9 case 38 => 0xf6bb4b60 case 39 => 0xbebfbc70
    case 40 => 0x289b7ec6 case 41 => 0xeaa127fa case 42 => 0xd4ef3085 case 43 => 0x04881d05
    case 44 => 0xd9d4d039 case 45 => 0xe6db99e5 case 46 => 0x1fa27cf8 case 47 => 0xc4ac5665
    case 48 => 0xf4292244 case 49 => 0x432aff97 case 50 => 0xab9423a7 case 51 => 0xfc93a039
    case 52 => 0x655b59c3 case 53 => 0x8f0ccc92 case 54 => 0xffeff47d case 55 => 0x85845dd1
    case 56 => 0x6fa87e4f case 57 => 0xfe2ce6e0 case 58 => 0xa3014314 case 59 => 0x4e0811a1
    case 60 => 0xf7537e82 case 61 => 0xbd3af235 case 62 => 0x2ad7d2bb case _ => 0xeb86d391
  }

  /** Each round goes through the message words from its own start and by its own stride. */
  lemma ScheduleStrides(i: nat)
    requires i < 63 && i != 15 && i != 31 && i != 47
    ensures Schedule(0) == 0 && Schedule(16) == 1 && Schedule(32) == 5 && Schedule(48) == 0
    ensures var stride := if i < 16 then 1 else if i < 32 then 5 else if i < 48 then 3 else 7;
      Schedule(i + 1) == (Schedule(i) + stride) % 16
  {
    if i < 16 {
    } else if i < 32 {
      Onward(5 * i + 1, 5);
    } else if i < 48 {
      Onward(3 * i + 5, 3);
    } else {
      Onward(7 * i, 7);
    }
  }

  lemma Onward(x: nat, k: nat)
    ensures (x + k) % 16 == (x % 16 + k) % 16
  {
  }

  /** One step: the new word becomes b, and the other registers rotate by one place. */
  function Step(q: Quad, x: seq<word>, i: nat): Quad
    requires |x| == 16
  {
    var t := RotateLeft((q.a + Mix(i, q.b, q.c, q.d) + x[Schedule(i)] + Sine(i)) % WORD_SIZE, Shift(i));
    Quad(q.d, Add(q.b, t), q.b, q.c)
  }

  /** Steps 0 to n - 1, in order. */
  function Steps(q: Quad, x: seq<word>, n: nat): Quad
    requires |x| == 16
  {
    if n == 0 then q else Step(Steps(q, x, n - 1), x, n - 1)
  }

  /** 64 steps over one block, then the addition of the incoming state. */
  function Compress(q: Quad, block: seq<byte>): Quad
    requires |block| == 64
  {
    var r := Steps(q, WordsOfBytes(block), 64);
    Quad(Add(q.a, r.a), Add(q.b, r.b), Add(q.c, r.c), Add(q.d, r.d))
  }

  /** The state after a whole number of blocks. */
  function Absorb(q: Quad, m: seq<byte>): Quad
    requires |m| % 64 == 0
    decreases |m|
  {
    if m == [] then q
    else
      var n := |m| - 64;
      Compress(Absorb(q, m[..n]), m[n..])
  }

  function Zeros(n: nat): seq<byte> {
    seq(n, _ => 0)
  }

  /** A number modulo 2^64 as eight bytes, low-order byte first. */
  function LengthField(n: nat): (bs: seq<byte>)
    ensures |bs| == 8
  {
    BytesOfWords([n % WORD_SIZE, n / WORD_SIZE % WORD_SIZE])
  }

  /** The number of padding bytes, the 0x80 included (section 3.1). */
  function PadLength(n: nat): (k: nat)
    ensures 1 <= k <= 64
    ensures (n + k) % 64 == 56
  {
    if n % 64 < 56 then 56 - n % 64 else 120 - n % 64
  }

  function Pad(m: seq<byte>): (p: seq<byte>)
    ensures |p| == |m| + PadLength(|m|) + 8
    ensures |p| % 64 == 0
  {
    hide PadLength, LengthField;
    WholeBlocks(|m| + PadLength(|m|));
    m + [0x80] + Zeros(PadLength(|m|) - 1) + LengthField(8 * |m|)
  }

  lemma WholeBlocks(n: nat)
    requires n % 64 == 56
    ensures (n + 8) % 64 == 0
  {
  }

  function StateBytes(q: Quad): (bs: seq<byte>)
    ensures |bs| == 16
  {
    BytesOfWords([q.a, q.b, q.c, q.d])
  }

  /** Section 3.3 of RFC 1321: the initial registers, written low-order byte first, count up and down again. */
  lemma InitialBytes(j: nat)
    requires j < 16
    ensures StateBytes(INITIAL)[j] == if j < 8 then 0x01 + 0x22 * j else 0xfe - 0x22 * (j - 8)
  {
    hide ByteOf, BytesOfWords;
    BytesOfWordsAt([INITIAL.a, INITIAL.b, INITIAL.c, INITIAL.d], j / 4, j % 4);
    ByteWordRoundTrip(0x01, 0x23, 0x45, 0x67);
    ByteWordRoundTrip(0x89, 0xab, 0xcd, 0xef);
    ByteWordRoundTrip(0xfe, 0xdc, 0xba, 0x98);
    ByteWordRoundTrip(0x76, 0x54, 0x32, 0x10);
  }

  /** The MD5 digest of a message. */
  function Md5(m: seq<byte>): (digest: seq<byte>)
    ensures |digest| == 16
  {
    StateBytes(Absorb(INITIAL, Pad(m)))
  }

  // ---------- The block fold ----------

  lemma AbsorbBlock(q: Quad, m: seq<byte>, block: seq<byte>)
    requires |m| % 64 == 0 && |block| == 64
    ensures Absorb(q, m + block) == Compress(Absorb(q, m), block)
  {
    hide Compress;
    assert (m + block)[..|m|] == m;
    assert (m + block)[|m|..] == block;
  }

  /** Absorbing a concatenation is absorbing its parts in turn. */
  lemma {:induction false} AbsorbConcat(q: Quad, m: seq<byte>, k: seq<byte>)
    requires |m| % 64 == 0 && |k| % 64 == 0
    ensures Absorb(q, m + k) == Absorb(Absorb(q, m), k)
    decreases |k|
  {
    hide Compress;
    if k == [] {
      assert m + k == m;
    } else {
      var n := |k| - 64;
      AbsorbConcat(q, m, k[..n]);
      assert m + k == (m + k[..n]) + k[n..];
      AbsorbBlock(q, m + k[..n], k[n..]);
    }
  }

  // ---------- Padding ----------

  /** No shorter run of padding bytes leaves room for exactly the length field at a block's end. */
  lemma PadIsMinimal(n: nat, k: nat)
    requires 1 <= k && (n + k) % 64 == 56
    ensures PadLength(n) <= k
  {
  }

  /** The padding adds one block to the whole blocks of the message, or two when the tail is long. */
  lemma PadBlocks(m: seq<byte>)
    ensures |Pad(m)| / 64 == |m| / 64 + (if |m| % 64 < 56 then 1 else 2)
  {
  }

  /** The eight bytes, read as two words, low word first, are the number modulo 2^64. */
  lemma LengthFieldValue(n: nat)
    ensures var ws := WordsOfBytes(LengthField(n)); ws[0] + ws[1] * WORD_SIZE == n % LONG_SIZE
  {
    hide BytesOfWords, WordsOfBytes;
    WordsRoundTrip([n % WORD_SIZE, n / WORD_SIZE % WORD_SIZE]);
    LowHigh(n);
  }

  lemma LowHigh(n: nat)
    ensures n % WORD_SIZE + n / WORD_SIZE % WORD_SIZE * WORD_SIZE == n % LONG_SIZE
  {
    var q, r := n / WORD_SIZE / WORD_SIZE, n % WORD_SIZE + n / WORD_SIZE % WORD_SIZE * WORD_SIZE;
    assert n == q * LONG_SIZE + r;
  }

  /** The length field fixes a number modulo 2^64. */
  lemma LengthFieldCongruent(i: nat, j: nat)
    requires LengthField(i) == LengthField(j)
    ensures i % LONG_SIZE == j % LONG_SIZE
  {
    hide LengthField, WordsOfBytes;
    LengthFieldValue(i);
    LengthFieldValue(j);
  }

  lemma LengthFieldInjective(i: nat, j: nat)
    requires i < LONG_SIZE && j < LONG_SIZE
    requires LengthField(i) == LengthField(j)
    ensures i == j
  {
    hide LengthField;
    LengthFieldCongruent(i, j);
  }

  /** Beyond 2^64 the length field alone no longer fixes the number. */
  lemma LengthFieldWraps(n: nat)
    ensures LengthField(n + LONG_SIZE) == LengthField(n)
  {
    assert (n + LONG_SIZE) / WORD_SIZE == n / WORD_SIZE + WORD_SIZE;
    assert (n / WORD_SIZE + WORD_SIZE) % WORD_SIZE == n / WORD_SIZE % WORD_SIZE;
  }

  /**
    Messages with the same padded form are the same message, however long: padded forms of one
    length come from lengths less than 64 apart, and the length field tells those apart.
   */
  lemma PadInjective(m: seq<byte>, k: seq<byte>)
    requires Pad(m) == Pad(k)
    ensures m == k
  {
    hide LengthField, PadLength;
    var p := Pad(m);
    assert p[|p| - 8..] == LengthField(8 * |m|);
    assert Pad(k)[|p| - 8..] == LengthField(8 * |k|);
    LengthFieldCongruent(8 * |m|, 8 * |k|);
    CloseAndCongruent(8 * |m|, 8 * |k|);
    assert p[..|m|] == m;
    assert Pad(k)[..|k|] == k;
  }

  lemma CloseAndCongruent(i: nat, j: nat)
    requires i % LONG_SIZE == j % LONG_SIZE && -LONG_SIZE < i - j < LONG_SIZE
    ensures i == j
  {
    assert i == i / LONG_SIZE * LONG_SIZE + i % LONG_SIZE;
    assert j == j / LONG_SIZE * LONG_SIZE + j % LONG_SIZE;
  }
}
