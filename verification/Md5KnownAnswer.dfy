/**
  A known answer: the digest of "abc" from the test suite in section A.5 of RFC 1321, computed
  from the definition step by step. It ties the tables, the initial state, the order of the
  registers and bytes, and the padding to their values.
 */
module Md5KnownAnswer {
  import opened Words
  import opened Md5Spec

  const ABC: seq<byte> := [0x61, 0x62, 0x63]

  /** The words of the one padded block: the three bytes and 0x80, and the length of 24 bits. */
  const BLOCK: seq<word> := [0x80636261, 0, 0, 0, 0, 0, 0, 0, 0, 0, 0, 0, 0, 0, 24, 0]

  function BlockWord(k: nat): word {
    if k == 0 then 0x80636261 else if k == 14 then 24 else 0
  }

  /** The registers after n steps. */
  ghost predicate After(n: nat, q: Quad) {
    Steps(INITIAL, BLOCK, n) == q
  }

  lemma Start()
    ensures After(0, INITIAL)
  {
  }

  /** A step from the value m of the round's function, the sum s, and the rotated sum t. */
  lemma Forward(n: nat, q: Quad, k: word, m: word, s: word, t: word)
    requires After(n, q) && BlockWord(Schedule(n)) == k && Mix(n, q.b, q.c, q.d) == m
    requires (q.a + m + k + Sine(n)) % 0x1_0000_0000 == s && RotateLeft(s, Shift(n)) == t
    ensures After(n + 1, Quad(q.d, Add(q.b, t), q.b, q.c))
  {
    hide Mix, Sine, RotateLeft, Shift, Schedule, Add;
    assert BLOCK[Schedule(n)] == BlockWord(Schedule(n));
  }

  lemma FValues()
    ensures F(0xefcdab89, 0x98badcfe, 0x10325476) == 0x98badcfe
    ensures F(0xd6d117b4, 0xefcdab89, 0x98badcfe) == 0xceebcbca
    ensures F(0x344a8432, 0xd6d117b4, 0xefcdab89) == 0xdfc52fb9
    ensures F(0x2f6fbd72, 0x344a8432, 0xd6d117b4) == 0xf4da86b6
    ensures F(0x7ad956f2, 0x2f6fbd72, 0x344a8432) == 0x2e4b9472
    ensures F(0xc73741ef, 0x7ad956f2, 0x2f6fbd72) == 0x6a59fcf2
    ensures F(0x8bac3051, 0xc73741ef, 0x7ad956f2) == 0xf37546e3
    ensures F(0x207dc67b, 0x8bac3051, 0xc73741ef) == 0xc72e01d5
    ensures F(0x928d99f6, 0x207dc67b, 0x8bac3051) == 0x092da073
    ensures F(0x854b3712, 0x928d99f6, 0x207dc67b) == 0xa03dd17b
    ensures F(0x74e2f284, 0x854b3712, 0x928d99f6) == 0x864f3b72
    ensures F(0x3020401c, 0x74e2f284, 0x854b3712) == 0xb56b7706
    ensures F(0x5ed49596, 0x3020401c, 0x74e2f284) == 0x30226214
    ensures F(0xdda9b9a6, 0x5ed49596, 0x3020401c) == 0x7c80d19e
    ensures F(0xa1051895, 0xdda9b9a6, 0x5ed49596) == 0xdfd19d86
    ensures F(0xe396856b, 0xa1051895, 0xdda9b9a6) == 0xbd2d3885
  {
  }

  lemma FRotations()
    ensures RotateLeft(0x57ce06d8, 7) == 0xe7036c2b
    ensures RotateLeft(0xc7e5d796, 12) == 0x5d796c7e
    ensures RotateLeft(0x9ca07d92, 17) == 0xfb253940
    ensures RotateLeft(0xa666012d, 22) == 0x4b699980
    ensures RotateLeft(0xfa98bbd5, 7) == 0x4c5deafd
    ensures RotateLeft(0xe62c474e, 12) == 0xc474ee62
    ensures RotateLeft(0xcb154a68, 17) == 0x94d1962a
    ensures RotateLeft(0x3f4dedc8, 22) == 0x720fd37b
    ensures RotateLeft(0x39e57b3a, 7) == 0xf2bd9d1c
    ensures RotateLeft(0xb72ef97b, 12) == 0xef97bb72
    ensures RotateLeft(0xa6cc5d9e, 17) == 0xbb3d4d98
    ensures RotateLeft(0xd155e8ba, 22) == 0x2eb4557a
    ensures RotateLeft(0x20fdaa48, 7) == 0x7ed52410
    ensures RotateLeft(0xeefc35b5, 12) == 0xc35b5eef
    ensures RotateLeft(0xb66b2148, 17) == 0x42916cd6
    ensures RotateLeft(0x65b5d63c, 22) == 0x8f196d75
  {
  }

  lemma Steps0To4()
    requires After(0, Quad(0x67452301, 0xefcdab89, 0x98badcfe, 0x10325476))
    ensures After(4, Quad(0xd6d117b4, 0x7ad956f2, 0x2f6fbd72, 0x344a8432))
  {
    hide After, F, G, H, I, RotateLeft;
    FValues();
    FRotations();
    Forward(0, Quad(0x67452301, 0xefcdab89, 0x98badcfe, 0x10325476), 0x80636261, 0x98badcfe, 0x57ce06d8, 0xe7036c2b);
    Forward(1, Quad(0x10325476, 0xd6d117b4, 0xefcdab89, 0x98badcfe), 0, 0xceebcbca, 0xc7e5d796, 0x5d796c7e);
    Forward(2, Quad(0x98badcfe, 0x344a8432, 0xd6d117b4, 0xefcdab89), 0, 0xdfc52fb9, 0x9ca07d92, 0xfb253940);
    Forward(3, Quad(0xefcdab89, 0x2f6fbd72, 0x344a8432, 0xd6d117b4), 0, 0xf4da86b6, 0xa666012d, 0x4b699980);
  }

  lemma Steps4To8()
    requires After(4, Quad(0xd6d117b4, 0x7ad956f2, 0x2f6fbd72, 0x344a8432))
    ensures After(8, Quad(0xc73741ef, 0x928d99f6, 0x207dc67b, 0x8bac3051))
  {
    hide After, F, G, H, I, RotateLeft;
    FValues();
    FRotations();
    Forward(4, Quad(0xd6d117b4, 0x7ad956f2, 0x2f6fbd72, 0x344a8432), 0, 0x2e4b9472, 0xfa98bbd5, 0x4c5deafd);
    Forward(5, Quad(0x344a8432, 0xc73741ef, 0x7ad956f2, 0x2f6fbd72), 0, 0x6a59fcf2, 0xe62c474e, 0xc474ee62);
    Forward(6, Quad(0x2f6fbd72, 0x8bac3051, 0xc73741ef, 0x7ad956f2), 0, 0xf37546e3, 0xcb154a68, 0x94d1962a);
    Forward(7, Quad(0x7ad956f2, 0x207dc67b, 0x8bac3051, 0xc73741ef), 0, 0xc72e01d5, 0x3f4dedc8, 0x720fd37b);
  }

  lemma Steps8To12()
    requires After(8, Quad(0xc73741ef, 0x928d99f6, 0x207dc67b, 0x8bac3051))
    ensures After(12, Quad(0x854b3712, 0x5ed49596, 0x3020401c, 0x74e2f284))
  {
    hide After, F, G, H, I, RotateLeft;
    FValues();
    FRotations();
    Forward(8, Quad(0xc73741ef, 0x928d99f6, 0x207dc67b, 0x8bac3051), 0, 0x092da073, 0x39e57b3a, 0xf2bd9d1c);
    Forward(9, Quad(0x8bac3051, 0x854b3712, 0x928d99f6, 0x207dc67b), 0, 0xa03dd17b, 0xb72ef97b, 0xef97bb72);
    Forward(10, Quad(0x207dc67b, 0x74e2f284, 0x854b3712, 0x928d99f6), 0, 0x864f3b72, 0xa6cc5d9e, 0xbb3d4d98);
    Forward(11, Quad(0x928d99f6, 0x3020401c, 0x74e2f284, 0x854b3712), 0, 0xb56b7706, 0xd155e8ba, 0x2eb4557a);
  }

  lemma Steps12To16()
    requires After(12, Quad(0x854b3712, 0x5ed49596, 0x3020401c, 0x74e2f284))
    ensures After(16, Quad(0xdda9b9a6, 0x72aff2e0, 0xe396856b, 0xa1051895))
  {
    hide After, F, G, H, I, RotateLeft;
    FValues();
    FRotations();
    Forward(12, Quad(0x854b3712, 0x5ed49596, 0x3020401c, 0x74e2f284), 0, 0x30226214, 0x20fdaa48, 0x7ed52410);
    Forward(13, Quad(0x74e2f284, 0xdda9b9a6, 0x5ed49596, 0x3020401c), 0, 0x7c80d19e, 0xeefc35b5, 0xc35b5eef);
    Forward(14, Quad(0x3020401c, 0xa1051895, 0xdda9b9a6, 0x5ed49596), 24, 0xdfd19d86, 0xb66b2148, 0x42916cd6);
    Forward(15, Quad(0x5ed49596, 0xe396856b, 0xa1051895, 0xdda9b9a6), 0, 0xbd2d3885, 0x65b5d63c, 0x8f196d75);
  }

  lemma GValues()
    ensures G(0x72aff2e0, 0xe396856b, 0xa1051895) == 0x629795ea
    ensures G(0x3e9e9126, 0x72aff2e0, 0xe396856b) == 0x32bff3a2
    ensures G(0x4a1d804e, 0x3e9e9126, 0x72aff2e0) == 0x4e1d8146
    ensures G(0xe25e1652, 0x4a1d804e, 0x3e9e9126) == 0x621f104a
    ensures G(0xb5b204e4, 0xe25e1652, 0x4a1d804e) == 0xa0521654
    ensures G(0x59a8ffda, 0xb5b204e4, 0xe25e1652) == 0x55a816f6
    ensures G(0x6d002f1e, 0x59a8ffda, 0xb5b204e4) == 0x6d08ff1e
    ensures G(0xabfc7920, 0x6d002f1e, 0x59a8ffda) == 0x2da87904
    ensures G(0x47092c07, 0xabfc7920, 0x6d002f1e) == 0xc7fc7c26
    ensures G(0xb7f268cf, 0x47092c07, 0xabfc7920) == 0xe7f16c07
    ensures G(0x09388eff, 0xb7f268cf, 0x47092c07) == 0xb1fa4ccf
    ensures G(0xfe1623b1, 0x09388eff, 0xb7f268cf) == 0xbe1aa6b1
    ensures G(0x786acb8f, 0xfe1623b1, 0x09388eff) == 0xfe2eab8f
    ensures G(0x790a77fb, 0x786acb8f, 0xfe1623b1) == 0x786aebbf
    ensures G(0x9f47e4f8, 0x790a77fb, 0x786acb8f) == 0x1942f4f8
    ensures G(0xa62884aa, 0x9f47e4f8, 0x790a77fb) == 0xa64d84aa
  {
  }

  lemma GRotations()
    ensures RotateLeft(0x365f74f2, 5) == 0xcbee9e46
    ensures RotateLeft(0x9405bf77, 9) == 0x0b7eef28
    ensures RotateLeft(0x58126102, 14) == 0x98409604
    ensures RotateLeft(0x3ee92d35, 20) == 0xd353ee92
    ensures RotateLeft(0xb51fb7d7, 5) == 0xa3f6faf6
    ensures RotateLeft(0xa209ab97, 9) == 0x13572f44
    ensures RotateLeft(0x2808fbf1, 14) == 0x3efc4a02
    ensures RotateLeft(0xcb2e79b0, 20) == 0x9b0cb2e7
    ensures RotateLeft(0x438749e6, 5) == 0x70e93cc8
    ensures RotateLeft(0x1828a313, 9) == 0x51462630
    ensures RotateLeft(0x52cbd376, 14) == 0xf4dd94b2
    ensures RotateLeft(0x4a7de7a5, 20) == 0x7a54a7de
    ensures RotateLeft(0x6004fd63, 5) == 0x009fac6c
    ensures RotateLeft(0x7e931eb6, 9) == 0x263d6cfd
    ensures RotateLeft(0x7ec81b82, 14) == 0x06e09fb2
    ensures RotateLeft(0xabe29cc3, 20) == 0xcc3abe29
  {
  }

  lemma Steps16To20()
    requires After(16, Quad(0xdda9b9a6, 0x72aff2e0, 0xe396856b, 0xa1051895))
    ensures After(20, Quad(0x3e9e9126, 0xb5b204e4, 0xe25e1652, 0x4a1d804e))
  {
    hide After, F, G, H, I, RotateLeft;
    GValues();
    GRotations();
    Forward(16, Quad(0xdda9b9a6, 0x72aff2e0, 0xe396856b, 0xa1051895), 0, 0x629795ea, 0x365f74f2, 0xcbee9e46);
    Forward(17, Quad(0xa1051895, 0x3e9e9126, 0x72aff2e0, 0xe396856b), 0, 0x32bff3a2, 0x9405bf77, 0x0b7eef28);
    Forward(18, Quad(0xe396856b, 0x4a1d804e, 0x3e9e9126, 0x72aff2e0), 0, 0x4e1d8146, 0x58126102, 0x98409604);
    Forward(19, Quad(0x72aff2e0, 0xe25e1652, 0x4a1d804e, 0x3e9e9126), 0x80636261, 0x621f104a, 0x3ee92d35, 0xd353ee92);
  }

  lemma Steps20To24()
    requires After(20, Quad(0x3e9e9126, 0xb5b204e4, 0xe25e1652, 0x4a1d804e))
    ensures After(24, Quad(0x59a8ffda, 0x47092c07, 0xabfc7920, 0x6d002f1e))
  {
    hide After, F, G, H, I, RotateLeft;
    GValues();
    GRotations();
    Forward(20, Quad(0x3e9e9126, 0xb5b204e4, 0xe25e1652, 0x4a1d804e), 0, 0xa0521654, 0xb51fb7d7, 0xa3f6faf6);
    Forward(21, Quad(0x4a1d804e, 0x59a8ffda, 0xb5b204e4, 0xe25e1652), 0, 0x55a816f6, 0xa209ab97, 0x13572f44);
    Forward(22, Quad(0xe25e1652, 0x6d002f1e, 0x59a8ffda, 0xb5b204e4), 0, 0x6d08ff1e, 0x2808fbf1, 0x3efc4a02);
    Forward(23, Quad(0xb5b204e4, 0xabfc7920, 0x6d002f1e, 0x59a8ffda), 0, 0x2da87904, 0xcb2e79b0, 0x9b0cb2e7);
  }

  lemma Steps24To28()
    requires After(24, Quad(0x59a8ffda, 0x47092c07, 0xabfc7920, 0x6d002f1e))
    ensures After(28, Quad(0xb7f268cf, 0x786acb8f, 0xfe1623b1, 0x09388eff))
  {
    hide After, F, G, H, I, RotateLeft;
    GValues();
    GRotations();
    Forward(24, Quad(0x59a8ffda, 0x47092c07, 0xabfc7920, 0x6d002f1e), 0, 0xc7fc7c26, 0x438749e6, 0x70e93cc8);
    Forward(25, Quad(0x6d002f1e, 0xb7f268cf, 0x47092c07, 0xabfc7920), 24, 0xe7f16c07, 0x1828a313, 0x51462630);
    Forward(26, Quad(0xabfc7920, 0x09388eff, 0xb7f268cf, 0x47092c07), 0, 0xb1fa4ccf, 0x52cbd376, 0xf4dd94b2);
    Forward(27, Quad(0x47092c07, 0xfe1623b1, 0x09388eff, 0xb7f268cf), 0, 0xbe1aa6b1, 0x4a7de7a5, 0x7a54a7de);
  }

  lemma Steps28To32()
    requires After(28, Quad(0xb7f268cf, 0x786acb8f, 0xfe1623b1, 0x09388eff))
    ensures After(32, Quad(0x790a77fb, 0x726342d3, 0xa62884aa, 0x9f47e4f8))
  {
    hide After, F, G, H, I, RotateLeft;
    GValues();
    GRotations();
    Forward(28, Quad(0xb7f268cf, 0x786acb8f, 0xfe1623b1, 0x09388eff), 0, 0xfe2eab8f, 0x6004fd63, 0x009fac6c);
    Forward(29, Quad(0x09388eff, 0x790a77fb, 0x786acb8f, 0xfe1623b1), 0, 0x786aebbf, 0x7e931eb6, 0x263d6cfd);
    Forward(30, Quad(0xfe1623b1, 0x9f47e4f8, 0x790a77fb, 0x786acb8f), 0, 0x1942f4f8, 0x7ec81b82, 0x06e09fb2);
    Forward(31, Quad(0x786acb8f, 0xa62884aa, 0x9f47e4f8, 0x790a77fb), 0, 0xa64d84aa, 0xabe29cc3, 0xcc3abe29);
  }

  lemma HValues()
    ensures H(0x726342d3, 0xa62884aa, 0x9f47e4f8) == 0x4b0c2281
    ensures H(0xb3707ebf, 0x726342d3, 0xa62884aa) == 0x673bb8c6
    ensures H(0x60127b2e, 0xb3707ebf, 0x726342d3) == 0xa1014742
    ensures H(0x8d212ff5, 0x60127b2e, 0xb3707ebf) == 0x5e432a64
    ensures H(0x3b0875c7, 0x8d212ff5, 0x60127b2e) == 0xd63b211c
    ensures H(0x21b117b9, 0x3b0875c7, 0x8d212ff5) == 0x97984d8b
    ensures H(0x6e7429d5, 0x21b117b9, 0x3b0875c7) == 0x74cd4bab
    ensures H(0x3575227e, 0x6e7429d5, 0x21b117b9) == 0x7ab01c12
    ensures H(0x5a2f5ea5, 0x3575227e, 0x6e7429d5) == 0x012e550e
    ensures H(0x11de1779, 0x5a2f5ea5, 0x3575227e) == 0x7e846ba2
    ensures H(0xfadcaa38, 0x11de1779, 0x5a2f5ea5) == 0xb12de3e4
    ensures H(0x31c465ca, 0xfadcaa38, 0x11de1779) == 0xdac6d88b
    ensures H(0x4c6124f4, 0x31c465ca, 0xfadcaa38) == 0x8779eb06
    ensures H(0x7f2e507b, 0x4c6124f4, 0x31c465ca) == 0x028b1145
    ensures H(0x99d9679d, 0x7f2e507b, 0x4c6124f4) == 0xaa961312
    ensures H(0x8fae6399, 0x99d9679d, 0x7f2e507b) == 0x6959547f
  {
  }

  lemma HRotations()
    ensures RotateLeft(0xc410d3be, 4) == 0x410d3bec
    ensures RotateLeft(0x8df5943f, 11) == 0xaca1fc6f
    ensures RotateLeft(0xb4c72d0e, 16) == 0x2d0eb4c7
    ensures RotateLeft(0xce8ba55b, 23) == 0xade745d2
    ensures RotateLeft(0x2e6a8a1f, 4) == 0xe6a8a1f2
    ensures RotateLeft(0x43899862, 11) == 0x4cc3121c
    ensures RotateLeft(0xf8a9c700, 16) == 0xc700f8a9
    ensures RotateLeft(0x74784e49, 23) == 0x24ba3c27
    ensures RotateLeft(0x4b7aeb8d, 4) == 0xb7aeb8d4
    ensures RotateLeft(0x57fd1fd2, 11) == 0xe8fe92bf
    ensures RotateLeft(0xbb9236e7, 16) == 0x36e7bb92
    ensures RotateLeft(0x397e5435, 23) == 0x1a9cbf2a
    ensures RotateLeft(0x732cd2b8, 4) == 0x32cd2b87
    ensures RotateLeft(0xe4435562, 11) == 0x1aab1722
    ensures RotateLeft(0xfbfcf5d4, 16) == 0xf5d4fbfc
    ensures RotateLeft(0x7a66cfd8, 23) == 0xec3d3367
  {
  }

  lemma Steps32To36()
    requires After(32, Quad(0x790a77fb, 0x726342d3, 0xa62884aa, 0x9f47e4f8))
    ensures After(36, Quad(0xb3707ebf, 0x3b0875c7, 0x8d212ff5, 0x60127b2e))
  {
    hide After, F, G, H, I, RotateLeft;
    HValues();
    HRotations();
    Forward(32, Quad(0x790a77fb, 0x726342d3, 0xa62884aa, 0x9f47e4f8), 0, 0x4b0c2281, 0xc410d3be, 0x410d3bec);
    Forward(33, Quad(0x9f47e4f8, 0xb3707ebf, 0x726342d3, 0xa62884aa), 0, 0x673bb8c6, 0x8df5943f, 0xaca1fc6f);
    Forward(34, Quad(0xa62884aa, 0x60127b2e, 0xb3707ebf, 0x726342d3), 0, 0xa1014742, 0xb4c72d0e, 0x2d0eb4c7);
    Forward(35, Quad(0x726342d3, 0x8d212ff5, 0x60127b2e, 0xb3707ebf), 24, 0x5e432a64, 0xce8ba55b, 0xade745d2);
  }

  lemma Steps36To40()
    requires After(36, Quad(0xb3707ebf, 0x3b0875c7, 0x8d212ff5, 0x60127b2e))
    ensures After(40, Quad(0x21b117b9, 0x5a2f5ea5, 0x3575227e, 0x6e7429d5))
  {
    hide After, F, G, H, I, RotateLeft;
    HValues();
    HRotations();
    Forward(36, Quad(0xb3707ebf, 0x3b0875c7, 0x8d212ff5, 0x60127b2e), 0, 0xd63b211c, 0x2e6a8a1f, 0xe6a8a1f2);
    Forward(37, Quad(0x60127b2e, 0x21b117b9, 0x3b0875c7, 0x8d212ff5), 0, 0x97984d8b, 0x43899862, 0x4cc3121c);
    Forward(38, Quad(0x8d212ff5, 0x6e7429d5, 0x21b117b9, 0x3b0875c7), 0, 0x74cd4bab, 0xf8a9c700, 0xc700f8a9);
    Forward(39, Quad(0x3b0875c7, 0x3575227e, 0x6e7429d5, 0x21b117b9), 0, 0x7ab01c12, 0x74784e49, 0x24ba3c27);
  }

  lemma Steps40To44()
    requires After(40, Quad(0x21b117b9, 0x5a2f5ea5, 0x3575227e, 0x6e7429d5))
    ensures After(44, Quad(0x11de1779, 0x4c6124f4, 0x31c465ca, 0xfadcaa38))
  {
    hide After, F, G, H, I, RotateLeft;
    HValues();
    HRotations();
    Forward(40, Quad(0x21b117b9, 0x5a2f5ea5, 0x3575227e, 0x6e7429d5), 0, 0x012e550e, 0x4b7aeb8d, 0xb7aeb8d4);
    Forward(41, Quad(0x6e7429d5, 0x11de1779, 0x5a2f5ea5, 0x3575227e), 0x80636261, 0x7e846ba2, 0x57fd1fd2, 0xe8fe92bf);
    Forward(42, Quad(0x3575227e, 0xfadcaa38, 0x11de1779, 0x5a2f5ea5), 0, 0xb12de3e4, 0xbb9236e7, 0x36e7bb92);
    Forward(43, Quad(0x5a2f5ea5, 0x31c465ca, 0xfadcaa38, 0x11de1779), 0, 0xdac6d88b, 0x397e5435, 0x1a9cbf2a);
  }

  lemma Steps44To48()
    requires After(44, Quad(0x11de1779, 0x4c6124f4, 0x31c465ca, 0xfadcaa38))
    ensures After(48, Quad(0x7f2e507b, 0x7beb9700, 0x8fae6399, 0x99d9679d))
  {
    hide After, F, G, H, I, RotateLeft;
    HValues();
    HRotations();
    Forward(44, Quad(0x11de1779, 0x4c6124f4, 0x31c465ca, 0xfadcaa38), 0, 0x8779eb06, 0x732cd2b8, 0x32cd2b87);
    Forward(45, Quad(0xfadcaa38, 0x7f2e507b, 0x4c6124f4, 0x31c465ca), 0, 0x028b1145, 0xe4435562, 0x1aab1722);
    Forward(46, Quad(0x31c465ca, 0x99d9679d, 0x7f2e507b, 0x4c6124f4), 0, 0xaa961312, 0xfbfcf5d4, 0xf5d4fbfc);
    Forward(47, Quad(0x4c6124f4, 0x8fae6399, 0x99d9679d, 0x7f2e507b), 0, 0x6959547f, 0x7a66cfd8, 0xec3d3367);
  }

  lemma IValues()
    ensures I(0x7beb9700, 0x8fae6399, 0x99d9679d) == 0xf041fcfb
    ensures I(0x7b201df8, 0x7beb9700, 0x8fae6399) == 0x009a0afe
    ensures I(0xf4e8e96e, 0x7b201df8, 0x7beb9700) == 0x8fdcf407
    ensures I(0xb298cefd, 0xf4e8e96e, 0x7b201df8) == 0x42370791
    ensures I(0x8bf025c4, 0xb298cefd, 0xf4e8e96e) == 0x396ff928
    ensures I(0x06cc5e8a, 0x8bf025c4, 0xb298cefd) == 0xc41f5a4e
    ensures I(0x5b0d97aa, 0x06cc5e8a, 0x8bf025c4) == 0x79c38131
    ensures I(0x7d632dd0, 0x5b0d97aa, 0x06cc5e8a) == 0xa67e3a5f
    ensures I(0x3bfa2c27, 0x7d632dd0, 0x5b0d97aa) == 0xc29941a7
    ensures I(0x7f81cc35, 0x3bfa2c27, 0x7d632dd0) == 0xc467f218
    ensures I(0x094454ab, 0x7f81cc35, 0x3bfa2c27) == 0xb2c41bce
    ensures I(0x4f9dbe3f, 0x094454ab, 0x7f81cc35) == 0xc6bbeb54
    ensures I(0x7327d604, 0x4f9dbe3f, 0x094454ab) == 0xb822416b
    ensures I(0x310ade8f, 0x7327d604, 0x4f9dbe3f) == 0xc24d09cb
    ensures I(0x624d8cb2, 0x310ade8f, 0x7327d604) == 0xdfd77374
    ensures I(0xe484b9d8, 0x624d8cb2, 0x310ade8f) == 0x8cb8354a
  {
  }

  lemma IRotations()
    ensures RotateLeft(0xe3fcd21b, 6) == 0xff3486f8
    ensures RotateLeft(0xdd9e7232, 10) == 0x79c8cb76
    ensures RotateLeft(0xcb1f7b5f, 15) == 0xbdafe58f
    ensures RotateLeft(0xbab63eca, 21) == 0xd95756c7
    ensures RotateLeft(0x19eb70e3, 6) == 0x7adc38c6
    ensures RotateLeft(0x4815104e, 10) == 0x54413920
    ensures RotateLeft(0x2c4c44ab, 15) == 0x22559626
    ensures RotateLeft(0xb7f2bdf4, 21) == 0xbe96fe57
    ensures RotateLeft(0x390e1e80, 6) == 0x4387a00e
    ensures RotateLeft(0x1da270a2, 10) == 0x89c28876
    ensures RotateLeft(0xd3288cb2, 15) == 0x46596994
    ensures RotateLeft(0x50be291c, 21) == 0x238a17c5
    ensures RotateLeft(0x2ef78c22, 6) == 0xbde3088b
    ensures RotateLeft(0x88cc50ab, 10) == 0x3142ae23
    ensures RotateLeft(0x5a4d046e, 15) == 0x82372d26
    ensures RotateLeft(0xeb66dedf, 21) == 0xdbfd6cdb
  {
  }

  lemma Steps48To52()
    requires After(48, Quad(0x7f2e507b, 0x7beb9700, 0x8fae6399, 0x99d9679d))
    ensures After(52, Quad(0x7b201df8, 0x8bf025c4, 0xb298cefd, 0xf4e8e96e))
  {
    hide After, F, G, H, I, RotateLeft;
    IValues();
    IRotations();
    Forward(48, Quad(0x7f2e507b, 0x7beb9700, 0x8fae6399, 0x99d9679d), 0x80636261, 0xf041fcfb, 0xe3fcd21b, 0xff3486f8);
    Forward(49, Quad(0x99d9679d, 0x7b201df8, 0x7beb9700, 0x8fae6399), 0, 0x009a0afe, 0xdd9e7232, 0x79c8cb76);
    Forward(50, Quad(0x8fae6399, 0xf4e8e96e, 0x7b201df8, 0x7beb9700), 24, 0x8fdcf407, 0xcb1f7b5f, 0xbdafe58f);
    Forward(51, Quad(0x7beb9700, 0xb298cefd, 0xf4e8e96e, 0x7b201df8), 0, 0x42370791, 0xbab63eca, 0xd95756c7);
  }

  lemma Steps52To56()
    requires After(52, Quad(0x7b201df8, 0x8bf025c4, 0xb298cefd, 0xf4e8e96e))
    ensures After(56, Quad(0x06cc5e8a, 0x3bfa2c27, 0x7d632dd0, 0x5b0d97aa))
  {
    hide After, F, G, H, I, RotateLeft;
    IValues();
    IRotations();
    Forward(52, Quad(0x7b201df8, 0x8bf025c4, 0xb298cefd, 0xf4e8e96e), 0, 0x396ff928, 0x19eb70e3, 0x7adc38c6);
    Forward(53, Quad(0xf4e8e96e, 0x06cc5e8a, 0x8bf025c4, 0xb298cefd), 0, 0xc41f5a4e, 0x4815104e, 0x54413920);
    Forward(54, Quad(0xb298cefd, 0x5b0d97aa, 0x06cc5e8a, 0x8bf025c4), 0, 0x79c38131, 0x2c4c44ab, 0x22559626);
    Forward(55, Quad(0x8bf025c4, 0x7d632dd0, 0x5b0d97aa, 0x06cc5e8a), 0, 0xa67e3a5f, 0xb7f2bdf4, 0xbe96fe57);
  }

  lemma Steps56To60()
    requires After(56, Quad(0x06cc5e8a, 0x3bfa2c27, 0x7d632dd0, 0x5b0d97aa))
    ensures After(60, Quad(0x7f81cc35, 0x7327d604, 0x4f9dbe3f, 0x094454ab))
  {
    hide After, F, G, H, I, RotateLeft;
    IValues();
    IRotations();
    Forward(56, Quad(0x06cc5e8a, 0x3bfa2c27, 0x7d632dd0, 0x5b0d97aa), 0, 0xc29941a7, 0x390e1e80, 0x4387a00e);
    Forward(57, Quad(0x5b0d97aa, 0x7f81cc35, 0x3bfa2c27, 0x7d632dd0), 0, 0xc467f218, 0x1da270a2, 0x89c28876);
    Forward(58, Quad(0x7d632dd0, 0x094454ab, 0x7f81cc35, 0x3bfa2c27), 0, 0xb2c41bce, 0xd3288cb2, 0x46596994);
    Forward(59, Quad(0x3bfa2c27, 0x4f9dbe3f, 0x094454ab, 0x7f81cc35), 0, 0xc6bbeb54, 0x50be291c, 0x238a17c5);
  }

  lemma Steps60To64()
    requires After(60, Quad(0x7f81cc35, 0x7327d604, 0x4f9dbe3f, 0x094454ab))
    ensures After(64, Quad(0x310ade8f, 0xc08226b3, 0xe484b9d8, 0x624d8cb2))
  {
    hide After, F, G, H, I, RotateLeft;
    IValues();
    IRotations();
    Forward(60, Quad(0x7f81cc35, 0x7327d604, 0x4f9dbe3f, 0x094454ab), 0, 0xb822416b, 0x2ef78c22, 0xbde3088b);
    Forward(61, Quad(0x094454ab, 0x310ade8f, 0x7327d604, 0x4f9dbe3f), 0, 0xc24d09cb, 0x88cc50ab, 0x3142ae23);
    Forward(62, Quad(0x4f9dbe3f, 0x624d8cb2, 0x310ade8f, 0x7327d604), 0, 0xdfd77374, 0x5a4d046e, 0x82372d26);
    Forward(63, Quad(0x7327d604, 0xe484b9d8, 0x624d8cb2, 0x310ade8f), 0, 0x8cb8354a, 0xeb66dedf, 0xdbfd6cdb);
  }

  // ---------- From the steps to the digest ----------

  lemma AllSteps()
    ensures Steps(INITIAL, BLOCK, 64) == Quad(0x310ade8f, 0xc08226b3, 0xe484b9d8, 0x624d8cb2)
  {
    hide Steps;
    Start();
    Steps0To4();
    Steps4To8();
    Steps8To12();
    Steps12To16();
    Steps16To20();
    Steps20To24();
    Steps24To28();
    Steps28To32();
    Steps32To36();
    Steps36To40();
    Steps40To44();
    Steps44To48();
    Steps48To52();
    Steps52To56();
    Steps56To60();
    Steps60To64();
  }

  lemma PaddedAbc()
    ensures Pad(ABC) == BytesOfWords(BLOCK)
  {
    var p := Pad(ABC);
    assert |p| == 64;
    forall j | 0 <= j < 64 ensures p[j] == BytesOfWords(BLOCK)[j] {
      BytesOfWordsAt(BLOCK, j / 4, j % 4);
      AbcByte(j);
    }
  }

  lemma AbcByte(j: nat)
    requires j < 64
    ensures Pad(ABC)[j] == ByteOf(BlockWord(j / 4), j % 4)
  {
    hide ByteOf, BytesOfWords;
    if j < 4 {
      FirstWord();
    } else if j < 56 {
      ZeroByte(j % 4);
    } else {
      assert Pad(ABC)[j] == LengthField(24)[j - 56];
      BytesOfWordsAt([24, 0], (j - 56) / 4, j % 4);
    }
  }

  lemma FirstWord()
    ensures ByteOf(0x80636261, 0) == 0x61 && ByteOf(0x80636261, 1) == 0x62
    ensures ByteOf(0x80636261, 2) == 0x63 && ByteOf(0x80636261, 3) == 0x80
  {
  }

  lemma ZeroByte(k: nat)
    requires k < 4
    ensures ByteOf(0, k) == 0
  {
  }

  /** The block's words, and the sums of the last registers with the first. */
  lemma StateAfterAbc()
    ensures Absorb(INITIAL, Pad(ABC)) == Quad(0x98500190, 0xb04fd23c, 0x7d3f96d6, 0x727fe128)
  {
    hide Steps, BytesOfWords, WordsOfBytes, Pad;
    AllSteps();
    PaddedAbc();
    WordsRoundTrip(BLOCK);
    AbsorbBlock(INITIAL, [], Pad(ABC));
    assert [] + Pad(ABC) == Pad(ABC);
  }

  lemma FourBytes(ws: seq<word>, i: nat)
    requires i < |ws|
    ensures BytesOfWords(ws)[4 * i..4 * i + 4] ==
      [ByteOf(ws[i], 0), ByteOf(ws[i], 1), ByteOf(ws[i], 2), ByteOf(ws[i], 3)]
  {
    hide BytesOfWords, ByteOf;
    BytesOfWordsAt(ws, i, 0);
    BytesOfWordsAt(ws, i, 1);
    BytesOfWordsAt(ws, i, 2);
    BytesOfWordsAt(ws, i, 3);
  }

  lemma FourWords(a: word, b: word, c: word, d: word)
    ensures BytesOfWords([a, b, c, d]) ==
      [ByteOf(a, 0), ByteOf(a, 1), ByteOf(a, 2), ByteOf(a, 3)] +
      [ByteOf(b, 0), ByteOf(b, 1), ByteOf(b, 2), ByteOf(b, 3)] +
      [ByteOf(c, 0), ByteOf(c, 1), ByteOf(c, 2), ByteOf(c, 3)] +
      [ByteOf(d, 0), ByteOf(d, 1), ByteOf(d, 2), ByteOf(d, 3)]
  {
    hide BytesOfWords, ByteOf;
    var ws := [a, b, c, d];
    var bs := BytesOfWords(ws);
    FourBytes(ws, 0);
    FourBytes(ws, 1);
    FourBytes(ws, 2);
    FourBytes(ws, 3);
    assert bs == bs[0..4] + bs[4..8] + bs[8..12] + bs[12..16];
  }

  lemma AnswerWord0()
    ensures ByteOf(0x98500190, 0) == 0x90 && ByteOf(0x98500190, 1) == 0x01
    ensures ByteOf(0x98500190, 2) == 0x50 && ByteOf(0x98500190, 3) == 0x98
  {
  }

  lemma AnswerWord1()
    ensures ByteOf(0xb04fd23c, 0) == 0x3c && ByteOf(0xb04fd23c, 1) == 0xd2
    ensures ByteOf(0xb04fd23c, 2) == 0x4f && ByteOf(0xb04fd23c, 3) == 0xb0
  {
  }

  lemma AnswerWord2()
    ensures ByteOf(0x7d3f96d6, 0) == 0xd6 && ByteOf(0x7d3f96d6, 1) == 0x96
    ensures ByteOf(0x7d3f96d6, 2) == 0x3f && ByteOf(0x7d3f96d6, 3) == 0x7d
  {
  }

  lemma AnswerWord3()
    ensures ByteOf(0x727fe128, 0) == 0x28 && ByteOf(0x727fe128, 1) == 0xe1
    ensures ByteOf(0x727fe128, 2) == 0x7f && ByteOf(0x727fe128, 3) == 0x72
  {
  }

  /** Section A.5 of RFC 1321: the digest of "abc" is 900150983cd24fb0d6963f7d28e17f72. */
  lemma DigestOfAbc()
    ensures Md5(ABC) ==
      [0x90, 0x01, 0x50, 0x98] + [0x3c, 0xd2, 0x4f, 0xb0] + [0xd6, 0x96, 0x3f, 0x7d] + [0x28, 0xe1, 0x7f, 0x72]
  {
    hide BytesOfWords, ByteOf, Absorb, Pad;
    StateAfterAbc();
    FourWords(0x98500190, 0xb04fd23c, 0x7d3f96d6, 0x727fe128);
    AnswerWord0();
    AnswerWord1();
    AnswerWord2();
    AnswerWord3();
  }
}
