/**
  Base64 as genstring.c computes it, against section 4 of RFC 4648. Data bytes are bv8 and
  encoded text is a string; a C char is taken as unsigned (see SignedCharAgrees).
 */
module Base64 {
  const INT_MAX: int := 0x7fff_ffff

  const ALPHABET: string :=
    "ABCDEFGHIJKLM" + "NOPQRSTUVWXYZ" + "abcdefghijklm" + "nopqrstuvwxyz" + "0123456789+/"

  // ---------- The encoding of RFC 4648, section 4 ----------

  /** 24 bits from three bytes, the first byte highest. */
  function Group(a: bv8, b: bv8, c: bv8): bv24 {
    (a as bv24 << 16) | (b as bv24 << 8) | c as bv24
  }

  /** The q-th six bits of a group, counted from the high end. */
  function Sextet(g: bv24, q: nat): bv6
    requires q < 4
  {
    if q == 0 then ((g >> 18) & 0x3f) as bv6
    else if q == 1 then ((g >> 12) & 0x3f) as bv6
    else if q == 2 then ((g >> 6) & 0x3f) as bv6
    else (g & 0x3f) as bv6
  }

  function Letter(k: nat): char
    requires k < 64
  {
    ALPHABET[k]
  }

  /** The data is followed by zero bits up to a whole group. */
  function ByteAt(d: seq<bv8>, k: nat): bv8 {
    if k < |d| then d[k] else 0
  }

  /** Place q of group g: '=' when its six bits hold no bit of the data. */
  function CharAt(d: seq<bv8>, g: nat, q: nat): char
    requires q < 4
  {
    if q > 0 && 3 * g + q - 1 >= |d| then '='
    else Letter(Sextet(Group(ByteAt(d, 3 * g), ByteAt(d, 3 * g + 1), ByteAt(d, 3 * g + 2)), q) as int)
  }

  function Encoded(d: seq<bv8>): (t: string)
    ensures |t| == (|d| + 2) / 3 * 4
  {
    seq((|d| + 2) / 3 * 4, i requires 0 <= i < (|d| + 2) / 3 * 4 => CharAt(d, i / 4, i % 4))
  }

  // ---------- The encoder ----------

  /** The four lines of the loop body: bytes x, y, z give four table indices. */
  function IndexBits(x: bv8, y: bv8, z: bv8, q: nat): (k: bv8)
    requires q < 4
    ensures k < 64
  {
    if q == 0 then x >> 2
    else if q == 1 then ((x & 0x3) << 4) | (y >> 4)
    else if q == 2 then ((y & 0xf) << 2) | (z >> 6)
    else z & 0x3f
  }

  function Index(x: bv8, y: bv8, z: bv8, q: nat): (k: nat)
    requires q < 4
    ensures k < 64
  {
    IndexBits(x, y, z, q) as nat
  }

  /** The shifts and masks cut a group into its sextets. */
  lemma IndexIsSextet(x: bv8, y: bv8, z: bv8, q: nat)
    requires q < 4
    ensures Index(x, y, z, q) == Sextet(Group(x, y, z), q) as int
  {
    if q == 0 {
      assert (x >> 2) as bv6 == Sextet(Group(x, y, z), 0);
    }
  }

  /** The q-th index does not depend on the byte after the q-th. */
  lemma IndexIgnores(x: bv8, y: bv8, z: bv8, y': bv8, z': bv8, q: nat)
    requires q < 4 && (q > 0 ==> y == y') && (q > 1 ==> z == z')
    ensures Index(x, y, z, q) == Index(x, y', z', q)
  {
  }

  /** The last group reads the terminator, and when only one byte is left over the byte after it too. */
  predicate CanRead(mem: seq<bv8>, n: nat) {
    n < |mem| && (n % 3 == 1 ==> n + 1 < |mem|)
  }

  /** In a full or partial group, every place that is not '=' is the table's letter. */
  lemma PlaceOfGroup(mem: seq<bv8>, n: nat, g: nat, q: nat)
    requires CanRead(mem, n) && mem[n] == 0 && q < 4 && 3 * g < n
    requires q == 0 || 3 * g + q - 1 < n
    ensures 3 * g + 2 < |mem|
    ensures Letter(Index(mem[3 * g], mem[3 * g + 1], mem[3 * g + 2], q)) == CharAt(mem[..n], g, q)
  {
    hide Index, Group, Sextet, Letter;
    var d := mem[..n];
    var x, y, z := ByteAt(d, 3 * g), ByteAt(d, 3 * g + 1), ByteAt(d, 3 * g + 2);
    IndexIgnores(mem[3 * g], mem[3 * g + 1], mem[3 * g + 2], y, z, q);
    IndexIsSextet(x, y, z, q);
  }

  /**
    gen_base64_encode. The string is the first n bytes of mem, its terminator the next. The
    byte after the terminator is arbitrary where the last group reads it.
   */
  method Encode(mem: seq<bv8>, n: nat) returns (res: array<char>)
    requires CanRead(mem, n) && mem[n] == 0 && forall k :: 0 <= k < n ==> mem[k] != 0
    requires (n + 2) / 3 * 4 <= INT_MAX
    ensures fresh(res) && res[..] == Encoded(mem[..n]) + ['\0']
  {
    hide Raw, Encoded, Pads;
    var len := if n % 3 != 0 then (n / 3 + 1) * 4 else n / 3 * 4;
    res := new char[len + 1](_ => '\0');
    var i := EncodeGroups(mem, n, res, len);
    OverwritePads(res, i, n);
    AssembleRow(mem, n, res[..len]);
  }

  /** The loop of gen_base64_encode. */
  method EncodeGroups(mem: seq<bv8>, n: nat, res: array<char>, len: nat) returns (i: nat)
    requires CanRead(mem, n) && len == (n + 2) / 3 * 4 && res.Length == len + 1
    modifies res
    ensures i == len && res[len] == old(res[len])
    ensures forall k :: 0 <= k < len ==> res[k] == Raw(mem, k)
  {
    hide Index, Letter, Raw;
    var j := 0;
    i := 0;
    ghost var g, groups := 0, (n + 2) / 3;
    while i < len - 2
      invariant i == 4 * g && j == 3 * g && g <= groups
      invariant res[len] == old(res[len])
      invariant forall k :: 0 <= k < i ==> res[k] == Raw(mem, k)
    {
      RawLine(mem, g);
      res[i] := Letter(Index(mem[j], mem[j + 1], mem[j + 2], 0));
      res[i + 1] := Letter(Index(mem[j], mem[j + 1], mem[j + 2], 1));
      res[i + 2] := Letter(Index(mem[j], mem[j + 1], mem[j + 2], 2));
      res[i + 3] := Letter(Index(mem[j], mem[j + 1], mem[j + 2], 3));
      j := j + 3;
      i := i + 4;
      g := g + 1;
    }
  }

  /** The number of '=' at the end. */
  function Pads(n: nat): nat {
    if n % 3 == 0 then 0 else 3 - n % 3
  }

  /** The final switch of gen_base64_encode; i is the number of places written. */
  method OverwritePads(res: array<char>, i: nat, n: nat)
    requires i < res.Length && (n % 3 != 0 ==> i >= 4)
    modifies res
    ensures forall k :: 0 <= k < i - Pads(n) ==> res[k] == old(res[k])
    ensures forall k :: i - Pads(n) <= k < i ==> res[k] == '='
    ensures res[i..] == old(res[i..])
  {
    if n % 3 == 1 {
      res[i - 2] := '=';
      res[i - 1] := '=';
    } else if n % 3 == 2 {
      res[i - 1] := '=';
    }
  }

  lemma AssembleRow(mem: seq<bv8>, n: nat, row: string)
    requires CanRead(mem, n) && mem[n] == 0 && |row| == (n + 2) / 3 * 4
    requires forall k :: 0 <= k < |row| ==> row[k] == if k >= |row| - Pads(n) then '=' else Raw(mem, k)
    ensures row == Encoded(mem[..n])
  {
    hide Raw, CharAt;
    forall k | 0 <= k < |row| ensures row[k] == CharAt(mem[..n], k / 4, k % 4) {
      FinalPlace(mem, n, k);
    }
  }

  /** What the loop body alone puts at place k. */
  function Raw(mem: seq<bv8>, k: nat): char {
    Letter(Index(ByteAt(mem, 3 * (k / 4)), ByteAt(mem, 3 * (k / 4) + 1), ByteAt(mem, 3 * (k / 4) + 2), k % 4))
  }

  lemma RawLine(mem: seq<bv8>, g: nat)
    requires 3 * g + 2 < |mem|
    ensures Raw(mem, 4 * g) == Letter(Index(mem[3 * g], mem[3 * g + 1], mem[3 * g + 2], 0))
    ensures Raw(mem, 4 * g + 1) == Letter(Index(mem[3 * g], mem[3 * g + 1], mem[3 * g + 2], 1))
    ensures Raw(mem, 4 * g + 2) == Letter(Index(mem[3 * g], mem[3 * g + 1], mem[3 * g + 2], 2))
    ensures Raw(mem, 4 * g + 3) == Letter(Index(mem[3 * g], mem[3 * g + 1], mem[3 * g + 2], 3))
  {
    hide Index, Letter;
  }

  /** The overwritten places are exactly those that hold no bit of the data. */
  lemma PadPlaces(n: nat, g: nat, q: nat)
    requires q < 4 && 4 * g + q < (n + 2) / 3 * 4
    ensures 3 * g < n
    ensures 4 * g + q >= (n + 2) / 3 * 4 - Pads(n) <==> q > 0 && 3 * g + q - 1 >= n
  {
    var m := n / 3;
    assert n == 3 * m + n % 3;
  }

  /** The loop's letters with the last ones overwritten by '=' are the encoding. */
  lemma FinalPlace(mem: seq<bv8>, n: nat, k: nat)
    requires CanRead(mem, n) && mem[n] == 0 && k < (n + 2) / 3 * 4
    ensures CharAt(mem[..n], k / 4, k % 4) == if k >= (n + 2) / 3 * 4 - Pads(n) then '=' else Raw(mem, k)
  {
    hide Index, Letter, Sextet, Group, CharAt;
    var g, q := k / 4, k % 4;
    PadPlaces(n, g, q);
    if q == 0 || 3 * g + q - 1 < n {
      PlaceOfGroup(mem, n, g, q);
    } else {
      PaddedPlace(mem[..n], g, q);
    }
  }

  lemma PaddedPlace(d: seq<bv8>, g: nat, q: nat)
    requires 0 < q < 4 && 3 * g + q - 1 >= |d|
    ensures CharAt(d, g, q) == '='
  {
  }

  // ---------- Test vectors ----------

  lemma LettersOfFoobar()
    ensures Letter(25) == 'Z' && Letter(38) == 'm' && Letter(61) == '9' && Letter(47) == 'v'
    ensures Letter(24) == 'Y' && Letter(5) == 'F' && Letter(50) == 'y' && Letter(32) == 'g' && Letter(60) == '8'
  {
    hide Letter;
    AlphabetRuns(25);
    AlphabetRuns(38);
    AlphabetRuns(61);
    AlphabetRuns(47);
    AlphabetRuns(24);
    AlphabetRuns(5);
    AlphabetRuns(50);
    AlphabetRuns(32);
    AlphabetRuns(60);
  }

  lemma SextetsOfFoo()
    ensures var g := Group(0x66, 0x6f, 0x6f);
      Sextet(g, 0) == 25 && Sextet(g, 1) == 38 && Sextet(g, 2) == 61 && Sextet(g, 3) == 47
  {
  }

  lemma SextetsOfBar()
    ensures var g := Group(0x62, 0x61, 0x72);
      Sextet(g, 0) == 24 && Sextet(g, 1) == 38 && Sextet(g, 2) == 5 && Sextet(g, 3) == 50
  {
  }

  lemma SextetsOfRests()
    ensures Sextet(Group(0x66, 0, 0), 0) == 25 && Sextet(Group(0x66, 0, 0), 1) == 32
    ensures Sextet(Group(0x66, 0x6f, 0), 0) == 25 && Sextet(Group(0x66, 0x6f, 0), 1) == 38
    ensures Sextet(Group(0x66, 0x6f, 0), 2) == 60
  {
  }

  lemma FourPlaces(d: seq<bv8>)
    requires 0 < |d| <= 3
    ensures Encoded(d) == [CharAt(d, 0, 0), CharAt(d, 0, 1), CharAt(d, 0, 2), CharAt(d, 0, 3)]
  {
    hide CharAt;
  }

  /** Section 10 of RFC 4648: "f", "fo", "foo" and "foobar". */
  lemma TestVectors()
    ensures Encoded([0x66]) == "Zg==" && Encoded([0x66, 0x6f]) == "Zm8="
    ensures Encoded([0x66, 0x6f, 0x6f]) == "Zm9v"
    ensures Encoded([0x66, 0x6f, 0x6f, 0x62, 0x61, 0x72]) == "Zm9vYmFy"
  {
    hide Group, Sextet, Letter, Encoded;
    LettersOfFoobar();
    SextetsOfFoo();
    SextetsOfBar();
    SextetsOfRests();
    FourPlaces([0x66]);
    FourPlaces([0x66, 0x6f]);
    FourPlaces([0x66, 0x6f, 0x6f]);
    EightPlaces([0x66, 0x6f, 0x6f, 0x62, 0x61, 0x72]);
  }

  lemma EightPlaces(d: seq<bv8>)
    requires |d| == 6
    ensures Encoded(d) == [CharAt(d, 0, 0), CharAt(d, 0, 1), CharAt(d, 0, 2), CharAt(d, 0, 3)] +
      [CharAt(d, 1, 0), CharAt(d, 1, 1), CharAt(d, 1, 2), CharAt(d, 1, 3)]
  {
    hide CharAt;
  }

  // ---------- The decoder ----------

  /** The decode table, one entry for each code up to 'z'. */
  const TABLE: seq<int> :=
    [0, 0, 0, 0, 0, 0, 0, 0, 0, 0, 0, 0, 0, 0, 0, 0] +
    [0, 0, 0, 0, 0, 0, 0, 0, 0, 0, 0, 0, 0, 0, 0, 0] +
    [0, 0, 0, 0, 0, 0, 0, 0, 0, 0, 0, 62, 0, 0, 0, 63] +
    [52, 53, 54, 55, 56, 57, 58, 59, 60, 61, 0, 0, 0, 0, 0, 0] +
    [0, 0, 1, 2, 3, 4, 5, 6, 7, 8, 9, 10, 11, 12, 13, 14] +
    [15, 16, 17, 18, 19, 20, 21, 22, 23, 24, 25, 0, 0, 0, 0, 0] +
    [0, 26, 27, 28, 29, 30, 31, 32, 33, 34, 35, 36, 37, 38, 39, 40] +
    [41, 42, 43, 44, 45, 46, 47, 48, 49, 50, 51]

  /** The alphabet by its runs. */
  function CodeOf(k: nat): nat
    requires k < 64
  {
    if k < 26 then k + 65 else if k < 52 then k + 71 else if k < 62 then k - 4 else if k == 62 then 43 else 47
  }

  /** The value of a letter, 0 for any other character. */
  function ValueOf(c: nat): nat {
    if 65 <= c <= 90 then c - 65 else if 97 <= c <= 122 then c - 71 else if 48 <= c <= 57 then c + 4
    else if c == 43 then 62 else if c == 47 then 63 else 0
  }

  lemma AlphabetLow(k: nat)
    requires k < 32
    ensures ALPHABET[k] as int == CodeOf(k)
  {
    match k
    case 0 => case 1 => case 2 => case 3 => case 4 => case 5 => case 6 => case 7 =>
    case 8 => case 9 => case 10 => case 11 => case 12 => case 13 => case 14 => case 15 =>
    case 16 => case 17 => case 18 => case 19 => case 20 => case 21 => case 22 => case 23 =>
    case 24 => case 25 => case 26 => case 27 => case 28 => case 29 => case 30 => case _ =>
  }

  lemma AlphabetHigh(k: nat)
    requires 32 <= k < 64
    ensures ALPHABET[k] as int == CodeOf(k)
  {
    match k
    case 32 => case 33 => case 34 => case 35 => case 36 => case 37 => case 38 => case 39 =>
    case 40 => case 41 => case 42 => case 43 => case 44 => case 45 => case 46 => case 47 =>
    case 48 => case 49 => case 50 => case 51 => case 52 => case 53 => case 54 => case 55 =>
    case 56 => case 57 => case 58 => case 59 => case 60 => case 61 => case 62 => case _ =>
  }

  lemma AlphabetRuns(k: nat)
    requires k < 64
    ensures Letter(k) as int == CodeOf(k)
  {
    if k < 32 {
      AlphabetLow(k);
    } else {
      AlphabetHigh(k);
    }
  }

  /** Table 1 of RFC 4648. */
  lemma AlphabetOfTable1(k: nat)
    requires k < 64
    ensures Letter(k) ==
      if k < 26 then 'A' + k as char else if k < 52 then 'a' + (k - 26) as char
      else if k < 62 then '0' + (k - 52) as char else if k == 62 then '+' else '/'
  {
    hide Letter;
    AlphabetRuns(k);
  }

  lemma TableLow(c: nat)
    requires c < 64
    ensures TABLE[c] == ValueOf(c)
  {
    match c
    case 0 => case 1 => case 2 => case 3 => case 4 => case 5 => case 6 => case 7 =>
    case 8 => case 9 => case 10 => case 11 => case 12 => case 13 => case 14 => case 15 =>
    case 16 => case 17 => case 18 => case 19 => case 20 => case 21 => case 22 => case 23 =>
    case 24 => case 25 => case 26 => case 27 => case 28 => case 29 => case 30 => case 31 =>
    case 32 => case 33 => case 34 => case 35 => case 36 => case 37 => case 38 => case 39 =>
    case 40 => case 41 => case 42 => case 43 => case 44 => case 45 => case 46 => case 47 =>
    case 48 => case 49 => case 50 => case 51 => case 52 => case 53 => case 54 => case 55 =>
    case 56 => case 57 => case 58 => case 59 => case 60 => case 61 => case 62 => case _ =>
  }

  lemma TableHigh(c: nat)
    requires 64 <= c < 123
    ensures TABLE[c] == ValueOf(c)
  {
    match c
    case 64 => case 65 => case 66 => case 67 => case 68 => case 69 => case 70 => case 71 =>
    case 72 => case 73 => case 74 => case 75 => case 76 => case 77 => case 78 => case 79 =>
    case 80 => case 81 => case 82 => case 83 => case 84 => case 85 => case 86 => case 87 =>
    case 88 => case 89 => case 90 => case 91 => case 92 => case 93 => case 94 => case 95 =>
    case 96 => case 97 => case 98 => case 99 => case 100 => case 101 => case 102 => case 103 =>
    case 104 => case 105 => case 106 => case 107 => case 108 => case 109 => case 110 => case 111 =>
    case 112 => case 113 => case 114 => case 115 => case 116 => case 117 => case 118 => case 119 =>
    case 120 => case 121 => case _ =>
  }

  lemma TableValues(c: nat)
    requires c < 123
    ensures TABLE[c] == ValueOf(c)
  {
    if c < 64 {
      TableLow(c);
    } else {
      TableHigh(c);
    }
  }

  /** The decode table undoes the alphabet. */
  lemma TableInverts(k: nat)
    requires k < 64
    ensures Letter(k) as int < 123 && TABLE[Letter(k) as int] == k
  {
    AlphabetRuns(k);
    TableValues(CodeOf(k));
  }

  /** A character the table gives a value other than 0 is the letter of that value. */
  lemma AlphabetInverts(c: char)
    requires c as int < 123 && TABLE[c as int] != 0
    ensures 0 < TABLE[c as int] < 64 && Letter(TABLE[c as int]) == c
  {
    TableValues(c as int);
    AlphabetRuns(ValueOf(c as int));
  }

  /** (unsigned char)table[c] for the characters the table covers. */
  function Value(c: char): bv8
    requires c as int < 123
  {
    TableValues(c as int);
    TABLE[c as int] as bv8
  }

  /** The three stores of the loop body. */
  function Unpack(v0: bv8, v1: bv8, v2: bv8, v3: bv8, p: nat): bv8
    requires p < 3
  {
    if p == 0 then (v0 << 2) | (v1 >> 4)
    else if p == 1 then (v1 << 4) | (v2 >> 2)
    else (v2 << 6) | v3
  }

  predicate Coded(t: string) {
    forall k :: 0 <= k < |t| ==> 0 < t[k] as int < 123
  }

  /** The value at place k of a C string: past its end stands the terminator. */
  function ValueAt(t: string, k: nat): bv8
    requires Coded(t)
  {
    Value(if k < |t| then t[k] else '\0')
  }

  /** Byte p of the g-th group; with three characters left over the last one is the terminator. */
  function UnpackAt(t: string, g: nat, p: nat): bv8
    requires Coded(t) && 4 * g + 2 < |t| && p < 3
  {
    Unpack(ValueAt(t, 4 * g), ValueAt(t, 4 * g + 1), ValueAt(t, 4 * g + 2), ValueAt(t, 4 * g + 3), p)
  }

  /** Every byte the decoder stores, those of padded places included: three for each turn of `i < len-2`. */
  function Stored(t: string): (d: seq<bv8>)
    requires Coded(t)
    ensures |d| == (|t| + 1) / 4 * 3
  {
    seq((|t| + 1) / 4 * 3, k requires 0 <= k < (|t| + 1) / 4 * 3 => UnpackAt(t, k / 3, k % 3))
  }

  /** With three characters left over the terminator counts as zero bits. */
  lemma LeftOver(t: string)
    requires Coded(t) && |t| % 4 == 3
    ensures var n := |t|;
      && |Stored(t)| == n / 4 * 3 + 3
      && Stored(t)[n / 4 * 3] == (Value(t[n - 3]) << 2) | (Value(t[n - 2]) >> 4)
      && Stored(t)[n / 4 * 3 + 1] == (Value(t[n - 2]) << 4) | (Value(t[n - 1]) >> 2)
      && Stored(t)[n / 4 * 3 + 2] == Value(t[n - 1]) << 6
  {
    hide Value;
    var g := |t| / 4;
    assert |t| == 4 * g + 3;
    TerminatorValue();
    StoredLine(t, g);
  }

  lemma TerminatorValue()
    ensures Value('\0') == 0
  {
    TableValues(0);
  }

  predicate HasDoublePad(t: string) {
    exists k :: 0 <= k < |t| - 1 && t[k] == '=' && t[k + 1] == '='
  }

  /** It is "==" anywhere in the text. */
  lemma DoublePadMeans(t: string)
    ensures HasDoublePad(t) <==> exists a, b :: t == a + "==" + b
  {
    if k :| 0 <= k < |t| - 1 && t[k] == '=' && t[k + 1] == '=' {
      assert t == t[..k] + "==" + t[k + 2..];
    }
    if a, b :| t == a + "==" + b {
      assert t[|a|] == '=' && t[|a| + 1] == '=';
    }
  }

  /** The length the decoder computes from the padding it finds. */
  function StrLen(t: string): int {
    if HasDoublePad(t) then |t| / 4 * 3 - 2 else if '=' in t then |t| / 4 * 3 - 1 else |t| / 4 * 3
  }

  function Decoded(t: string): (d: seq<bv8>)
    requires Coded(t) && ('=' in t ==> |t| >= 4)
  {
    Stored(t)[..StrLen(t)]
  }

  /**
    The bytes the decoder stores fit the StrLen(t) + 1 bytes the source allocates exactly when no
    three characters are left over and there is no double padding anywhere.
   */
  lemma StoresFit(t: string)
    requires Coded(t)
    ensures |Stored(t)| <= StrLen(t) + 1 <==> |t| % 4 != 3 && !HasDoublePad(t)
  {
    hide Stored;
    var g := (|t| + 1) / 4;
    assert |t| / 4 == if |t| % 4 == 3 then g - 1 else g;
  }

  /** What the decoder's buffer holds before the loop: the zeroed bytes asked for, and what lies behind them. */
  function Room(t: string, spare: seq<bv8>): (b: seq<bv8>)
    requires StrLen(t) >= -1
    ensures |b| == StrLen(t) + 1 + |spare|
  {
    seq(StrLen(t) + 1, _ => 0) + spare
  }

  /**
    gen_base64_decode. `spare` are the bytes behind those it asks for: none are needed under the
    condition of StoresFit, and otherwise as many as it stores there. A double padding in less
    than four characters asks for a negative length, and malloc gives none.
   */
  method Decode(code: string, spare: seq<bv8>) returns (res: array?<bv8>, str_len: int)
    requires Coded(code) && |code| <= INT_MAX
    requires StrLen(code) >= -1 ==> |Stored(code)| <= StrLen(code) + 1 + |spare|
    ensures str_len == StrLen(code) && (res == null <==> str_len < -1)
    ensures res != null ==> fresh(res) && res[..] == Stored(code) + Room(code, spare)[|Stored(code)|..]
  {
    hide Stored;
    var len := |code|;
    if HasDoublePad(code) {
      str_len := len / 4 * 3 - 2;
    } else if '=' in code {
      str_len := len / 4 * 3 - 1;
    } else {
      str_len := len / 4 * 3;
    }
    if str_len < -1 {
      return null, str_len;
    }
    res := new bv8[str_len + 1 + |spare|]
      (k requires 0 <= k < str_len + 1 + |spare| => if k <= str_len then 0 else spare[k - (str_len + 1)]);
    assert res[..] == Room(code, spare);
    DecodeGroups(code, res);
  }

  /** The loop of gen_base64_decode. */
  method DecodeGroups(code: string, res: array<bv8>)
    requires Coded(code) && |Stored(code)| <= res.Length
    modifies res
    ensures res[..] == Stored(code) + old(res[..])[|Stored(code)|..]
  {
    hide ValueAt, Unpack, UnpackAt, Stored, Coded;
    var len := |code|;
    ghost var stored, room := Stored(code), res[..];
    var i, j := 0, 0;
    ghost var g := 0;
    while i < len - 2
      invariant i == 4 * g && j == 3 * g && g <= (len + 1) / 4
      invariant res[..j] == stored[..j] && res[j..] == room[j..]
    {
      StoredLine(code, g);
      var v0, v1, v2, v3 := ValueAt(code, i), ValueAt(code, i + 1), ValueAt(code, i + 2), ValueAt(code, i + 3);
      res[j] := Unpack(v0, v1, v2, v3, 0);
      res[j + 1] := Unpack(v0, v1, v2, v3, 1);
      res[j + 2] := Unpack(v0, v1, v2, v3, 2);
      assert res[j + 3..] == room[j..][3..];
      j := j + 3;
      i := i + 4;
      g := g + 1;
    }
    assert j == |stored|;
    assert res[..] == res[..j] + res[j..];
  }

  lemma StoredLine(t: string, g: nat)
    requires Coded(t) && 4 * g + 2 < |t|
    ensures 3 * g + 2 < |Stored(t)|
    ensures
      var v0, v1, v2, v3 := ValueAt(t, 4 * g), ValueAt(t, 4 * g + 1), ValueAt(t, 4 * g + 2), ValueAt(t, 4 * g + 3);
      && Stored(t)[3 * g] == Unpack(v0, v1, v2, v3, 0)
      && Stored(t)[3 * g + 1] == Unpack(v0, v1, v2, v3, 1)
      && Stored(t)[3 * g + 2] == Unpack(v0, v1, v2, v3, 2)
  {
    hide Unpack, ValueAt;
    assert g < (|t| + 1) / 4;
  }

  // ---------- Decoding undoes encoding ----------

  lemma LetterValue(s: bv6)
    ensures Letter(s as int) as int < 123 && Letter(s as int) != '=' && Letter(s as int) != '\0'
    ensures Value(Letter(s as int)) == s as bv8
  {
    hide Letter;
    TableInverts(s as int);
    AlphabetRuns(s as int);
  }

  lemma PadValue()
    ensures Value('=') == 0
  {
    TableValues(61);
  }

  /** Four sextets of a group unpack to its three bytes. */
  lemma Regroup(x: bv8, y: bv8, z: bv8, p: nat)
    requires p < 3
    ensures var g := Group(x, y, z);
      Unpack(Sextet(g, 0) as bv8, Sextet(g, 1) as bv8, Sextet(g, 2) as bv8, Sextet(g, 3) as bv8, p)
      == if p == 0 then x else if p == 1 then y else z
  {
  }

  /** Bytes of zero bits leave zero sextets, which is also the value of '='. */
  lemma ZeroSextets(x: bv8, y: bv8)
    ensures Sextet(Group(x, 0, 0), 2) == 0 && Sextet(Group(x, y, 0), 3) == 0
  {
  }

  lemma PlaceValue(d: seq<bv8>, g: nat, q: nat)
    requires q < 4 && 3 * g < |d|
    ensures 0 < CharAt(d, g, q) as int < 123
    ensures Value(CharAt(d, g, q))
         == Sextet(Group(ByteAt(d, 3 * g), ByteAt(d, 3 * g + 1), ByteAt(d, 3 * g + 2)), q) as bv8
  {
    hide Group, Sextet, Letter, Value;
    var x, y, z := ByteAt(d, 3 * g), ByteAt(d, 3 * g + 1), ByteAt(d, 3 * g + 2);
    LetterValue(Sextet(Group(x, y, z), q));
    PadValue();
    ZeroSextets(x, y);
  }

  lemma EncodedIsCoded(d: seq<bv8>)
    ensures Coded(Encoded(d))
  {
    hide CharAt;
    forall k | 0 <= k < |Encoded(d)| ensures 0 < Encoded(d)[k] as int < 123 {
      PlaceValue(d, k / 4, k % 4);
    }
  }

  lemma EncodedValue(d: seq<bv8>, g: nat, q: nat)
    requires Coded(Encoded(d)) && q < 4 && 3 * g < |d|
    ensures 4 * g + q < |Encoded(d)|
    ensures ValueAt(Encoded(d), 4 * g + q)
         == Sextet(Group(ByteAt(d, 3 * g), ByteAt(d, 3 * g + 1), ByteAt(d, 3 * g + 2)), q) as bv8
  {
    hide CharAt, Group, Sextet, Value, ByteAt;
    PlaceValue(d, g, q);
    assert g < (|d| + 2) / 3 && (4 * g + q) / 4 == g && (4 * g + q) % 4 == q;
    assert Encoded(d)[4 * g + q] == CharAt(d, g, q);
  }

  lemma GroupRestored(d: seq<bv8>, g: nat, p: nat)
    requires Coded(Encoded(d)) && 3 * g < |d| && p < 3
    ensures 4 * g + 3 < |Encoded(d)| && UnpackAt(Encoded(d), g, p) == ByteAt(d, 3 * g + p)
  {
    hide Encoded, ValueAt, Group, Sextet, Unpack, ByteAt, Coded;
    EncodedValue(d, g, 0);
    EncodedValue(d, g, 1);
    EncodedValue(d, g, 2);
    EncodedValue(d, g, 3);
    Regroup(ByteAt(d, 3 * g), ByteAt(d, 3 * g + 1), ByteAt(d, 3 * g + 2), p);
  }

  /** Every stored byte is the data's, and the bytes of padded places are zero. */
  lemma StoredOfEncoded(d: seq<bv8>, k: nat)
    requires k < (|d| + 2) / 3 * 3
    ensures Coded(Encoded(d)) && k < |Stored(Encoded(d))| && Stored(Encoded(d))[k] == ByteAt(d, k)
  {
    hide Encoded, UnpackAt, Coded, ByteAt;
    EncodedIsCoded(d);
    var g, p, groups := k / 3, k % 3, (|d| + 2) / 3;
    assert g < groups && k == 3 * g + p;
    GroupRestored(d, g, p);
    assert (|Encoded(d)| + 1) / 4 == groups;
  }

  /** '=' stands exactly at the last Pads places. */
  lemma PadsOfEncoded(d: seq<bv8>, k: nat)
    requires k < |Encoded(d)|
    ensures Encoded(d)[k] == '=' <==> k >= |Encoded(d)| - Pads(|d|)
  {
    hide Group, Sextet, Letter;
    var g, q := k / 4, k % 4;
    PadPlaces(|d|, g, q);
    LetterValue(Sextet(Group(ByteAt(d, 3 * g), ByteAt(d, 3 * g + 1), ByteAt(d, 3 * g + 2)), q));
  }

  /** The computed length of a text that ends in p places of '=' and has no others. */
  lemma StrLenOfPadded(t: string, p: nat)
    requires |t| % 4 == 0 && p <= 2 && (p > 0 ==> |t| >= 4)
    requires forall k :: 0 <= k < |t| ==> (t[k] == '=' <==> k >= |t| - p)
    ensures StrLen(t) == |t| / 4 * 3 - p && ('=' in t ==> |t| >= 4)
  {
    if p == 2 {
      assert t[|t| - 2] == '=' && t[|t| - 2 + 1] == '=';
    } else if p == 1 {
      assert t[|t| - 1] == '=';
    }
  }

  lemma PaddedLength(n: nat)
    ensures Pads(n) <= 2 && (Pads(n) > 0 ==> n > 0)
    ensures (n + 2) / 3 * 3 - Pads(n) == n
  {
    Thirds(n + 2, n / 3 + (if n % 3 == 0 then 0 else 1));
  }

  /** Whole groups less p bytes need p places of '='. */
  lemma DataLength(g: nat, p: nat)
    requires p <= 2 && (p > 0 ==> g > 0)
    ensures (3 * g - p + 2) / 3 == g && Pads(3 * g - p) == p
  {
    Thirds(3 * g - p + 2, g);
    Thirds(3 * g - p, if p == 0 then g else g - 1);
  }

  lemma Thirds(n: nat, q: nat)
    requires 3 * q <= n < 3 * q + 3
    ensures n / 3 == q
  {
  }

  lemma StrLenOfEncoded(d: seq<bv8>)
    ensures StrLen(Encoded(d)) == |d|
    ensures '=' in Encoded(d) ==> |Encoded(d)| >= 4
  {
    hide Encoded, StrLen, Pads;
    var t := Encoded(d);
    PaddedLength(|d|);
    assert |t| / 4 == (|d| + 2) / 3;
    forall k | 0 <= k < |t| ensures t[k] == '=' <==> k >= |t| - Pads(|d|) {
      PadsOfEncoded(d, k);
    }
    StrLenOfPadded(t, Pads(|d|));
  }

  /**
    The encoder's own output overflows the decoder's buffer by a byte exactly for data of
    length 1 mod 3, which ends in a double padding.
   */
  lemma EncodedFits(d: seq<bv8>)
    ensures Coded(Encoded(d))
    ensures HasDoublePad(Encoded(d)) <==> |d| % 3 == 1
    ensures |Stored(Encoded(d))| <= StrLen(Encoded(d)) + 1 <==> |d| % 3 != 1
    ensures |Stored(Encoded(d))| <= StrLen(Encoded(d)) + 2
  {
    hide Encoded, StrLen, Stored, Pads, HasDoublePad;
    EncodedIsCoded(d);
    StrLenOfEncoded(d);
    StoredLength(d);
    PadCount(|d|);
    StoresFit(Encoded(d));
  }

  lemma StoredLength(d: seq<bv8>)
    requires Coded(Encoded(d))
    ensures |Encoded(d)| % 4 == 0 && |Stored(Encoded(d))| == |d| + Pads(|d|)
  {
    hide Encoded, Stored, Pads;
    PaddedLength(|d|);
    assert (4 * ((|d| + 2) / 3) + 1) / 4 == (|d| + 2) / 3;
  }

  lemma PadCount(n: nat)
    ensures Pads(n) <= 2 && (Pads(n) == 2 <==> n % 3 == 1)
  {
  }

  /** Decoding the encoding of any bytes returns them. */
  lemma RoundTrip(d: seq<bv8>)
    ensures Coded(Encoded(d)) && ('=' in Encoded(d) ==> |Encoded(d)| >= 4)
    ensures Decoded(Encoded(d)) == d
    ensures forall k :: |d| <= k < |Stored(Encoded(d))| ==> Stored(Encoded(d))[k] == 0
  {
    hide Encoded, Stored, StrLen;
    EncodedIsCoded(d);
    StrLenOfEncoded(d);
    forall k | 0 <= k < |Stored(Encoded(d))| ensures Stored(Encoded(d))[k] == ByteAt(d, k) {
      StoredOfEncoded(d, k);
    }
  }

  // ---------- Encoding undoes decoding, on canonical text ----------

  predicate IsLetter(c: char) {
    c as int < 123 && ValueOf(c as int) < 64 && Letter(ValueOf(c as int)) == c
  }

  /** p places of '=' at the end, letters before them, and no stray bit under the padding. */
  predicate Canonical(t: string, p: nat) {
    && |t| % 4 == 0 && p <= 2 && (p > 0 ==> |t| >= 4)
    && (forall k :: 0 <= k < |t| - p ==> IsLetter(t[k]))
    && (forall k :: |t| - p <= k < |t| ==> t[k] == '=')
    && (p == 1 ==> ValueOf(t[|t| - 2] as int) % 4 == 0)
    && (p == 2 ==> ValueOf(t[|t| - 3] as int) % 16 == 0)
  }

  lemma LetterIsSextet(c: char) returns (s: bv6)
    requires IsLetter(c)
    ensures c != '=' && c != '\0' && c as int < 123
    ensures Letter(s as int) == c && Value(c) == s as bv8
    ensures ValueOf(c as int) == s as int
  {
    hide Letter, Value, ValueOf;
    s := SextetOf(ValueOf(c as int));
    LetterValue(s);
  }

  lemma SextetOf(k: nat) returns (s: bv6)
    requires k < 64
    ensures s as int == k
  {
    s := k as bv6;
  }

  lemma CanonicalIsCoded(t: string, p: nat)
    requires Canonical(t, p)
    ensures Coded(t) && StrLen(t) == |t| / 4 * 3 - p
    ensures '=' in t ==> |t| >= 4
  {
    hide IsLetter, StrLen;
    forall k | 0 <= k < |t| ensures 0 < t[k] as int < 123 && (t[k] == '=' <==> k >= |t| - p) {
      if k < |t| - p {
        var _ := LetterIsSextet(t[k]);
      }
    }
    StrLenOfPadded(t, p);
  }

  /** Packing what four sextets unpack to gives the sextets back. */
  lemma Repack(s0: bv6, s1: bv6, s2: bv6, s3: bv6)
    ensures var v0, v1, v2, v3 := s0 as bv8, s1 as bv8, s2 as bv8, s3 as bv8;
      var g := Group(Unpack(v0, v1, v2, v3, 0), Unpack(v0, v1, v2, v3, 1), Unpack(v0, v1, v2, v3, 2));
      Sextet(g, 0) == s0 && Sextet(g, 1) == s1 && Sextet(g, 2) == s2 && Sextet(g, 3) == s3
  {
  }

  /** A clean sextet before the padding puts nothing into the padded bytes. */
  lemma CleanPadding(s: bv6)
    ensures s as int % 4 == 0 ==> Unpack(0, 0, s as bv8, 0, 2) == 0
    ensures s as int % 16 == 0 ==> Unpack(0, s as bv8, 0, 0, 1) == 0 && Unpack(0, s as bv8, 0, 0, 2) == 0
  {
  }

  /** The six bits a place of canonical text stands for: a letter's value, or zero for '='. */
  lemma PlaceSextet(t: string, p: nat, k: nat) returns (s: bv6)
    requires Canonical(t, p) && k < |t|
    ensures 0 < t[k] as int < 123 && Value(t[k]) == s as bv8 && s as int == ValueOf(t[k] as int)
    ensures k < |t| - p ==> Letter(s as int) == t[k]
    ensures k >= |t| - p ==> s == 0
  {
    hide IsLetter, Value, ValueOf, Letter;
    if k < |t| - p {
      s := LetterIsSextet(t[k]);
    } else {
      s := 0;
      PadValue();
      PadValueOf();
    }
  }

  lemma PadValueOf()
    ensures ValueOf('=' as int) == 0
  {
  }

  /** The stored bytes of canonical text past its data are zero. */
  lemma StoredPastData(t: string, p: nat, k: nat)
    requires Canonical(t, p) && Coded(t) && |t| / 4 * 3 - p <= k < |t| / 4 * 3
    ensures Stored(t)[k] == 0
  {
    hide IsLetter, Value, ValueOf;
    var n := |t|;
    var g := n / 4 - 1;
    assert k / 3 == g && 4 * g == n - 4;
    var s1 := PlaceSextet(t, p, n - 3);
    var s2 := PlaceSextet(t, p, n - 2);
    var s3 := PlaceSextet(t, p, n - 1);
    CleanPadding(s2);
    CleanPadding(s1);
    assert Stored(t)[k] == UnpackAt(t, g, k % 3);
  }

  /** Each place of canonical text is what encoding the stored bytes puts there. */
  lemma PlaceRestored(t: string, p: nat, k: nat)
    requires Canonical(t, p) && Coded(t) && k < |t| - p
    ensures 3 * (k / 4) + 2 < |Stored(t)|
    ensures var b := Stored(t);
      Letter(Sextet(Group(b[3 * (k / 4)], b[3 * (k / 4) + 1], b[3 * (k / 4) + 2]), k % 4) as int) == t[k]
  {
    hide IsLetter, Value, ValueOf, Letter, Unpack, Group, Sextet, Canonical, Stored;
    var g := k / 4;
    TextLength(t, p);
    StoredLine(t, g);
    var s0 := PlaceSextet(t, p, 4 * g);
    var s1 := PlaceSextet(t, p, 4 * g + 1);
    var s2 := PlaceSextet(t, p, 4 * g + 2);
    var s3 := PlaceSextet(t, p, 4 * g + 3);
    Repack(s0, s1, s2, s3);
  }

  lemma TextLength(t: string, p: nat)
    requires Canonical(t, p)
    ensures |t| % 4 == 0 && p <= 2 && (p > 0 ==> |t| >= 4)
    ensures forall k :: |t| - p <= k < |t| ==> t[k] == '='
  {
  }

  /** The stored bytes are the decoded data followed by zeros. */
  lemma DecodedBytes(t: string, p: nat)
    requires Canonical(t, p) && Coded(t) && ('=' in t ==> |t| >= 4)
    ensures |Decoded(t)| == |t| / 4 * 3 - p
    ensures |Encoded(Decoded(t))| == |t| && Pads(|Decoded(t)|) == p
    ensures forall k :: 0 <= k < |Stored(t)| ==> ByteAt(Decoded(t), k) == Stored(t)[k]
  {
    hide Stored, Canonical, Pads, StrLen;
    CanonicalIsCoded(t, p);
    TextLength(t, p);
    DataLength(|t| / 4, p);
    forall k | 0 <= k < |Stored(t)| ensures ByteAt(Decoded(t), k) == Stored(t)[k] {
      if k >= |Decoded(t)| {
        StoredPastData(t, p, k);
      }
    }
  }

  /** Encoding the decoding of canonical text returns the text. */
  lemma CanonicalRoundTrip(t: string, p: nat)
    requires Canonical(t, p)
    ensures Coded(t) && ('=' in t ==> |t| >= 4)
    ensures Encoded(Decoded(t)) == t
  {
    hide Group, Sextet, Letter, Stored, Decoded, IsLetter, CharAt, ByteAt, Canonical;
    CanonicalIsCoded(t, p);
    TextLength(t, p);
    DecodedBytes(t, p);
    var d := Decoded(t);
    forall k | 0 <= k < |t| ensures CharAt(d, k / 4, k % 4) == t[k] {
      var g, q := k / 4, k % 4;
      PadPlaces(|d|, g, q);
      if k >= |t| - p {
        PaddedPlace(d, g, q);
      } else {
        PlaceRestored(t, p, k);
        LetterPlace(d, g, q);
      }
    }
  }

  lemma LetterPlace(d: seq<bv8>, g: nat, q: nat)
    requires q < 4 && (q == 0 || 3 * g + q - 1 < |d|)
    ensures CharAt(d, g, q) ==
      Letter(Sextet(Group(ByteAt(d, 3 * g), ByteAt(d, 3 * g + 1), ByteAt(d, 3 * g + 2)), q) as int)
  {
  }

  lemma PlaceIsLetter(d: seq<bv8>, k: nat)
    requires k < |Encoded(d)|
    ensures if k < |Encoded(d)| - Pads(|d|) then IsLetter(Encoded(d)[k]) else Encoded(d)[k] == '='
  {
    hide Group, Sextet, Letter, ValueOf, IsLetter;
    PadsOfEncoded(d, k);
    var g := k / 4;
    SextetLetter(Sextet(Group(ByteAt(d, 3 * g), ByteAt(d, 3 * g + 1), ByteAt(d, 3 * g + 2)), k % 4));
  }

  /** The last letter before the padding carries no stray bit. */
  lemma NoStrayBits(d: seq<bv8>)
    requires |d| % 3 != 0
    ensures |Encoded(d)| >= 4 && Pads(|d|) == 3 - |d| % 3
    ensures |d| % 3 == 2 ==> ValueOf(Encoded(d)[|Encoded(d)| - 2] as int) % 4 == 0
    ensures |d| % 3 == 1 ==> ValueOf(Encoded(d)[|Encoded(d)| - 3] as int) % 16 == 0
  {
    hide Group, Sextet, Letter, ValueOf;
    var t, g, q := Encoded(d), |d| / 3, |d| % 3;
    assert |t| == 4 * g + 4 && t[4 * g + q] == CharAt(d, g, q);
    CleanSextets(d[3 * g], ByteAt(d, 3 * g + 1));
    SextetLetter(Sextet(Group(ByteAt(d, 3 * g), ByteAt(d, 3 * g + 1), ByteAt(d, 3 * g + 2)), q));
  }

  /** Encodings are canonical, so encoding is a bijection between byte strings and canonical texts. */
  lemma EncodedIsCanonical(d: seq<bv8>)
    ensures Canonical(Encoded(d), Pads(|d|))
  {
    hide CharAt, IsLetter, ValueOf;
    var t := Encoded(d);
    forall k | 0 <= k < |t| ensures if k < |t| - Pads(|d|) then IsLetter(t[k]) else t[k] == '=' {
      PlaceIsLetter(d, k);
    }
    if |d| % 3 != 0 {
      NoStrayBits(d);
    }
  }

  /** The sextet before the padding has zero bits where the data ended. */
  lemma CleanSextets(x: bv8, y: bv8)
    ensures Sextet(Group(x, 0, 0), 1) as int % 16 == 0
    ensures Sextet(Group(x, y, 0), 2) as int % 4 == 0
  {
  }

  lemma SextetLetter(s: bv6)
    ensures IsLetter(Letter(s as int)) && ValueOf(Letter(s as int) as int) == s as int
  {
    AlphabetRuns(s as int);
  }

  // ---------- Whole runs, on C strings ----------

  /** A buffer read as a C string: its bytes up to the first NUL. */
  function CString(b: seq<bv8>): seq<bv8> {
    if b == [] || b[0] == 0 then [] else [b[0]] + CString(b[1..])
  }

  lemma {:induction false} CStringOf(d: seq<bv8>, rest: seq<bv8>)
    requires 0 !in d && rest != [] && rest[0] == 0
    ensures CString(d + rest) == d
  {
    if d == [] {
      assert d + rest == rest;
    } else {
      CStringOf(d[1..], rest);
      assert (d + rest)[1..] == d[1..] + rest;
    }
  }

  /**
    gen_base64_decode after gen_base64_encode gives the string back. Where its length is 1 mod 3
    the decoder needs a byte more than it asks for.
   */
  method EncodeThenDecode(mem: seq<bv8>, n: nat, spare: seq<bv8>) returns (back: seq<bv8>)
    requires CanRead(mem, n) && mem[n] == 0 && forall k :: 0 <= k < n ==> mem[k] != 0
    requires (n + 2) / 3 * 4 <= INT_MAX
    requires n % 3 == 1 ==> spare != []
    ensures CString(back) == mem[..n]
  {
    hide Encoded, Stored, StrLen, CString, HasDoublePad;
    var d := mem[..n];
    var text := Encode(mem, n);
    var code := text[..text.Length - 1];
    assert code == Encoded(d);
    RoundTrip(d);
    EncodedFits(d);
    StrLenOfEncoded(d);
    var res, str_len := Decode(code, spare);
    back := res[..];
    assert back == d + back[n..];
    assert back[n] == 0;
    CStringOf(d, back[n..]);
  }

  // ---------- Signed characters ----------

  /** A signed char as an int of 32 bits. */
  function Signed(b: bv8): bv32 {
    if b < 128 then b as bv32 else b as bv32 | 0xffff_ff00
  }

  /** The right shift of an int keeps the sign. */
  function ShiftRight(w: bv32, k: bv5): bv32 {
    if w < 0x8000_0000 then w >> k else !(!w >> k)
  }

  /** The four indices where char is signed. */
  function SignedIndex(x: bv8, y: bv8, z: bv8, q: nat): bv32
    requires q < 4
  {
    if q == 0 then ShiftRight(Signed(x), 2)
    else if q == 1 then ((Signed(x) & 0x3) << 4) | ShiftRight(Signed(y), 4)
    else if q == 2 then ((Signed(y) & 0xf) << 2) | ShiftRight(Signed(z), 6)
    else Signed(z) & 0x3f
  }

  /** The byte of which an index takes the high bits; the last index takes those of none. */
  function HighByte(x: bv8, y: bv8, z: bv8, q: nat): bv8 {
    if q == 0 then x else if q == 1 then y else if q == 2 then z else 0
  }

  lemma FirstSigned(x: bv8)
    ensures ShiftRight(Signed(x), 2) < 64 <==> x < 128
    ensures x < 128 ==> ShiftRight(Signed(x), 2) == (x >> 2) as bv32
  {
  }

  lemma SecondSigned(x: bv8, y: bv8)
    ensures ((Signed(x) & 0x3) << 4) | ShiftRight(Signed(y), 4) < 64 <==> y < 128
    ensures y < 128 ==>
      ((Signed(x) & 0x3) << 4) | ShiftRight(Signed(y), 4) == (((x & 0x3) << 4) | (y >> 4)) as bv32
  {
  }

  lemma ThirdSigned(y: bv8, z: bv8)
    ensures ((Signed(y) & 0xf) << 2) | ShiftRight(Signed(z), 6) < 64 <==> z < 128
    ensures z < 128 ==>
      ((Signed(y) & 0xf) << 2) | ShiftRight(Signed(z), 6) == (((y & 0xf) << 2) | (z >> 6)) as bv32
  {
  }

  lemma FourthSigned(z: bv8)
    ensures Signed(z) & 0x3f == (z & 0x3f) as bv32 < 64
  {
  }

  /**
    Where char is signed an index is in the table exactly when the byte whose high bits it takes
    is below 128, and then it is the same.
   */
  lemma SignedCharAgrees(x: bv8, y: bv8, z: bv8, q: nat)
    requires q < 4
    ensures SignedIndex(x, y, z, q) < 64 <==> HighByte(x, y, z, q) < 128
    ensures SignedIndex(x, y, z, q) < 64 ==> SignedIndex(x, y, z, q) == IndexBits(x, y, z, q) as bv32
  {
    hide Signed, ShiftRight;
    if q == 0 {
      FirstSigned(x);
    } else if q == 1 {
      SecondSigned(x, y);
    } else if q == 2 {
      ThirdSigned(y, z);
    } else {
      FourthSigned(z);
    }
  }
}
