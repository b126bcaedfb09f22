/**
  The fields of a line, and what joining does to them. The library's two splitters, the
  iterator gen_foreach_field and the in-place general_get_field, are both tied to this definition.
 */
module LineFields {
  predicate IsBlank(c: char) {
    c == ' ' || c == '\t'
  }

  // ---------- The fields of a line ----------

  /** The first place of key at or after `from`, or the length. */
  function KeyFrom(s: string, key: char, from: nat): (k: nat)
    requires from <= |s|
    ensures from <= k <= |s|
    ensures k < |s| ==> s[k] == key
    ensures forall i :: from <= i < k ==> s[i] != key
    decreases |s| - from
  {
    if from == |s| || s[from] == key then from else KeyFrom(s, key, from + 1)
  }

  function StripLeft(s: string): (t: string)
    ensures |t| <= |s| && t == s[|s| - |t|..]
    ensures t != "" ==> !IsBlank(t[0])
    ensures forall i :: 0 <= i < |s| - |t| ==> IsBlank(s[i])
  {
    if s == "" || !IsBlank(s[0]) then s else StripLeft(s[1..])
  }

  /** A piece without its leading blanks, if anything is left of it. */
  function Piece(p: string): seq<string> {
    if StripLeft(p) == "" then [] else [StripLeft(p)]
  }

  /** Cut at every key, strip the blanks in front of each piece, and drop the empty pieces. */
  function Fields(s: string, key: char): (fs: seq<string>) {
    var k := KeyFrom(s, key, 0);
    Piece(s[..k]) + (if k == |s| then [] else Fields(s[k + 1..], key))
  }

  predicate EndsInNewline(s: string) {
    s != "" && s[|s| - 1] == '\n'
  }

  /** One trailing newline is dropped. */
  function DropNewline(s: string): string {
    if EndsInNewline(s) then s[..|s| - 1] else s
  }

  /** Exactly one, and a line without one is as it was. */
  lemma OneNewline(s: string)
    ensures DropNewline(s + "\n") == s
    ensures (s == "" || s[|s| - 1] != '\n') ==> DropNewline(s) == s
  {
  }

  predicate Clean(f: string, key: char) {
    f != "" && key !in f && f[0] != ' ' && f[0] != '\t'
  }

  lemma PieceIsClean(p: string, key: char)
    requires key !in p
    ensures forall f | f in Piece(p) :: Clean(f, key)
  {
  }

  lemma PieceAfterBlank(p: string)
    requires p != "" && IsBlank(p[0])
    ensures Piece(p) == Piece(p[1..])
  {
  }

  lemma PieceWhole(p: string)
    requires p == "" || !IsBlank(p[0])
    ensures Piece(p) == if p == "" then [] else [p]
  {
  }

  /** Every field is nonempty, free of the key, and does not start with a blank. */
  lemma {:induction false} FieldsAreClean(s: string, key: char)
    ensures forall f | f in Fields(s, key) :: Clean(f, key)
    decreases |s|
  {
    hide Clean, Piece;
    var k := KeyFrom(s, key, 0);
    PieceIsClean(s[..k], key);
    if k < |s| {
      FieldsAreClean(s[k + 1..], key);
    }
  }

  lemma KeyUnique(s: string, key: char, from: nat, k: nat)
    requires from <= k <= |s| && (k < |s| ==> s[k] == key)
    requires forall i :: from <= i < k ==> s[i] != key
    ensures KeyFrom(s, key, from) == k
  {
    hide KeyFrom;
  }

  /** The definition at a given first key. */
  lemma FieldsCut(s: string, key: char, k: nat)
    requires k <= |s| && (k < |s| ==> s[k] == key) && forall i :: 0 <= i < k ==> s[i] != key
    ensures k == |s| ==> Fields(s, key) == Piece(s)
    ensures k < |s| ==> Fields(s, key) == Piece(s[..k]) + Fields(s[k + 1..], key)
  {
    hide KeyFrom, Piece;
    KeyUnique(s, key, 0, k);
    assert s[..|s|] == s;
  }

  lemma FieldsOfNothing(key: char)
    ensures Fields("", key) == []
  {
  }

  /** A blank or a key in front changes nothing. */
  lemma SkipOne(s: string, key: char)
    requires s != "" && (s[0] == ' ' || s[0] == '\t' || s[0] == key)
    ensures Fields(s, key) == Fields(s[1..], key)
  {
    hide Fields, Piece, KeyFrom;
    if s[0] == key {
      FieldsCut(s, key, 0);
      PieceWhole(s[..0]);
    } else {
      var t := s[1..];
      var k := KeyFrom(t, key, 0);
      FieldsCut(s, key, k + 1);
      FieldsCut(t, key, k);
      if k < |t| {
        PieceAfterBlank(s[..k + 1]);
        assert s[..k + 1][1..] == t[..k];
        assert s[k + 2..] == t[k + 1..];
      } else {
        PieceAfterBlank(s);
      }
    }
  }

  /** A line that starts with a field: that field, then the fields from its end on. */
  lemma FirstField(s: string, key: char)
    requires s != "" && s[0] != ' ' && s[0] != '\t' && s[0] != key
    ensures var k := KeyFrom(s, key, 0);
      0 < k && Fields(s, key) == [s[..k]] + Fields(s[k..], key)
  {
    hide Fields, Piece, KeyFrom;
    var k := KeyFrom(s, key, 0);
    assert k > 0;
    FieldsCut(s, key, k);
    PieceWhole(s[..k]);
    if k < |s| {
      SkipOne(s[k..], key);
      assert s[k..][1..] == s[k + 1..];
    } else {
      assert s[..k] == s && s[k..] == "";
      FieldsOfNothing(key);
    }
  }

  lemma SkipAt(s: string, at: nat, key: char)
    requires at < |s| && (IsBlank(s[at]) || s[at] == key)
    ensures Fields(s[at..], key) == Fields(s[at + 1..], key)
  {
    hide Fields;
    SkipOne(s[at..], key);
    assert s[at..][1..] == s[at + 1..];
  }

  /** The field between two places: the first neither blank nor key, the second the next key or the end. */
  lemma FieldAt(s: string, at: nat, end: nat, key: char)
    requires at <= end <= |s| && (at < |s| ==> !IsBlank(s[at]) && s[at] != key)
    requires (end < |s| ==> s[end] == key) && forall i :: at <= i < end ==> s[i] != key
    ensures at == end ==> Fields(s[at..], key) == []
    ensures at < end ==> Fields(s[at..], key) == [s[at..end]] + Fields(s[end..], key)
  {
    hide Fields;
    var t := s[at..];
    if at == |s| {
      FieldsOfNothing(key);
      assert t == "";
    } else {
      KeyUnique(t, key, 0, end - at);
      FirstField(t, key);
      assert t[..end - at] == s[at..end];
      assert t[end - at..] == s[end..];
    }
  }

  // ---------- Joining ----------

  function Join(fs: seq<string>, key: char): string {
    if fs == [] then "" else if |fs| == 1 then fs[0] else fs[0] + [key] + Join(fs[1..], key)
  }

  lemma {:induction false} FieldsOfJoin(fs: seq<string>, key: char)
    requires forall f | f in fs :: Clean(f, key)
    ensures Fields(Join(fs, key), key) == fs
  {
    hide Fields, KeyFrom;
    if fs == [] {
      FieldsOfNothing(key);
    } else if |fs| == 1 {
      assert Clean(fs[0], key);
      FieldsCut(fs[0], key, |fs[0]|);
      PieceWhole(fs[0]);
    } else {
      assert Clean(fs[0], key);
      FieldsOfJoin(fs[1..], key);
      FieldInFront(fs[0], Join(fs[1..], key), key);
    }
  }

  lemma FieldInFront(f: string, rest: string, key: char)
    requires Clean(f, key)
    ensures Fields(f + [key] + rest, key) == [f] + Fields(rest, key)
  {
    hide Fields, KeyFrom, Piece;
    var s := f + [key] + rest;
    FieldsCut(s, key, |f|);
    PieceWhole(f);
    assert s[..|f|] == f && s[|f| + 1..] == rest;
  }

  lemma JoinNothing(key: char)
    ensures Join([], key) == ""
  {
  }

  lemma {:induction false} JoinEnds(fs: seq<string>, key: char)
    requires fs != [] && fs[|fs| - 1] != ""
    ensures Join(fs, key) != ""
    ensures var s, l := Join(fs, key), fs[|fs| - 1]; s[|s| - 1] == l[|l| - 1]
  {
    if |fs| > 1 {
      JoinEnds(fs[1..], key);
    }
  }

  /** A line of clean fields joined with the key and ended by a newline splits into the fields. */
  lemma LineRoundTrip(fs: seq<string>, key: char)
    requires forall f | f in fs :: Clean(f, key)
    ensures Fields(DropNewline(Join(fs, key) + "\n"), key) == fs
  {
    hide Fields, Join, DropNewline;
    FieldsOfJoin(fs, key);
    OneNewline(Join(fs, key));
  }

  /** So does one without a newline. */
  lemma JoinRoundTrip(fs: seq<string>, key: char)
    requires forall f | f in fs :: Clean(f, key)
    requires fs != [] ==> fs[|fs| - 1] == "" || fs[|fs| - 1][|fs[|fs| - 1]| - 1] != '\n'
    ensures Fields(DropNewline(Join(fs, key)), key) == fs
  {
    hide Fields, Join;
    FieldsOfJoin(fs, key);
    if fs == [] {
      JoinNothing(key);
    } else {
      assert Clean(fs[|fs| - 1], key);
      JoinEnds(fs, key);
    }
  }
}
